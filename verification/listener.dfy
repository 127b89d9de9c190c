/**
 * The server's wiring of the Monero backend (`src/server.rs`): the optional
 * RPC client set up from `--monero-rpc-address`, the transaction listener
 * built from it, and the listener's endless poll loop that pings the wallet
 * and runs the settlement scan.
 */
module Listener {
  import opened Wrappers
  import opened Numeric
  import opened Invoice
  import opened Scanner

  /** Seconds the loop sleeps before every ping. */
  const POLL_SECONDS: nat := 2

  /** Seconds the loop waits after a failed ping or a failed scan. */
  const RETRY_SECONDS: nat := 10

  datatype Client = Client(rpcAddress: string)

  /** The line written to standard error after the first ping. */
  datatype Notice = Connected | CannotConnect

  datatype ClientSetup = ClientSetup(client: Option<Client>, notice: Option<Notice>)

  /** Writing the notice to standard error failed. */
  datatype SetupError = StderrWrite

  /**
   * `setup_rpc_client`: with an address, a client is built and pinged; a
   * failing ping only changes the notice, the client is kept. Without an
   * address there is no client and nothing is written.
   */
  function SetupRpcClient(rpcAddress: Option<string>, pingOk: bool, stderrOk: bool): (r: Result<ClientSetup, SetupError>)
    ensures rpcAddress.None? ==> r == Success(ClientSetup(None, None))
    ensures rpcAddress.Some? ==> (r.Success? <==> stderrOk)
    ensures r.Success? ==> (r.value.client.Some? <==> rpcAddress.Some?)
    ensures r.Success? && rpcAddress.Some? ==>
      && r.value.client == Some(Client(rpcAddress.value))
      && r.value.notice == Some(if pingOk then Connected else CannotConnect)
  {
    match rpcAddress
    case None => Success(ClientSetup(None, None))
    case Some(address) =>
      if !stderrOk then Failure(StderrWrite)
      else Success(ClientSetup(Some(Client(address)), Some(if pingOk then Connected else CannotConnect)))
  }

  datatype TransactionListener = TransactionListener(rpcClient: Option<Client>)

  /** `run` unwraps the client on its first cycle: a listener without one panics. */
  predicate CanRun(l: TransactionListener)
  {
    l.rpcClient.Some?
  }

  /** `Server::setup` as written: a listener is built whatever the client setup gave. */
  function SetupListenerAsWritten(setup: ClientSetup): (l: Option<TransactionListener>)
    ensures l.Some?
  {
    Some(TransactionListener(setup.client))
  }

  /** The evident intent: a listener only when there is a client to poll. */
  function SetupListener(setup: ClientSetup): (l: Option<TransactionListener>)
    ensures l.Some? ==> CanRun(l.value) && l.value.rpcClient == setup.client
    ensures l.None? <==> setup.client.None?
  {
    if setup.client.Some? then Some(TransactionListener(setup.client)) else None
  }

  /**
   * Started without `--monero-rpc-address` (the argument is optional), the
   * server as written builds a listener that cannot run: its first cycle
   * unwraps a missing client.
   */
  lemma ListenerWithoutAddressCannotRun(pingOk: bool, stderrOk: bool)
    ensures SetupRpcClient(None, pingOk, stderrOk).Success?
    ensures var l := SetupListenerAsWritten(SetupRpcClient(None, pingOk, stderrOk).value);
      l.Some? && !CanRun(l.value)
  {
  }

  /** With the correction a listener exists exactly when an address was given, and it can run. */
  lemma ListenerExactlyWithAddress(rpcAddress: Option<string>, pingOk: bool, stderrOk: bool)
    requires SetupRpcClient(rpcAddress, pingOk, stderrOk).Success?
    ensures var l := SetupListener(SetupRpcClient(rpcAddress, pingOk, stderrOk).value);
      && (l.Some? <==> rpcAddress.Some?)
      && (l.Some? ==> CanRun(l.value))
  {
  }

  /* ---------------------------------------------------------------------- */
  /* The poll loop                                                           */
  /* ---------------------------------------------------------------------- */

  datatype Action = Sleep(seconds: nat) | Ping | Scan

  /** One pass of the loop: sleep, ping, and scan only if the ping answered; retry later after a failure. */
  function Cycle(pingOk: bool, scanOk: bool): (r: seq<Action>)
    ensures |r| >= 3 && r[0] == Sleep(POLL_SECONDS) && r[1] == Ping
    ensures (Scan in r) <==> pingOk
    ensures (Sleep(RETRY_SECONDS) in r) <==> !pingOk || !scanOk
    ensures forall k :: 0 <= k < |r| && r[k] == Scan ==> k == 2
    ensures forall k :: 0 <= k < |r| && r[k] == Ping ==> k == 1
  {
    [Sleep(POLL_SECONDS), Ping]
    + (if !pingOk then [Sleep(RETRY_SECONDS)] else [Scan] + (if scanOk then [] else [Sleep(RETRY_SECONDS)]))
  }

  /** What the wallet shows at one cycle: whether it answers the ping, the chain tip, the transfers in the scan window. */
  datatype Observation = Observation(pingOk: bool, tip: u64, transfers: seq<Transfer>)

  /** The wallet after the cycles, the actions taken, and whether a scan panicked and ended the loop. */
  datatype RunResult = RunResult(wallet: Wallet, actions: seq<Action>, halted: bool)

  predicate ObservationsFit(obs: seq<Observation>, n: nat)
  {
    forall i :: 0 <= i < |obs| ==> IndicesKnown(obs[i].transfers, n)
  }

  /**
   * `run` over a finite prefix of its cycles. The scan's `update_payments`
   * cannot return an error, so the retry after a failed scan is never taken;
   * a checkpoint that does not parse panics inside it and ends the loop.
   */
  function Run(l: TransactionListener, w: Wallet, obs: seq<Observation>): (r: RunResult)
    requires CanRun(l)
    requires ObservationsFit(obs, |w.subaddresses|)
    ensures |r.wallet.subaddresses| == |w.subaddresses|
    decreases |obs|
  {
    if obs == [] then RunResult(w, [], false)
    else
      var o := obs[0];
      if !o.pingOk then
        var rest := Run(l, w, obs[1..]);
        rest.(actions := Cycle(false, true) + rest.actions)
      else
        match UpdatePayments(w, o.tip, o.transfers)
        case Failure(_) => RunResult(w, Cycle(true, true), true)
        case Success(outcome) =>
          var rest := Run(l, outcome.wallet, obs[1..]);
          rest.(actions := Cycle(true, true) + rest.actions)
  }

  /** Every `Scan` in the actions comes straight after a `Ping`. */
  predicate ScansFollowPings(acts: seq<Action>)
  {
    forall k :: 0 <= k < |acts| && acts[k] == Scan ==> k > 0 && acts[k - 1] == Ping
  }

  lemma ScansFollowPingsAppend(x: seq<Action>, y: seq<Action>)
    requires ScansFollowPings(x) && ScansFollowPings(y)
    ensures ScansFollowPings(x + y)
  {
    var xy := x + y;
    forall k | 0 <= k < |xy| && xy[k] == Scan ensures k > 0 && xy[k - 1] == Ping {
      if k >= |x| {
        assert y[k - |x|] == Scan;
        assert xy[k - 1] == y[k - |x| - 1];
      }
    }
  }

  /** Every scan comes straight after a ping that answered. */
  lemma {:induction false} ScanFollowsPing(l: TransactionListener, w: Wallet, obs: seq<Observation>)
    requires CanRun(l) && ObservationsFit(obs, |w.subaddresses|)
    ensures ScansFollowPings(Run(l, w, obs).actions)
    decreases |obs|
  {
    if obs != [] {
      var o := obs[0];
      var c := Cycle(o.pingOk, true);
      assert ScansFollowPings(c);
      if !o.pingOk {
        ScanFollowsPing(l, w, obs[1..]);
        ScansFollowPingsAppend(c, Run(l, w, obs[1..]).actions);
      } else if UpdatePayments(w, o.tip, o.transfers).Success? {
        var w' := UpdatePayments(w, o.tip, o.transfers).value.wallet;
        ScanFollowsPing(l, w', obs[1..]);
        ScansFollowPingsAppend(c, Run(l, w', obs[1..]).actions);
      }
    }
  }

  /** Number of cycles whose ping answered. */
  function Answered(obs: seq<Observation>): (n: nat)
    ensures n <= |obs|
  {
    if obs == [] then 0 else (if obs[0].pingOk then 1 else 0) + Answered(obs[1..])
  }

  function CountAction(acts: seq<Action>, a: Action): (n: nat)
    ensures n <= |acts|
  {
    if acts == [] then 0 else (if acts[0] == a then 1 else 0) + CountAction(acts[1..], a)
  }

  lemma {:induction false} CountActionAppend(x: seq<Action>, y: seq<Action>, a: Action)
    ensures CountAction(x + y, a) == CountAction(x, a) + CountAction(y, a)
  {
    if x != [] {
      assert (x + y)[0] == x[0];
      assert (x + y)[1..] == x[1..] + y;
      CountActionAppend(x[1..], y, a);
    } else {
      assert x + y == y;
    }
  }

  lemma CycleCounts(pingOk: bool)
    ensures CountAction(Cycle(pingOk, true), Ping) == 1
    ensures CountAction(Cycle(pingOk, true), Scan) == if pingOk then 1 else 0
  {
    var c := Cycle(pingOk, true);
    var last := if pingOk then Scan else Sleep(RETRY_SECONDS);
    assert c == [Sleep(POLL_SECONDS), Ping, last];
    assert c[1..] == [Ping, last];
    assert c[1..][1..] == [last];
    assert c[1..][1..][1..] == [];
    forall a: Action ensures CountAction(c, a) ==
      (if Sleep(POLL_SECONDS) == a then 1 else 0) + (if Ping == a then 1 else 0) + (if last == a then 1 else 0)
    {
      assert CountAction(c[1..][1..][1..], a) == 0;
      assert CountAction(c[1..][1..], a) == (if last == a then 1 else 0);
      assert CountAction(c[1..], a) == (if Ping == a then 1 else 0) + CountAction(c[1..][1..], a);
    }
  }

  /**
   * A loop that does not halt pings once per cycle and scans exactly once
   * per answered ping.
   */
  lemma {:induction false} RunCounts(l: TransactionListener, w: Wallet, obs: seq<Observation>)
    requires CanRun(l) && ObservationsFit(obs, |w.subaddresses|)
    requires !Run(l, w, obs).halted
    ensures CountAction(Run(l, w, obs).actions, Ping) == |obs|
    ensures CountAction(Run(l, w, obs).actions, Scan) == Answered(obs)
    decreases |obs|
  {
    if obs != [] {
      var o := obs[0];
      CycleCounts(o.pingOk);
      if !o.pingOk {
        RunCounts(l, w, obs[1..]);
        CountActionAppend(Cycle(false, true), Run(l, w, obs[1..]).actions, Ping);
        CountActionAppend(Cycle(false, true), Run(l, w, obs[1..]).actions, Scan);
      } else {
        var w' := UpdatePayments(w, o.tip, o.transfers).value.wallet;
        RunCounts(l, w', obs[1..]);
        CountActionAppend(Cycle(true, true), Run(l, w', obs[1..]).actions, Ping);
        CountActionAppend(Cycle(true, true), Run(l, w', obs[1..]).actions, Scan);
      }
    }
  }

  /** A settled invoice stays settled through any number of cycles. */
  lemma {:induction false} RunKeepsSettled(l: TransactionListener, w: Wallet, obs: seq<Observation>, a: nat)
    requires CanRun(l) && ObservationsFit(obs, |w.subaddresses|)
    requires a < |w.subaddresses| && DecodeLabel(w.subaddresses[a].labelData).isSettled
    ensures DecodeLabel(Run(l, w, obs).wallet.subaddresses[a].labelData).isSettled
    decreases |obs|
  {
    if obs != [] {
      var o := obs[0];
      if !o.pingOk {
        RunKeepsSettled(l, w, obs[1..], a);
      } else if UpdatePayments(w, o.tip, o.transfers).Success? {
        ScanOnlySettles(w, o.tip, o.transfers, a);
        var w' := UpdatePayments(w, o.tip, o.transfers).value.wallet;
        RunKeepsSettled(l, w', obs[1..], a);
      }
    }
  }

  /** A scan that succeeds leaves a readable checkpoint (unchanged, or the tip's decimal text). */
  lemma ScanKeepsCheckpointReadable(w: Wallet, tip: u64, transfers: seq<Transfer>)
    requires IndicesKnown(transfers, |w.subaddresses|)
    requires UpdatePayments(w, tip, transfers).Success?
    ensures StoredCheckpoint(UpdatePayments(w, tip, transfers).value.wallet.attributes).Success?
  {
    if AllPaid(transfers, w.subaddresses, tip) {
      CheckpointAdvanceReadsBack(w, tip, transfers);
    }
  }

  /** Starting from a readable checkpoint (or none) the loop never panics on it. */
  lemma {:induction false} RunNeverHalts(l: TransactionListener, w: Wallet, obs: seq<Observation>)
    requires CanRun(l) && ObservationsFit(obs, |w.subaddresses|)
    requires StoredCheckpoint(w.attributes).Success?
    ensures !Run(l, w, obs).halted
    decreases |obs|
  {
    if obs != [] {
      var o := obs[0];
      if !o.pingOk {
        RunNeverHalts(l, w, obs[1..]);
      } else {
        assert UpdatePayments(w, o.tip, o.transfers).Success?;
        ScanKeepsCheckpointReadable(w, o.tip, o.transfers);
        var w' := UpdatePayments(w, o.tip, o.transfers).value.wallet;
        RunNeverHalts(l, w', obs[1..]);
      }
    }
  }
}
