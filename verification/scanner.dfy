/**
 * The settlement scanner of the Monero backend (`update_payments`): it reads
 * the checkpoint, takes the incoming transfers the wallet reports for the
 * scan window, marks the invoice behind every sufficiently paid and
 * confirmed transfer as settled, and advances the checkpoint to the chain tip
 * only when every transfer in the window passed.
 */
module Scanner {
  import opened Wrappers
  import opened Numeric
  import opened Invoice

  /** Blocks below the checkpoint that every scan looks at again. */
  const SAFETY_MARGIN: u64 := 10

  datatype Category = In | Out | Pending | Failed | Pool

  datatype TransferHeight = Confirmed(height: u64) | InPool

  /** One entry of `get_transfers`; `subaddrIndex` is the minor index in account 0. */
  datatype Transfer = Transfer(
    category: Category,
    subaddrIndex: nat,
    amount: u64,
    confirmations: Option<u64>,
    doubleSpendSeen: bool,
    unlockTime: u64,
    height: TransferHeight)

  /** `transfer.confirmations.unwrap_or(0)`. */
  function Confirmations(t: Transfer): u64
  {
    match t.confirmations
    case Some(c) => c
    case None => 0
  }

  /** The transfer's unlock time lies beyond the chain tip. */
  predicate Locked(t: Transfer, tip: u64)
  {
    t.unlockTime > 0 && t.unlockTime > tip
  }

  /**
   * The confirmations the scanner demands of a transfer: one if a double
   * spend was seen; replaced (not increased) by the distance to the unlock
   * height while the transfer is locked; and for a pool transfer that already
   * shows confirmations, increased by those confirmations.
   */
  function RequiredConfirmations(t: Transfer, tip: u64): u64
  {
    var base := if t.doubleSpendSeen then 1 else 0;
    var afterLock :=
      if Locked(t, tip) then
        match t.height
        case Confirmed(h) => WrappingSub(t.unlockTime, h)
        case InPool => t.unlockTime - tip
      else base;
    var c := Confirmations(t);
    if t.height == InPool && afterLock > 0 && c > 0 then WrappingAdd(c, afterLock) else afterLock
  }

  /** The settle test: enough confirmations and at least the invoice's value. */
  predicate Satisfies(t: Transfer, value: u64, tip: u64)
  {
    Confirmations(t) >= RequiredConfirmations(t, tip) && t.amount >= value
  }

  /* ---------------------------------------------------------------------- */
  /* Confirmation rules                                                      */
  /* ---------------------------------------------------------------------- */

  /**
   * A confirmed, unlocked transfer flagged as a double spend needs exactly
   * one confirmation: with none it never settles, with one and enough amount
   * it does.
   */
  lemma DoubleSpendNeedsOneConfirmation(t: Transfer, value: u64, tip: u64)
    requires t.doubleSpendSeen && !Locked(t, tip) && t.height.Confirmed?
    ensures RequiredConfirmations(t, tip) == 1
    ensures Confirmations(t) == 0 ==> !Satisfies(t, value, tip)
    ensures Confirmations(t) >= 1 && t.amount >= value ==> Satisfies(t, value, tip)
  {
  }

  /**
   * While a confirmed transfer is locked, the requirement is the distance
   * from its block to the unlock height; a double spend flag adds nothing.
   */
  lemma LockReplacesRequirement(t: Transfer, tip: u64)
    requires Locked(t, tip) && t.height.Confirmed? && t.height.height <= tip
    ensures RequiredConfirmations(t, tip) == t.unlockTime - t.height.height
  {
  }

  /**
   * A locked confirmed transfer whose confirmation count is the number of
   * blocks since its own does not settle before the tip reaches the unlock
   * height.
   */
  lemma LockedTransferWaitsForUnlock(t: Transfer, value: u64, tip: u64)
    requires Locked(t, tip) && t.height.Confirmed? && t.height.height <= tip
    requires Confirmations(t) == tip - t.height.height
    ensures !Satisfies(t, value, tip)
  {
    LockReplacesRequirement(t, tip);
  }

  /**
   * A pool transfer that needs any confirmation at all never passes: the
   * confirmations it shows are added to what it needs. This holds only while
   * confirmations plus requirement stays below 2^64 (both below 2^63); see
   * `PoolTransferWrapPasses` for what happens past that.
   */
  lemma PoolTransferWithRequirementNeverPasses(t: Transfer, value: u64, tip: u64)
    requires t.height == InPool && (t.doubleSpendSeen || Locked(t, tip))
    requires Confirmations(t) + U64_LIMIT / 2 < U64_LIMIT && t.unlockTime < U64_LIMIT / 2
    ensures !Satisfies(t, value, tip)
  {
  }

  /**
   * Past the no-wrap bound the wrapping addition lets a pool transfer through:
   * a double spend showing `U64_MAX` confirmations needs `U64_MAX + 1`, which
   * wraps to 0, so it settles.
   */
  lemma PoolTransferWrapPasses()
    ensures var t := Transfer(In, 0, 5, Some(U64_MAX), true, 0, InPool);
      && RequiredConfirmations(t, 100) == 0
      && Satisfies(t, 0, 100)
  {
  }

  /** Without double spend, lock or pool status nothing beyond the amount is asked. */
  lemma PlainTransferNeedsNoConfirmation(t: Transfer, value: u64, tip: u64)
    requires !t.doubleSpendSeen && !Locked(t, tip)
    ensures RequiredConfirmations(t, tip) == 0
    ensures Satisfies(t, value, tip) <==> t.amount >= value
  {
  }

  /* ---------------------------------------------------------------------- */
  /* Checkpoint                                                              */
  /* ---------------------------------------------------------------------- */

  datatype ScanError = CheckpointUnparsable(text: string)

  /**
   * The stored checkpoint: absent (or unreadable over RPC) means none; text
   * that is not a `u64` makes `parse().unwrap()` panic, which ends the scan
   * before any write.
   */
  function StoredCheckpoint(attributes: map<string, string>): (r: Result<Option<u64>, ScanError>)
    ensures r.Failure? <==> CHECKPOINT_KEY in attributes && ParseU64(attributes[CHECKPOINT_KEY]).None?
    ensures r.Success? && r.value.Some? ==>
      CHECKPOINT_KEY in attributes && ParseU64(attributes[CHECKPOINT_KEY]) == Some(r.value.value)
    ensures r == Success(None) <==> CHECKPOINT_KEY !in attributes
  {
    if CHECKPOINT_KEY !in attributes then Success(None)
    else
      match ParseU64(attributes[CHECKPOINT_KEY])
      case Some(h) => Success(Some(h))
      case None => Failure(CheckpointUnparsable(attributes[CHECKPOINT_KEY]))
  }

  /**
   * The scan floor as written: `block_height_attribute - 10` on `u64`. In a
   * release build this wraps below 10; in a debug build it panics.
   */
  function FloorAsWritten(checkpoint: Option<u64>): u64
  {
    match checkpoint
    case None => 0
    case Some(h) => WrappingSub(h, SAFETY_MARGIN)
  }

  /**
   * The scan floor: from the start of the chain without a checkpoint, else
   * the safety margin below the checkpoint, never below zero.
   */
  function Floor(checkpoint: Option<u64>): (f: u64)
    ensures checkpoint.None? ==> f == 0
    ensures checkpoint.Some? ==> f <= checkpoint.value && checkpoint.value - f <= SAFETY_MARGIN
    ensures checkpoint.Some? && checkpoint.value >= SAFETY_MARGIN ==> checkpoint.value - f == SAFETY_MARGIN
  {
    match checkpoint
    case None => 0
    case Some(h) => SaturatingSub(h, SAFETY_MARGIN)
  }

  /** Below a checkpoint of 10 the written floor wraps to a height above the checkpoint. */
  lemma FloorAsWrittenUnderflows(h: u64)
    requires h < SAFETY_MARGIN
    ensures FloorAsWritten(Some(h)) == h + U64_LIMIT - SAFETY_MARGIN
    ensures FloorAsWritten(Some(h)) > h
    ensures Floor(Some(h)) == 0
  {
  }

  /** From a checkpoint of 10 on the written floor is the intended one. */
  lemma FloorAsWrittenAgrees(checkpoint: Option<u64>)
    requires checkpoint.Some? ==> checkpoint.value >= SAFETY_MARGIN
    ensures FloorAsWritten(checkpoint) == Floor(checkpoint)
  {
  }

  /* ---------------------------------------------------------------------- */
  /* The scan over the transfers                                             */
  /* ---------------------------------------------------------------------- */

  /** Every transfer names a sub-address the wallet has (the wallet reports only its own). */
  predicate IndicesKnown(ts: seq<Transfer>, n: nat)
  {
    forall i :: 0 <= i < |ts| ==> ts[i].subaddrIndex < n
  }

  /** The transfer passes the settle test against the invoice its sub-address holds. */
  predicate PaidBy(t: Transfer, subs: seq<Subaddress>, tip: u64)
    requires t.subaddrIndex < |subs|
  {
    Satisfies(t, DecodeLabel(subs[t.subaddrIndex].labelData).value, tip)
  }

  /** Some transfer to sub-address `a` passes. */
  predicate Settles(ts: seq<Transfer>, subs: seq<Subaddress>, tip: u64, a: nat)
    requires IndicesKnown(ts, |subs|)
  {
    exists i :: 0 <= i < |ts| && ts[i].subaddrIndex == a && PaidBy(ts[i], subs, tip)
  }

  /** Every transfer passes. */
  predicate AllPaid(ts: seq<Transfer>, subs: seq<Subaddress>, tip: u64)
    requires IndicesKnown(ts, |subs|)
  {
    forall i :: 0 <= i < |ts| ==> PaidBy(ts[i], subs, tip)
  }

  function SettleAt(subs: seq<Subaddress>, a: nat): (r: seq<Subaddress>)
    requires a < |subs|
    ensures |r| == |subs|
  {
    subs[a := subs[a].(labelData := SettledLabel(subs[a].labelData))]
  }

  /**
   * What a scan leaves at sub-address `a`, stated without reference to the
   * order of the transfers: the settled label if some transfer to `a` passes,
   * else the label unchanged.
   */
  function Expected(ts: seq<Transfer>, subs: seq<Subaddress>, tip: u64, a: nat): Subaddress
    requires IndicesKnown(ts, |subs|) && a < |subs|
  {
    if Settles(ts, subs, tip, a) then subs[a].(labelData := SettledLabel(subs[a].labelData)) else subs[a]
  }

  predicate NoDuplicates(s: seq<nat>)
  {
    forall i, j :: 0 <= i < j < |s| ==> s[i] != s[j]
  }

  /** The sub-addresses after the loop, whether every transfer passed, the labels written in order. */
  datatype ScanState = ScanState(subaddresses: seq<Subaddress>, allPassed: bool, writes: seq<nat>)

  /** The loop over the transfers, in the order the wallet returned them. */
  function ProcessTransfers(subs: seq<Subaddress>, tip: u64, ts: seq<Transfer>): (r: ScanState)
    requires IndicesKnown(ts, |subs|)
    ensures |r.subaddresses| == |subs|
    decreases |ts|
  {
    if ts == [] then ScanState(subs, true, [])
    else
      var t := ts[0];
      var a := t.subaddrIndex;
      var inv := DecodeLabel(subs[a].labelData);
      if Satisfies(t, inv.value, tip) then
        if !inv.isSettled then
          var rest := ProcessTransfers(SettleAt(subs, a), tip, ts[1..]);
          rest.(writes := [a] + rest.writes)
        else
          ProcessTransfers(subs, tip, ts[1..])
      else
        var rest := ProcessTransfers(subs, tip, ts[1..]);
        rest.(allPassed := false)
  }

  /** Settling one label leaves every value, and so every settle test, as it was. */
  lemma PaidByAfterSettle(t: Transfer, subs: seq<Subaddress>, a: nat, tip: u64)
    requires a < |subs| && t.subaddrIndex < |subs|
    ensures PaidBy(t, SettleAt(subs, a), tip) == PaidBy(t, subs, tip)
  {
    SettledLabelProperties(subs[a].labelData);
  }

  lemma SettlesAfterSettle(ts: seq<Transfer>, subs: seq<Subaddress>, a: nat, tip: u64, b: nat)
    requires a < |subs| && IndicesKnown(ts, |subs|)
    ensures Settles(ts, SettleAt(subs, a), tip, b) == Settles(ts, subs, tip, b)
  {
    forall i | 0 <= i < |ts| ensures PaidBy(ts[i], SettleAt(subs, a), tip) == PaidBy(ts[i], subs, tip) {
      PaidByAfterSettle(ts[i], subs, a, tip);
    }
  }

  lemma AllPaidAfterSettle(ts: seq<Transfer>, subs: seq<Subaddress>, a: nat, tip: u64)
    requires a < |subs| && IndicesKnown(ts, |subs|)
    ensures AllPaid(ts, SettleAt(subs, a), tip) == AllPaid(ts, subs, tip)
  {
    forall i | 0 <= i < |ts| ensures PaidBy(ts[i], SettleAt(subs, a), tip) == PaidBy(ts[i], subs, tip) {
      PaidByAfterSettle(ts[i], subs, a, tip);
    }
  }

  lemma SettlesCons(ts: seq<Transfer>, subs: seq<Subaddress>, tip: u64, b: nat)
    requires |ts| > 0 && IndicesKnown(ts, |subs|)
    ensures IndicesKnown(ts[1..], |subs|)
    ensures Settles(ts, subs, tip, b)
      <==> (ts[0].subaddrIndex == b && PaidBy(ts[0], subs, tip)) || Settles(ts[1..], subs, tip, b)
  {
    assert IndicesKnown(ts[1..], |subs|) by {
      forall i | 0 <= i < |ts[1..]| ensures ts[1..][i].subaddrIndex < |subs| {
        assert ts[1..][i] == ts[i + 1];
      }
    }
    if Settles(ts, subs, tip, b) {
      var i :| 0 <= i < |ts| && ts[i].subaddrIndex == b && PaidBy(ts[i], subs, tip);
      if i > 0 {
        assert ts[1..][i - 1] == ts[i];
      }
    }
    if Settles(ts[1..], subs, tip, b) {
      var j :| 0 <= j < |ts[1..]| && ts[1..][j].subaddrIndex == b && PaidBy(ts[1..][j], subs, tip);
      assert ts[1..][j] == ts[j + 1];
    }
  }

  lemma AllPaidCons(ts: seq<Transfer>, subs: seq<Subaddress>, tip: u64)
    requires |ts| > 0 && IndicesKnown(ts, |subs|)
    ensures IndicesKnown(ts[1..], |subs|)
    ensures AllPaid(ts, subs, tip) <==> PaidBy(ts[0], subs, tip) && AllPaid(ts[1..], subs, tip)
  {
    SettlesCons(ts, subs, tip, 0);
    if PaidBy(ts[0], subs, tip) && AllPaid(ts[1..], subs, tip) {
      forall i | 0 <= i < |ts| ensures PaidBy(ts[i], subs, tip) {
        if i > 0 {
          assert ts[i] == ts[1..][i - 1];
        }
      }
    }
    if AllPaid(ts, subs, tip) {
      forall j | 0 <= j < |ts[1..]| ensures PaidBy(ts[1..][j], subs, tip) {
        assert ts[1..][j] == ts[j + 1];
      }
    }
  }

  /**
   * What the loop promises: each label is the order-free `Expected` one,
   * the pass flag says whether every transfer passed, the writes are exactly
   * the labels that were not settled and are now, each written once.
   */
  ghost predicate ScanMeets(subs: seq<Subaddress>, tip: u64, ts: seq<Transfer>, r: ScanState)
    requires IndicesKnown(ts, |subs|)
  {
    && |r.subaddresses| == |subs|
    && (forall a :: 0 <= a < |subs| ==> r.subaddresses[a] == Expected(ts, subs, tip, a))
    && (r.allPassed <==> AllPaid(ts, subs, tip))
    && (forall a :: a in r.writes <==>
          0 <= a < |subs| && Settles(ts, subs, tip, a) && !DecodeLabel(subs[a].labelData).isSettled)
    && NoDuplicates(r.writes)
  }

  /** The step where the first transfer passes and settles its label. */
  lemma SettleStep(subs: seq<Subaddress>, tip: u64, ts: seq<Transfer>)
    requires ts != [] && IndicesKnown(ts, |subs|)
    requires Satisfies(ts[0], DecodeLabel(subs[ts[0].subaddrIndex].labelData).value, tip)
    requires !DecodeLabel(subs[ts[0].subaddrIndex].labelData).isSettled
    requires IndicesKnown(ts[1..], |subs|)
    requires ScanMeets(SettleAt(subs, ts[0].subaddrIndex), tip, ts[1..],
                       ProcessTransfers(SettleAt(subs, ts[0].subaddrIndex), tip, ts[1..]))
    ensures ScanMeets(subs, tip, ts, ProcessTransfers(subs, tip, ts))
  {
    var r := ProcessTransfers(subs, tip, ts);
    var t := ts[0];
    var a := t.subaddrIndex;
    var tail := ts[1..];
    var subs' := SettleAt(subs, a);
    var rest := ProcessTransfers(subs', tip, tail);
    assert r == rest.(writes := [a] + rest.writes);
    assert PaidBy(t, subs, tip);
    AllPaidCons(ts, subs, tip);
    AllPaidAfterSettle(tail, subs, a, tip);
    forall b ensures Settles(ts, subs, tip, b) <==> (a == b && PaidBy(t, subs, tip)) || Settles(tail, subs, tip, b) {
      SettlesCons(ts, subs, tip, b);
    }
    forall b ensures Settles(tail, subs', tip, b) == Settles(tail, subs, tip, b) {
      SettlesAfterSettle(tail, subs, a, tip, b);
    }
    forall b | 0 <= b < |subs| ensures r.subaddresses[b] == Expected(ts, subs, tip, b) {
      assert r.subaddresses[b] == Expected(tail, subs', tip, b);
    }
    assert a !in rest.writes by {
      SettledLabelProperties(subs[a].labelData);
      assert DecodeLabel(subs'[a].labelData).isSettled;
    }
    forall b ensures b in r.writes <==>
      0 <= b < |subs| && Settles(ts, subs, tip, b) && !DecodeLabel(subs[b].labelData).isSettled
    {
      if b != a && 0 <= b < |subs| {
        assert subs'[b] == subs[b];
      }
    }
    assert NoDuplicates(r.writes) by {
      forall i, j | 0 <= i < j < |r.writes| ensures r.writes[i] != r.writes[j] {
        if i == 0 {
          assert r.writes[j] == rest.writes[j - 1];
        } else {
          assert r.writes[i] == rest.writes[i - 1];
          assert r.writes[j] == rest.writes[j - 1];
        }
      }
    }
  }

  /** The steps where the first transfer writes nothing: it fails, or its label is already settled. */
  lemma KeepStep(subs: seq<Subaddress>, tip: u64, ts: seq<Transfer>)
    requires ts != [] && IndicesKnown(ts, |subs|)
    requires !Satisfies(ts[0], DecodeLabel(subs[ts[0].subaddrIndex].labelData).value, tip)
      || DecodeLabel(subs[ts[0].subaddrIndex].labelData).isSettled
    requires IndicesKnown(ts[1..], |subs|)
    requires ScanMeets(subs, tip, ts[1..], ProcessTransfers(subs, tip, ts[1..]))
    ensures ScanMeets(subs, tip, ts, ProcessTransfers(subs, tip, ts))
  {
    var r := ProcessTransfers(subs, tip, ts);
    var t := ts[0];
    var a := t.subaddrIndex;
    var tail := ts[1..];
    var rest := ProcessTransfers(subs, tip, tail);
    assert r.subaddresses == rest.subaddresses && r.writes == rest.writes;
    AllPaidCons(ts, subs, tip);
    SettledLabelProperties(subs[a].labelData);
    forall b ensures Settles(ts, subs, tip, b) <==> (a == b && PaidBy(t, subs, tip)) || Settles(tail, subs, tip, b) {
      SettlesCons(ts, subs, tip, b);
    }
    forall b | 0 <= b < |subs| ensures r.subaddresses[b] == Expected(ts, subs, tip, b) {
      assert r.subaddresses[b] == Expected(tail, subs, tip, b);
    }
  }

  /** The loop meets `ScanMeets`, whatever the order of the transfers. */
  lemma {:induction false} ProcessTransfersSpec(subs: seq<Subaddress>, tip: u64, ts: seq<Transfer>)
    requires IndicesKnown(ts, |subs|)
    ensures ScanMeets(subs, tip, ts, ProcessTransfers(subs, tip, ts))
    decreases |ts|
  {
    if ts == [] {
      return;
    }
    var a := ts[0].subaddrIndex;
    var inv := DecodeLabel(subs[a].labelData);
    AllPaidCons(ts, subs, tip);
    if Satisfies(ts[0], inv.value, tip) && !inv.isSettled {
      ProcessTransfersSpec(SettleAt(subs, a), tip, ts[1..]);
      SettleStep(subs, tip, ts);
    } else {
      ProcessTransfersSpec(subs, tip, ts[1..]);
      KeepStep(subs, tip, ts);
    }
  }

  /* ---------------------------------------------------------------------- */
  /* update_payments                                                         */
  /* ---------------------------------------------------------------------- */

  /** The wallet after a scan, the floor the transfers were requested from, the labels written. */
  datatype ScanOutcome = ScanOutcome(wallet: Wallet, floor: u64, writes: seq<nat>)

  /** The checkpoint attributes after a scan: advanced to the tip only when every transfer passed. */
  function AdvanceCheckpoint(attributes: map<string, string>, allPassed: bool, tip: u64): map<string, string>
  {
    if allPassed then attributes[CHECKPOINT_KEY := Decimal(tip)] else attributes
  }

  /**
   * One pass of the scanner against the chain tip `tip`, given the transfers
   * the wallet returns for the window starting at the floor.
   */
  function UpdatePayments(w: Wallet, tip: u64, transfers: seq<Transfer>): (r: Result<ScanOutcome, ScanError>)
    requires IndicesKnown(transfers, |w.subaddresses|)
    ensures r.Failure? <==> CHECKPOINT_KEY in w.attributes && ParseU64(w.attributes[CHECKPOINT_KEY]).None?
    ensures r.Success? ==>
      var o := r.value;
      && StoredCheckpoint(w.attributes).Success?
      && o.floor == Floor(StoredCheckpoint(w.attributes).value)
      && |o.wallet.subaddresses| == |w.subaddresses|
      && (forall a :: 0 <= a < |w.subaddresses| ==>
            o.wallet.subaddresses[a] == Expected(transfers, w.subaddresses, tip, a))
      && o.wallet.attributes == AdvanceCheckpoint(w.attributes, AllPaid(transfers, w.subaddresses, tip), tip)
      && (forall a :: a in o.writes <==>
            0 <= a < |w.subaddresses| && Settles(transfers, w.subaddresses, tip, a)
            && !DecodeLabel(w.subaddresses[a].labelData).isSettled)
      && NoDuplicates(o.writes)
  {
    match StoredCheckpoint(w.attributes)
    case Failure(e) => Failure(e)
    case Success(checkpoint) =>
      var s := ProcessTransfers(w.subaddresses, tip, transfers);
      ProcessTransfersSpec(w.subaddresses, tip, transfers);
      Success(ScanOutcome(
        Wallet(s.subaddresses, AdvanceCheckpoint(w.attributes, s.allPassed, tip)),
        Floor(checkpoint),
        s.writes))
  }

  /**
   * A scan never unsettles an invoice, changes no address, and changes
   * nothing in a decoded invoice except `is_settled`; in particular
   * `amount_settled` is never written.
   */
  lemma ScanOnlySettles(w: Wallet, tip: u64, transfers: seq<Transfer>, a: nat)
    requires IndicesKnown(transfers, |w.subaddresses|) && a < |w.subaddresses|
    requires UpdatePayments(w, tip, transfers).Success?
    ensures var w' := UpdatePayments(w, tip, transfers).value.wallet;
      var before := DecodeLabel(w.subaddresses[a].labelData);
      var after := DecodeLabel(w'.subaddresses[a].labelData);
      && w'.subaddresses[a].address == w.subaddresses[a].address
      && (before.isSettled ==> after.isSettled)
      && after.(isSettled := before.isSettled) == before
      && after.amountSettled == before.amountSettled
  {
    SettledLabelProperties(w.subaddresses[a].labelData);
  }

  /** A transfer that passes settles its invoice, whatever else the window holds. */
  lemma PaidInvoiceSettles(w: Wallet, tip: u64, transfers: seq<Transfer>, i: nat)
    requires IndicesKnown(transfers, |w.subaddresses|) && i < |transfers|
    requires UpdatePayments(w, tip, transfers).Success?
    requires PaidBy(transfers[i], w.subaddresses, tip)
    ensures DecodeLabel(UpdatePayments(w, tip, transfers).value.wallet.subaddresses[transfers[i].subaddrIndex].labelData).isSettled
  {
    var a := transfers[i].subaddrIndex;
    assert Settles(transfers, w.subaddresses, tip, a);
    SettledLabelProperties(w.subaddresses[a].labelData);
  }

  /**
   * One failing transfer holds the checkpoint back: the attributes stay as
   * they were, so the next scan starts from the same floor.
   */
  lemma FailingTransferHoldsCheckpoint(w: Wallet, tip: u64, transfers: seq<Transfer>, i: nat)
    requires IndicesKnown(transfers, |w.subaddresses|) && i < |transfers|
    requires UpdatePayments(w, tip, transfers).Success?
    requires !PaidBy(transfers[i], w.subaddresses, tip)
    ensures UpdatePayments(w, tip, transfers).value.wallet.attributes == w.attributes
  {
  }

  /**
   * When every transfer passes, the checkpoint is written as the tip's
   * decimal text and reads back as the tip, so the next floor is the
   * safety margin below the tip.
   */
  lemma CheckpointAdvanceReadsBack(w: Wallet, tip: u64, transfers: seq<Transfer>)
    requires IndicesKnown(transfers, |w.subaddresses|)
    requires UpdatePayments(w, tip, transfers).Success?
    requires AllPaid(transfers, w.subaddresses, tip)
    ensures var w' := UpdatePayments(w, tip, transfers).value.wallet;
      && StoredCheckpoint(w'.attributes) == Success(Some(tip))
      && Floor(StoredCheckpoint(w'.attributes).value) == SaturatingSub(tip, SAFETY_MARGIN)
  {
    ParseU64Decimal(tip);
  }

  /** Settled sub-addresses carry the same invoice values, so every settle test is unchanged. */
  lemma PaidByAfterScan(w: Wallet, tip: u64, transfers: seq<Transfer>, t: Transfer)
    requires IndicesKnown(transfers, |w.subaddresses|) && t.subaddrIndex < |w.subaddresses|
    requires UpdatePayments(w, tip, transfers).Success?
    ensures PaidBy(t, UpdatePayments(w, tip, transfers).value.wallet.subaddresses, tip) == PaidBy(t, w.subaddresses, tip)
  {
    SettledLabelProperties(w.subaddresses[t.subaddrIndex].labelData);
  }

  /**
   * Scanning the same window again against the same tip changes nothing and
   * writes no label.
   */
  lemma ScanIdempotent(w: Wallet, tip: u64, transfers: seq<Transfer>)
    requires IndicesKnown(transfers, |w.subaddresses|)
    requires UpdatePayments(w, tip, transfers).Success?
    ensures var o := UpdatePayments(w, tip, transfers).value;
      && IndicesKnown(transfers, |o.wallet.subaddresses|)
      && UpdatePayments(o.wallet, tip, transfers).Success?
      && UpdatePayments(o.wallet, tip, transfers).value.wallet == o.wallet
      && UpdatePayments(o.wallet, tip, transfers).value.writes == []
  {
    var o := UpdatePayments(w, tip, transfers).value;
    var subs := w.subaddresses;
    var subs' := o.wallet.subaddresses;
    forall t: Transfer | t.subaddrIndex < |subs| ensures PaidBy(t, subs', tip) == PaidBy(t, subs, tip) {
      PaidByAfterScan(w, tip, transfers, t);
    }
    forall a ensures Settles(transfers, subs', tip, a) == Settles(transfers, subs, tip, a) {
      forall i | 0 <= i < |transfers| ensures PaidBy(transfers[i], subs', tip) == PaidBy(transfers[i], subs, tip) {
        PaidByAfterScan(w, tip, transfers, transfers[i]);
      }
    }
    assert AllPaid(transfers, subs', tip) == AllPaid(transfers, subs, tip);
    if StoredCheckpoint(w.attributes) != Success(None) && AllPaid(transfers, subs, tip) {
      ParseU64Decimal(tip);
    }
    if AllPaid(transfers, subs, tip) {
      ParseU64Decimal(tip);
      assert StoredCheckpoint(o.wallet.attributes) == Success(Some(tip));
    }
    var o2 := UpdatePayments(o.wallet, tip, transfers).value;
    forall a | 0 <= a < |subs'| ensures o2.wallet.subaddresses[a] == subs'[a] {
      SettledLabelProperties(subs[a].labelData);
    }
    assert o2.wallet.subaddresses == subs';
    forall a ensures a !in o2.writes {
      if 0 <= a < |subs'| && Settles(transfers, subs', tip, a) {
        SettledLabelProperties(subs[a].labelData);
      }
    }
    NoMemberMeansEmpty(o2.writes);
  }

  lemma NoMemberMeansEmpty(s: seq<nat>)
    ensures (forall a :: a !in s) ==> s == []
  {
    if s != [] {
      assert s[0] in s;
    }
  }

  lemma SettlesPermutation(ts: seq<Transfer>, ts': seq<Transfer>, subs: seq<Subaddress>, tip: u64, a: nat)
    requires multiset(ts) == multiset(ts') && IndicesKnown(ts, |subs|) && IndicesKnown(ts', |subs|)
    ensures Settles(ts, subs, tip, a) == Settles(ts', subs, tip, a)
  {
    if Settles(ts, subs, tip, a) {
      var i :| 0 <= i < |ts| && ts[i].subaddrIndex == a && PaidBy(ts[i], subs, tip);
      assert ts[i] in multiset(ts');
      var j :| 0 <= j < |ts'| && ts'[j] == ts[i];
    }
    if Settles(ts', subs, tip, a) {
      var j :| 0 <= j < |ts'| && ts'[j].subaddrIndex == a && PaidBy(ts'[j], subs, tip);
      assert ts'[j] in multiset(ts);
      var i :| 0 <= i < |ts| && ts[i] == ts'[j];
    }
  }

  lemma AllPaidPermutation(ts: seq<Transfer>, ts': seq<Transfer>, subs: seq<Subaddress>, tip: u64)
    requires multiset(ts) == multiset(ts') && IndicesKnown(ts, |subs|) && IndicesKnown(ts', |subs|)
    ensures AllPaid(ts, subs, tip) == AllPaid(ts', subs, tip)
  {
    if AllPaid(ts, subs, tip) {
      forall j | 0 <= j < |ts'| ensures PaidBy(ts'[j], subs, tip) {
        assert ts'[j] in multiset(ts);
        var i :| 0 <= i < |ts| && ts[i] == ts'[j];
      }
    }
    if AllPaid(ts', subs, tip) {
      forall i | 0 <= i < |ts| ensures PaidBy(ts[i], subs, tip) {
        assert ts[i] in multiset(ts');
        var j :| 0 <= j < |ts'| && ts'[j] == ts[i];
      }
    }
  }

  /**
   * The order in which the wallet lists the transfers does not matter: the
   * resulting wallet and the set of labels written are the same.
   */
  lemma ScanOrderIndependent(w: Wallet, tip: u64, ts: seq<Transfer>, ts': seq<Transfer>)
    requires multiset(ts) == multiset(ts')
    requires IndicesKnown(ts, |w.subaddresses|) && IndicesKnown(ts', |w.subaddresses|)
    ensures UpdatePayments(w, tip, ts).Success? == UpdatePayments(w, tip, ts').Success?
    ensures UpdatePayments(w, tip, ts).Success? ==>
      && UpdatePayments(w, tip, ts).value.wallet == UpdatePayments(w, tip, ts').value.wallet
      && (forall a :: a in UpdatePayments(w, tip, ts).value.writes <==> a in UpdatePayments(w, tip, ts').value.writes)
  {
    if UpdatePayments(w, tip, ts).Success? {
      var o := UpdatePayments(w, tip, ts).value;
      var o' := UpdatePayments(w, tip, ts').value;
      forall a ensures Settles(ts, w.subaddresses, tip, a) == Settles(ts', w.subaddresses, tip, a) {
        SettlesPermutation(ts, ts', w.subaddresses, tip, a);
      }
      AllPaidPermutation(ts, ts', w.subaddresses, tip);
      forall a | 0 <= a < |w.subaddresses| ensures o.wallet.subaddresses[a] == o'.wallet.subaddresses[a] {
      }
      assert o.wallet.subaddresses == o'.wallet.subaddresses;
    }
  }

  /**
   * A paid transfer to a sub-address whose label is not an invoice turns
   * that label into a settled default invoice.
   */
  lemma MalformedLabelSettlesAsDefault(w: Wallet, tip: u64, transfers: seq<Transfer>, i: nat)
    requires IndicesKnown(transfers, |w.subaddresses|) && i < |transfers|
    requires UpdatePayments(w, tip, transfers).Success?
    requires w.subaddresses[transfers[i].subaddrIndex].labelData.OtherLabel?
    requires Confirmations(transfers[i]) >= RequiredConfirmations(transfers[i], tip)
    ensures UpdatePayments(w, tip, transfers).value.wallet.subaddresses[transfers[i].subaddrIndex].labelData
      == InvoiceLabel(DefaultInvoice().(isSettled := true))
  {
    var a := transfers[i].subaddrIndex;
    assert PaidBy(transfers[i], w.subaddresses, tip);
    assert Settles(transfers, w.subaddresses, tip, a);
  }

  /** An unparsable checkpoint stops the scan before anything is written. */
  lemma UnparsableCheckpointStops(w: Wallet, tip: u64, transfers: seq<Transfer>)
    requires IndicesKnown(transfers, |w.subaddresses|)
    requires CHECKPOINT_KEY in w.attributes && w.attributes[CHECKPOINT_KEY] == "tip"
    ensures UpdatePayments(w, tip, transfers) == Failure(CheckpointUnparsable("tip"))
  {
    assert "tip"[0] == 't';
    assert !IsDigit("tip"[0]);
  }
}
