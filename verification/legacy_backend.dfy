/**
 * The older Monero backend behind the Lightning client interface
 * (`agora-lnd-client/src/monero.rs`). Its labels hold a `MoneroInvoice` as
 * JSON text, lookup searches every label's text for the hex hash, and its
 * settlement scan runs on every lookup over all incoming transfers with a
 * strict amount test and no confirmation rule.
 */
module LegacyBackend {
  import opened Wrappers
  import opened Numeric
  import opened Hex
  import opened InvoiceStore
  import opened Scanner

  datatype MoneroInvoice = MoneroInvoice(
    valueMsat: u64,
    isSettled: bool,
    memo: string,
    paymentHash: string,
    paymentRequest: string)

  /**
   * A label: a stored invoice (its text is `Serialize` of it) or any other
   * text. A label holding a `MoneroInvoice` in JSON laid out differently from
   * `Serialize` (other spacing or field order) is a `Text` here and counts as
   * undecodable, although serde would read it.
   */
  datatype LegacyLabel = Stored(invoice: MoneroInvoice) | Text(text: string)

  datatype LegacySubaddress = LegacySubaddress(address: Bytes, labelData: LegacyLabel)

  /** What lookups return: the invoice with its payment hash decoded to 32 bytes. */
  datatype LightningInvoice = LightningInvoice(
    valueMsat: u64,
    isSettled: bool,
    memo: string,
    paymentHash: Digest,
    paymentRequest: string)

  datatype LightningError = LightningError

  /** The backend does its work only on unix builds; elsewhere every call is an error. */
  datatype Platform = Unix | NonUnix

  /* ---------------------------------------------------------------------- */
  /* Label text (serde_json)                                                 */
  /* ---------------------------------------------------------------------- */

  /** A character serde_json writes into a string as itself. */
  predicate Plain(c: char)
  {
    c != '"' && c != '\\' && c as int >= 0x20
  }

  predicate AllPlain(s: string)
  {
    forall i :: 0 <= i < |s| ==> Plain(s[i])
  }

  /** serde_json's escape of one character inside a string literal. */
  function EscapeChar(c: char): (r: string)
    ensures Plain(c) <==> r == [c]
    ensures |r| >= 1
  {
    if c == '"' then "\\\""
    else if c == '\\' then "\\\\"
    else if c as int == 0x08 then "\\b"
    else if c as int == 0x0c then "\\f"
    else if c == '\n' then "\\n"
    else if c == '\r' then "\\r"
    else if c == '\t' then "\\t"
    else if c as int < 0x20 then "\\u00" + [HexChar(c as int / 16), HexChar(c as int % 16)]
    else [c]
  }

  function Escape(s: string): string
  {
    if s == [] then "" else EscapeChar(s[0]) + Escape(s[1..])
  }

  function BoolText(b: bool): string
  {
    if b then "true" else "false"
  }

  const OPEN_VALUE: string := "{\"value_msat\":"
  const OPEN_SETTLED: string := ",\"is_settled\":"
  const OPEN_MEMO: string := ",\"memo\":\""
  const OPEN_HASH: string := "\",\"payment_hash\":\""
  const OPEN_REQUEST: string := "\",\"payment_request\":\""
  const CLOSE: string := "\"}"

  /** `serde_json::to_string` of a `MoneroInvoice`: fields in declaration order, no spaces. */
  function Serialize(inv: MoneroInvoice): string
  {
    OPEN_VALUE + Decimal(inv.valueMsat)
    + OPEN_SETTLED + BoolText(inv.isSettled)
    + OPEN_MEMO + Escape(inv.memo)
    + OPEN_HASH + Escape(inv.paymentHash)
    + OPEN_REQUEST + Escape(inv.paymentRequest)
    + CLOSE
  }

  function LabelText(l: LegacyLabel): string
  {
    match l
    case Stored(inv) => Serialize(inv)
    case Text(t) => t
  }

  /** `part` occurs in `s` at position `i`. */
  predicate OccursAt(s: string, part: string, i: int)
  {
    0 <= i && i + |part| <= |s| && s[i..i + |part|] == part
  }

  /** `str::contains`. */
  predicate Contains(s: string, part: string)
  {
    exists i :: 0 <= i <= |s| && OccursAt(s, part, i)
  }

  lemma {:induction false} EscapeAppend(a: string, b: string)
    ensures Escape(a + b) == Escape(a) + Escape(b)
  {
    if a != [] {
      assert (a + b)[0] == a[0];
      assert (a + b)[1..] == a[1..] + b;
      EscapeAppend(a[1..], b);
    } else {
      assert a + b == b;
    }
  }

  lemma {:induction false} EscapePlain(s: string)
    requires AllPlain(s)
    ensures Escape(s) == s
  {
    if s != [] {
      EscapePlain(s[1..]);
    }
  }

  lemma LowerHexIsPlain(s: string)
    requires IsLowerHex(s)
    ensures AllPlain(s)
  {
  }

  lemma ContainsMiddle(a: string, part: string, b: string)
    ensures Contains(a + part + b, part)
  {
    assert (a + part + b)[|a|..|a| + |part|] == part;
    assert OccursAt(a + part + b, part, |a|);
  }

  /** Text around a string keeps what the string contains. */
  lemma ContainsFrame(a: string, s: string, b: string, part: string)
    requires Contains(s, part)
    ensures Contains(a + s + b, part)
  {
    var i :| 0 <= i <= |s| && OccursAt(s, part, i);
    assert s == s[..i] + part + s[i + |part|..];
    assert a + s + b == (a + s[..i]) + part + (s[i + |part|..] + b);
    ContainsMiddle(a + s[..i], part, s[i + |part|..] + b);
  }

  /** Plain text inside a string is still there after escaping. */
  lemma ContainsEscaped(s: string, part: string)
    requires Contains(s, part) && AllPlain(part)
    ensures Contains(Escape(s), part)
  {
    var i :| 0 <= i <= |s| && OccursAt(s, part, i);
    var before, after := s[..i], s[i + |part|..];
    assert s == before + part + after;
    EscapeAppend(before + part, after);
    EscapeAppend(before, part);
    EscapePlain(part);
    ContainsMiddle(Escape(before), part, Escape(after));
  }

  /** A stored invoice's label text contains its payment hash when that hash is lower-case hex. */
  lemma SerializedLabelContainsHash(inv: MoneroInvoice)
    requires IsLowerHex(inv.paymentHash)
    ensures Contains(Serialize(inv), inv.paymentHash)
  {
    LowerHexIsPlain(inv.paymentHash);
    EscapePlain(inv.paymentHash);
    var head := OPEN_VALUE + Decimal(inv.valueMsat) + OPEN_SETTLED + BoolText(inv.isSettled)
      + OPEN_MEMO + Escape(inv.memo) + OPEN_HASH;
    var tail := OPEN_REQUEST + Escape(inv.paymentRequest) + CLOSE;
    assert Serialize(inv) == head + inv.paymentHash + tail;
    ContainsMiddle(head, inv.paymentHash, tail);
  }

  lemma SerializeAroundMemo(inv: MoneroInvoice) returns (head: string, tail: string)
    ensures Serialize(inv) == head + Escape(inv.memo) + tail
  {
    head := OPEN_VALUE + Decimal(inv.valueMsat) + OPEN_SETTLED + BoolText(inv.isSettled) + OPEN_MEMO;
    tail := OPEN_HASH + Escape(inv.paymentHash) + OPEN_REQUEST + Escape(inv.paymentRequest) + CLOSE;
    Regroup(head + Escape(inv.memo), OPEN_HASH, Escape(inv.paymentHash), OPEN_REQUEST, Escape(inv.paymentRequest), CLOSE);
  }

  lemma Regroup(p: string, a: string, b: string, c: string, d: string, e: string)
    ensures p + a + b + c + d + e == p + (a + b + c + d + e)
  {
  }

  /** A stored invoice's label text contains any lower-case hex its memo contains. */
  lemma SerializedLabelContainsMemoHex(inv: MoneroInvoice, part: string)
    requires Contains(inv.memo, part) && IsLowerHex(part)
    ensures Contains(Serialize(inv), part)
  {
    LowerHexIsPlain(part);
    ContainsEscaped(inv.memo, part);
    var head, tail := SerializeAroundMemo(inv);
    ContainsFrame(head, Escape(inv.memo), tail, part);
  }

  /* ---------------------------------------------------------------------- */
  /* Decoding a label                                                        */
  /* ---------------------------------------------------------------------- */

  /** The stored payment hash decodes into the 32-byte buffer. */
  predicate Decodable(inv: MoneroInvoice)
  {
    |inv.paymentHash| == 64 && Decode(inv.paymentHash).Some?
  }

  /** A label `From<SubaddressData>` turns into an invoice instead of panicking. */
  predicate LabelDecodable(l: LegacyLabel)
  {
    l.Stored? && Decodable(l.invoice)
  }

  /** `From<SubaddressData> for LightningInvoice`. */
  function ToLightning(inv: MoneroInvoice): (r: LightningInvoice)
    requires Decodable(inv)
    ensures r.valueMsat == inv.valueMsat && r.isSettled == inv.isSettled
    ensures r.memo == inv.memo && r.paymentRequest == inv.paymentRequest
    ensures Some(r.paymentHash) == Decode(inv.paymentHash)
  {
    var bytes := Decode(inv.paymentHash).value;
    LightningInvoice(inv.valueMsat, inv.isSettled, inv.memo, bytes, inv.paymentRequest)
  }

  /* ---------------------------------------------------------------------- */
  /* Settlement scan                                                         */
  /* ---------------------------------------------------------------------- */

  /** The legacy settle test: no double spend seen and strictly more than the value. */
  predicate LegacyPays(t: Transfer, inv: MoneroInvoice)
  {
    !t.doubleSpendSeen && t.amount > inv.valueMsat
  }

  /** Every incoming transfer names a sub-address whose label decodes. */
  predicate UpdateDefined(subs: seq<LegacySubaddress>, ts: seq<Transfer>)
  {
    forall i :: 0 <= i < |ts| && ts[i].category == In ==>
      ts[i].subaddrIndex < |subs| && LabelDecodable(subs[ts[i].subaddrIndex].labelData)
  }

  function SettleLegacy(subs: seq<LegacySubaddress>, a: nat): (r: seq<LegacySubaddress>)
    requires a < |subs| && subs[a].labelData.Stored?
    ensures |r| == |subs|
  {
    subs[a := subs[a].(labelData := Stored(subs[a].labelData.invoice.(isSettled := true)))]
  }

  lemma UpdateDefinedTail(subs: seq<LegacySubaddress>, ts: seq<Transfer>)
    requires |ts| > 0 && UpdateDefined(subs, ts)
    ensures UpdateDefined(subs, ts[1..])
  {
    forall i | 0 <= i < |ts[1..]| && ts[1..][i].category == In
      ensures ts[1..][i].subaddrIndex < |subs| && LabelDecodable(subs[ts[1..][i].subaddrIndex].labelData)
    {
      assert ts[1..][i] == ts[i + 1];
    }
  }

  lemma UpdateDefinedAfterSettle(subs: seq<LegacySubaddress>, ts: seq<Transfer>, a: nat)
    requires UpdateDefined(subs, ts) && a < |subs| && subs[a].labelData.Stored?
    ensures UpdateDefined(SettleLegacy(subs, a), ts)
  {
  }

  /** The labels after the loop and the sub-address indices written, in order. */
  datatype LegacyScan = LegacyScan(subaddresses: seq<LegacySubaddress>, writes: seq<nat>)

  /** `update_payments`: every paying incoming transfer rewrites its label as settled. */
  function LegacyUpdate(subs: seq<LegacySubaddress>, ts: seq<Transfer>): (r: LegacyScan)
    requires UpdateDefined(subs, ts)
    ensures |r.subaddresses| == |subs|
    decreases |ts|
  {
    if ts == [] then LegacyScan(subs, [])
    else
      UpdateDefinedTail(subs, ts);
      var t := ts[0];
      if t.category == In && LegacyPays(t, subs[t.subaddrIndex].labelData.invoice) then
        UpdateDefinedAfterSettle(subs, ts[1..], t.subaddrIndex);
        var rest := LegacyUpdate(SettleLegacy(subs, t.subaddrIndex), ts[1..]);
        rest.(writes := [t.subaddrIndex] + rest.writes)
      else
        LegacyUpdate(subs, ts[1..])
  }

  /**
   * The reference for the scan: the incoming transfers that pay, judged
   * against the labels as they were before the scan.
   */
  function PayingIndices(subs: seq<LegacySubaddress>, ts: seq<Transfer>): (r: seq<nat>)
    requires UpdateDefined(subs, ts)
    ensures forall k :: 0 <= k < |r| ==> r[k] < |subs|
    decreases |ts|
  {
    if ts == [] then []
    else
      UpdateDefinedTail(subs, ts);
      var t := ts[0];
      (if t.category == In && LegacyPays(t, subs[t.subaddrIndex].labelData.invoice) then [t.subaddrIndex] else [])
      + PayingIndices(subs, ts[1..])
  }

  /** Two label sequences that agree on every stored value. */
  predicate SameValues(subs: seq<LegacySubaddress>, subs': seq<LegacySubaddress>)
  {
    && |subs| == |subs'|
    && (forall b :: 0 <= b < |subs| ==> subs[b].labelData.Stored? == subs'[b].labelData.Stored?)
    && (forall b :: 0 <= b < |subs| && subs[b].labelData.Stored? ==>
          subs[b].labelData.invoice.valueMsat == subs'[b].labelData.invoice.valueMsat
          && subs[b].labelData.invoice.paymentHash == subs'[b].labelData.invoice.paymentHash)
  }

  lemma {:induction false} PayingIndicesSameValues(subs: seq<LegacySubaddress>, subs': seq<LegacySubaddress>, ts: seq<Transfer>)
    requires UpdateDefined(subs, ts) && SameValues(subs, subs')
    ensures UpdateDefined(subs', ts)
    ensures PayingIndices(subs', ts) == PayingIndices(subs, ts)
    decreases |ts|
  {
    if ts != [] {
      UpdateDefinedTail(subs, ts);
      PayingIndicesSameValues(subs, subs', ts[1..]);
    }
  }

  /** What the scan leaves at `b`: settled if `b` was paid, else unchanged. */
  function LegacyExpected(subs: seq<LegacySubaddress>, ts: seq<Transfer>, b: nat): LegacySubaddress
    requires UpdateDefined(subs, ts) && b < |subs|
  {
    if b in PayingIndices(subs, ts) && subs[b].labelData.Stored? then
      subs[b].(labelData := Stored(subs[b].labelData.invoice.(isSettled := true)))
    else subs[b]
  }

  /** The scan writes once per paying transfer, in transfer order, settled already or not. */
  lemma {:induction false} LegacyWritesSpec(subs: seq<LegacySubaddress>, ts: seq<Transfer>)
    requires UpdateDefined(subs, ts)
    ensures LegacyUpdate(subs, ts).writes == PayingIndices(subs, ts)
    decreases |ts|
  {
    if ts != [] {
      UpdateDefinedTail(subs, ts);
      var a := ts[0].subaddrIndex;
      if ts[0].category == In && LegacyPays(ts[0], subs[a].labelData.invoice) {
        var subs' := SettleLegacy(subs, a);
        UpdateDefinedAfterSettle(subs, ts[1..], a);
        LegacyWritesSpec(subs', ts[1..]);
        PayingIndicesSameValues(subs, subs', ts[1..]);
      } else {
        LegacyWritesSpec(subs, ts[1..]);
      }
    }
  }

  /** The scan settles exactly the labels some incoming transfer pays and leaves the others. */
  lemma {:induction false} LegacyLabelsSpec(subs: seq<LegacySubaddress>, ts: seq<Transfer>)
    requires UpdateDefined(subs, ts)
    ensures forall b :: 0 <= b < |subs| ==> LegacyUpdate(subs, ts).subaddresses[b] == LegacyExpected(subs, ts, b)
    decreases |ts|
  {
    if ts != [] {
      UpdateDefinedTail(subs, ts);
      var a := ts[0].subaddrIndex;
      var tail := ts[1..];
      if ts[0].category == In && LegacyPays(ts[0], subs[a].labelData.invoice) {
        var subs' := SettleLegacy(subs, a);
        UpdateDefinedAfterSettle(subs, tail, a);
        LegacyLabelsSpec(subs', tail);
        PayingIndicesSameValues(subs, subs', tail);
        assert PayingIndices(subs, ts) == [a] + PayingIndices(subs, tail);
        forall b | 0 <= b < |subs| ensures LegacyUpdate(subs, ts).subaddresses[b] == LegacyExpected(subs, ts, b) {
          assert LegacyUpdate(subs, ts).subaddresses[b] == LegacyExpected(subs', tail, b);
        }
      } else {
        LegacyLabelsSpec(subs, tail);
        assert PayingIndices(subs, ts) == PayingIndices(subs, tail);
        forall b | 0 <= b < |subs| ensures LegacyUpdate(subs, ts).subaddresses[b] == LegacyExpected(subs, ts, b) {
          assert LegacyUpdate(subs, ts).subaddresses[b] == LegacyExpected(subs, tail, b);
        }
      }
    }
  }

  /**
   * The scan settles exactly the labels some incoming transfer pays and
   * writes once per paying transfer, in transfer order, whether or not the
   * label was settled already.
   */
  lemma LegacyUpdateSpec(subs: seq<LegacySubaddress>, ts: seq<Transfer>)
    requires UpdateDefined(subs, ts)
    ensures var r := LegacyUpdate(subs, ts);
      && r.writes == PayingIndices(subs, ts)
      && (forall b :: 0 <= b < |subs| ==> r.subaddresses[b] == LegacyExpected(subs, ts, b))
  {
    LegacyWritesSpec(subs, ts);
    LegacyLabelsSpec(subs, ts);
  }

  /**
   * Scanning again leaves the labels as they are but writes every paying
   * transfer's label again: the legacy scan is idempotent in state, not in
   * writes.
   */
  lemma LegacyRewritesEveryPass(subs: seq<LegacySubaddress>, ts: seq<Transfer>)
    requires UpdateDefined(subs, ts)
    ensures var r := LegacyUpdate(subs, ts);
      && UpdateDefined(r.subaddresses, ts)
      && LegacyUpdate(r.subaddresses, ts) == r
  {
    var r := LegacyUpdate(subs, ts);
    LegacyUpdateSpec(subs, ts);
    assert SameValues(subs, r.subaddresses);
    PayingIndicesSameValues(subs, r.subaddresses, ts);
    LegacyUpdateSpec(r.subaddresses, ts);
    var r2 := LegacyUpdate(r.subaddresses, ts);
    forall b | 0 <= b < |subs| ensures r2.subaddresses[b] == r.subaddresses[b] {
    }
    assert r2.subaddresses == r.subaddresses;
  }

  /** A payment of exactly the invoice's value, or one flagged as a double spend, settles nothing. */
  lemma LegacyStrictAmount(t: Transfer, inv: MoneroInvoice)
    ensures t.amount == inv.valueMsat ==> !LegacyPays(t, inv)
    ensures t.doubleSpendSeen ==> !LegacyPays(t, inv)
    ensures !t.doubleSpendSeen && t.amount == inv.valueMsat + 1 ==> LegacyPays(t, inv)
  {
  }

  /** Transfers that are not incoming are not requested, so they settle nothing. */
  lemma OutgoingSettlesNothing(subs: seq<LegacySubaddress>, ts: seq<Transfer>)
    requires UpdateDefined(subs, ts)
    requires forall i :: 0 <= i < |ts| ==> ts[i].category != In
    ensures LegacyUpdate(subs, ts) == LegacyScan(subs, [])
  {
    LegacyUpdateSpec(subs, ts);
    assert PayingIndices(subs, ts) == [] by {
      NoInPaysNothing(subs, ts);
    }
    var r := LegacyUpdate(subs, ts);
    forall b | 0 <= b < |subs| ensures r.subaddresses[b] == subs[b] {
    }
    assert r.subaddresses == subs;
  }

  lemma {:induction false} NoInPaysNothing(subs: seq<LegacySubaddress>, ts: seq<Transfer>)
    requires UpdateDefined(subs, ts)
    requires forall i :: 0 <= i < |ts| ==> ts[i].category != In
    ensures PayingIndices(subs, ts) == []
    decreases |ts|
  {
    if ts != [] {
      UpdateDefinedTail(subs, ts);
      assert forall i :: 0 <= i < |ts[1..]| ==> ts[1..][i] == ts[i + 1];
      NoInPaysNothing(subs, ts[1..]);
    }
  }

  /* ---------------------------------------------------------------------- */
  /* Lookup                                                                  */
  /* ---------------------------------------------------------------------- */

  /** The first sub-address whose label text contains `part`. */
  function FirstContaining(subs: seq<LegacySubaddress>, part: string): (r: Option<nat>)
    ensures r.Some? ==> r.value < |subs| && Contains(LabelText(subs[r.value].labelData), part)
    ensures r.Some? ==> forall j :: 0 <= j < r.value ==> !Contains(LabelText(subs[j].labelData), part)
    ensures r.None? ==> forall j :: 0 <= j < |subs| ==> !Contains(LabelText(subs[j].labelData), part)
  {
    if subs == [] then None
    else if Contains(LabelText(subs[0].labelData), part) then Some(0)
    else
      match FirstContaining(subs[1..], part)
      case None => None
      case Some(i) => Some(i + 1)
  }

  /** Where the source would panic during a lookup: an undecodable first match, or a scan that panics. */
  predicate LookupDefined(subs: seq<LegacySubaddress>, rHash: Digest, incoming: seq<Transfer>)
  {
    match FirstContaining(subs, Encode(rHash))
    case None => true
    case Some(j) => LabelDecodable(subs[j].labelData) && UpdateDefined(subs, incoming)
  }

  datatype LookupOutcome = LookupOutcome(subaddresses: seq<LegacySubaddress>, result: Result<Option<LightningInvoice>, LightningError>)

  /**
   * `lookup_invoice`: the first label containing the hex of `r_hash` is
   * decoded, then the settlement scan runs over `incoming`; the invoice as
   * read before the scan is returned.
   */
  function LegacyLookup(platform: Platform, subs: seq<LegacySubaddress>, rHash: Digest, incoming: seq<Transfer>): (r: LookupOutcome)
    requires platform == Unix ==> LookupDefined(subs, rHash, incoming)
    ensures platform == NonUnix ==> r == LookupOutcome(subs, Failure(LightningError))
    ensures r.result.Success? ==> r.result.value.Some?
    ensures r.result.Failure? ==> r.subaddresses == subs
    ensures platform == Unix ==>
      (r.result.Success? <==> exists j :: 0 <= j < |subs| && Contains(LabelText(subs[j].labelData), Encode(rHash)))
    ensures r.result.Success? ==>
      exists j :: 0 <= j < |subs| && Contains(LabelText(subs[j].labelData), Encode(rHash))
        && LabelDecodable(subs[j].labelData)
        && r.result.value.value == ToLightning(subs[j].labelData.invoice)
    ensures platform == Unix && r.result.Success? ==>
      && FirstContaining(subs, Encode(rHash)).Some?
      && var k := FirstContaining(subs, Encode(rHash)).value;
      && r.result.value.value == ToLightning(subs[k].labelData.invoice)
      && r.subaddresses == LegacyUpdate(subs, incoming).subaddresses
  {
    if platform == NonUnix then LookupOutcome(subs, Failure(LightningError))
    else
      match FirstContaining(subs, Encode(rHash))
      case None => LookupOutcome(subs, Failure(LightningError))
      case Some(j) =>
        var found := ToLightning(subs[j].labelData.invoice);
        LookupOutcome(LegacyUpdate(subs, incoming).subaddresses, Success(Some(found)))
  }

  /**
   * The hash of a later invoice that an earlier invoice's memo contains is
   * answered with the earlier (or an even earlier) label, never the later
   * one it names.
   */
  lemma MemoShadowsLaterInvoice(subs: seq<LegacySubaddress>, rHash: Digest, incoming: seq<Transfer>, k: nat)
    requires k < |subs| && subs[k].labelData.Stored?
    requires Contains(subs[k].labelData.invoice.memo, Encode(rHash))
    requires LookupDefined(subs, rHash, incoming)
    ensures FirstContaining(subs, Encode(rHash)).Some?
    ensures FirstContaining(subs, Encode(rHash)).value <= k
    ensures LegacyLookup(Unix, subs, rHash, incoming).result
      == Success(Some(ToLightning(subs[FirstContaining(subs, Encode(rHash)).value].labelData.invoice)))
  {
    SerializedLabelContainsMemoHex(subs[k].labelData.invoice, Encode(rHash));
  }

  /**
   * The lookup reports the settlement state from before its own scan: an
   * unsettled invoice paid by an incoming transfer is returned unsettled
   * while its label is settled by the same call.
   */
  lemma LookupReportsStateBeforeScan(subs: seq<LegacySubaddress>, rHash: Digest, incoming: seq<Transfer>, i: nat)
    requires LookupDefined(subs, rHash, incoming)
    requires FirstContaining(subs, Encode(rHash)).Some?
    requires !subs[FirstContaining(subs, Encode(rHash)).value].labelData.invoice.isSettled
    requires i < |incoming| && incoming[i].category == In
    requires incoming[i].subaddrIndex == FirstContaining(subs, Encode(rHash)).value
    requires LegacyPays(incoming[i], subs[incoming[i].subaddrIndex].labelData.invoice)
    ensures var r := LegacyLookup(Unix, subs, rHash, incoming);
      && r.result.Success? && !r.result.value.value.isSettled
      && r.subaddresses[incoming[i].subaddrIndex].labelData.Stored?
      && r.subaddresses[incoming[i].subaddrIndex].labelData.invoice.isSettled
  {
    var b := incoming[i].subaddrIndex;
    LegacyUpdateSpec(subs, incoming);
    PayingIndicesMember(subs, incoming, i);
    var after := LegacyUpdate(subs, incoming).subaddresses;
    assert after[b] == LegacyExpected(subs, incoming, b);
    assert after[b].labelData.Stored? && after[b].labelData.invoice.isSettled;
    var j := FirstContaining(subs, Encode(rHash)).value;
    assert LegacyLookup(Unix, subs, rHash, incoming)
      == LookupOutcome(after, Success(Some(ToLightning(subs[j].labelData.invoice))));
  }

  lemma {:induction false} PayingIndicesMember(subs: seq<LegacySubaddress>, ts: seq<Transfer>, i: nat)
    requires UpdateDefined(subs, ts) && i < |ts| && ts[i].category == In
    requires LegacyPays(ts[i], subs[ts[i].subaddrIndex].labelData.invoice)
    ensures ts[i].subaddrIndex in PayingIndices(subs, ts)
    decreases |ts|
  {
    UpdateDefinedTail(subs, ts);
    if i > 0 {
      assert ts[1..][i - 1] == ts[i];
      PayingIndicesMember(subs, ts[1..], i - 1);
    }
  }

  /* ---------------------------------------------------------------------- */
  /* Adding an invoice                                                       */
  /* ---------------------------------------------------------------------- */

  /** Outcomes of `get_height`, `create_address` (with the address created) and `label_address`. */
  datatype LegacyAddCalls = LegacyAddCalls(heightOk: bool, createOk: bool, freshAddress: Bytes, labelOk: bool)

  datatype LegacyAddOutcome = LegacyAddOutcome(subaddresses: seq<LegacySubaddress>, result: Result<Digest, LightningError>)

  /** The URI of the legacy backend: the amount is the raw number, not XMR text. */
  function LegacyPaymentRequest(ext: Externals, address: Bytes, valueMsat: u64, memo: string): string
  {
    "monero:" + ext.base58(address) + "?tx_amount=" + Decimal(valueMsat) + "&tx_description=" + memo
  }

  function LegacyPreliminary(memo: string, valueMsat: u64): MoneroInvoice
  {
    MoneroInvoice(valueMsat, false, memo, "", "")
  }

  function LegacyFinal(ext: Externals, address: Bytes, memo: string, valueMsat: u64): (inv: MoneroInvoice)
    ensures Decodable(inv) && Decode(inv.paymentHash) == Some(ext.sha256(address))
    ensures inv.valueMsat == valueMsat && inv.memo == memo && !inv.isSettled
  {
    DecodeEncode(ext.sha256(address));
    MoneroInvoice(valueMsat, false, memo, Encode(ext.sha256(address)), LegacyPaymentRequest(ext, address, valueMsat, memo))
  }

  /**
   * `add_invoice`: a fresh sub-address with a preliminary label, then the
   * final label; the response is the raw SHA-256 of the address. No
   * attribute is written.
   */
  function LegacyAdd(platform: Platform, ext: Externals, calls: LegacyAddCalls, subs: seq<LegacySubaddress>,
                     memo: string, valueMsat: u64): (r: LegacyAddOutcome)
    ensures platform == NonUnix ==> r == LegacyAddOutcome(subs, Failure(LightningError))
    ensures r.result.Success? ==> platform == Unix && calls.heightOk && calls.createOk && calls.labelOk
    ensures platform == Unix && calls.heightOk && calls.createOk && calls.labelOk ==> r.result.Success?
    ensures |subs| <= |r.subaddresses| <= |subs| + 1 && r.subaddresses[..|subs|] == subs
    ensures r.result.Success? ==>
      && r.result.value == ext.sha256(calls.freshAddress)
      && r.subaddresses == subs + [LegacySubaddress(calls.freshAddress, Stored(LegacyFinal(ext, calls.freshAddress, memo, valueMsat)))]
    ensures platform == Unix && calls.heightOk && calls.createOk && !calls.labelOk ==>
      r.subaddresses == subs + [LegacySubaddress(calls.freshAddress, Stored(LegacyPreliminary(memo, valueMsat)))]
  {
    if platform != Unix || !calls.heightOk || !calls.createOk then LegacyAddOutcome(subs, Failure(LightningError))
    else
      var address := calls.freshAddress;
      var created := subs + [LegacySubaddress(address, Stored(LegacyPreliminary(memo, valueMsat)))];
      if !calls.labelOk then LegacyAddOutcome(created, Failure(LightningError))
      else
        var final := LegacySubaddress(address, Stored(LegacyFinal(ext, address, memo, valueMsat)));
        var labelled := created[|subs| := final];
        assert labelled == subs + [final];
        LegacyAddOutcome(labelled, Success(ext.sha256(address)))
  }

  /** `ping`: the wallet answers `get_height`; never on non-unix builds. */
  function LegacyPing(platform: Platform, heightOk: bool): (r: Result<(), LightningError>)
    ensures r.Success? <==> platform == Unix && heightOk
  {
    if platform == Unix && heightOk then Success(()) else Failure(LightningError)
  }

  /**
   * The digest `add_invoice` returns finds the invoice it created, as long
   * as no earlier label text contains its hex: the lookup answers with the
   * invoice's value and memo, unsettled, and the same digest.
   */
  lemma LegacyAddThenLookup(ext: Externals, calls: LegacyAddCalls, subs: seq<LegacySubaddress>,
                            memo: string, valueMsat: u64, incoming: seq<Transfer>)
    requires LegacyAdd(Unix, ext, calls, subs, memo, valueMsat).result.Success?
    requires forall j :: 0 <= j < |subs| ==> !Contains(LabelText(subs[j].labelData), Encode(ext.sha256(calls.freshAddress)))
    requires UpdateDefined(LegacyAdd(Unix, ext, calls, subs, memo, valueMsat).subaddresses, incoming)
    ensures var o := LegacyAdd(Unix, ext, calls, subs, memo, valueMsat);
      && LookupDefined(o.subaddresses, o.result.value, incoming)
      && LegacyLookup(Unix, o.subaddresses, o.result.value, incoming).result
         == Success(Some(LightningInvoice(valueMsat, false, memo, o.result.value,
                                          LegacyPaymentRequest(ext, calls.freshAddress, valueMsat, memo))))
  {
    var o := LegacyAdd(Unix, ext, calls, subs, memo, valueMsat);
    var inv := LegacyFinal(ext, calls.freshAddress, memo, valueMsat);
    var hex := Encode(ext.sha256(calls.freshAddress));
    SerializedLabelContainsHash(inv);
    FirstContainingAppend(subs, o.subaddresses[|subs|], hex);
    assert o.subaddresses == subs + [o.subaddresses[|subs|]];
  }

  lemma {:induction false} FirstContainingAppend(subs: seq<LegacySubaddress>, x: LegacySubaddress, part: string)
    requires forall j :: 0 <= j < |subs| ==> !Contains(LabelText(subs[j].labelData), part)
    requires Contains(LabelText(x.labelData), part)
    ensures FirstContaining(subs + [x], part) == Some(|subs|)
  {
    if subs != [] {
      assert (subs + [x])[1..] == subs[1..] + [x];
      FirstContainingAppend(subs[1..], x, part);
    }
  }
}
