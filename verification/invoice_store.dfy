/**
 * Creating and finding invoices in the Monero backend (`add_invoice`,
 * `lookup_invoice`, `From<Address>`). Each invoice is a fresh sub-address of
 * account 0 whose label holds the invoice; the payment hash is the hex of the
 * SHA-256 of the address bytes, and an attribute `inv_<hash>` maps the hash
 * back to the address.
 */
module InvoiceStore {
  import opened Wrappers
  import opened Numeric
  import opened Hex
  import opened Invoice
  import opened Piconero

  /**
   * Computations the backend takes from libraries: SHA-256 of the address
   * bytes, the address's base58 text, and the `as_xmr` amount text.
   */
  datatype Externals = Externals(
    sha256: Bytes -> Digest,
    base58: Bytes -> string,
    xmrText: u64 -> string)

  /** `OpuzaRpcError`: some wallet RPC call failed. */
  datatype RpcError = RpcError

  /**
   * The outcomes of the wallet RPC calls `add_invoice` makes, in order:
   * `get_height`, `create_address` (which yields the address it created),
   * `set_attribute`, `label_address`.
   */
  datatype AddCalls = AddCalls(
    heightOk: bool,
    createOk: bool,
    freshAddress: Bytes,
    setAttributeOk: bool,
    labelOk: bool)

  datatype AddResponse = AddResponse(paymentHash: string)

  datatype AddOutcome = AddOutcome(wallet: Wallet, response: Result<AddResponse, RpcError>)

  /** `From<Address>`: the payment hash of an address, 64 lower-case hex digits naming its digest. */
  function PaymentHash(ext: Externals, address: Bytes): (h: string)
    ensures |h| == 64 && IsLowerHex(h)
    ensures Decode(h) == Some(ext.sha256(address))
  {
    DecodeEncode(ext.sha256(address));
    Encode(ext.sha256(address))
  }

  /** A distinct digest gives a distinct payment hash, and so a distinct attribute key. */
  lemma PaymentHashKeysDistinct(ext: Externals, a: Bytes, b: Bytes)
    requires ext.sha256(a) != ext.sha256(b)
    ensures PaymentHash(ext, a) != PaymentHash(ext, b)
    ensures InvoiceKey(PaymentHash(ext, a)) != InvoiceKey(PaymentHash(ext, b))
  {
    var ha := PaymentHash(ext, a);
    var hb := PaymentHash(ext, b);
    assert ha == InvoiceKey(ha)[|INVOICE_KEY_PREFIX|..];
    assert hb == InvoiceKey(hb)[|INVOICE_KEY_PREFIX|..];
  }

  /** The payment URI: `monero:<address>?tx_amount=<xmr>&tx_description=<memo>`. */
  function PaymentRequest(ext: Externals, address: Bytes, value: u64, memo: string): string
  {
    "monero:" + ext.base58(address) + "?tx_amount=" + ext.xmrText(value) + "&tx_description=" + memo
  }

  /** The label `create_address` stores: a new invoice with only value and memo filled in. */
  function PreliminaryInvoice(memo: string, value: Piconero): (inv: OpuzaInvoice)
    ensures inv.value == value.value && inv.memo == memo
    ensures !inv.isSettled && inv.amountSettled == 0 && inv.paymentHash == [] && inv.paymentRequest == []
  {
    DefaultInvoice().(value := value.value, memo := memo)
  }

  /** The invoice the final label holds. */
  function FinalInvoice(ext: Externals, address: Bytes, memo: string, value: Piconero): (inv: OpuzaInvoice)
    ensures inv.value == value.value && inv.memo == memo && !inv.isSettled && inv.amountSettled == 0
    ensures inv.paymentHash == PaymentHash(ext, address)
    ensures inv.paymentRequest == PaymentRequest(ext, address, value.value, memo)
  {
    PreliminaryInvoice(memo, value).(
      paymentHash := PaymentHash(ext, address),
      paymentRequest := PaymentRequest(ext, address, value.value, memo))
  }

  /**
   * `add_invoice`. A failing call stops the operation but keeps what earlier
   * calls did: a failing `set_attribute` leaves the new sub-address with its
   * preliminary label, a failing `label_address` leaves the attribute too.
   */
  function AddInvoice(ext: Externals, calls: AddCalls, w: Wallet, memo: string, value: Piconero): (r: AddOutcome)
    ensures r.response.Success? <==>
      calls.heightOk && calls.createOk && calls.setAttributeOk && calls.labelOk
    ensures !calls.heightOk || !calls.createOk ==> r.wallet == w
    ensures |w.subaddresses| <= |r.wallet.subaddresses| <= |w.subaddresses| + 1
    ensures r.wallet.subaddresses[..|w.subaddresses|] == w.subaddresses
    ensures calls.heightOk && calls.createOk ==>
      |r.wallet.subaddresses| == |w.subaddresses| + 1
      && r.wallet.subaddresses[|w.subaddresses|].address == calls.freshAddress
    ensures calls.heightOk && calls.createOk && !calls.labelOk ==>
      r.wallet.subaddresses[|w.subaddresses|].labelData == InvoiceLabel(PreliminaryInvoice(memo, value))
    ensures calls.heightOk && calls.createOk && !calls.setAttributeOk ==> r.wallet.attributes == w.attributes
    ensures calls.heightOk && calls.createOk && calls.setAttributeOk ==>
      r.wallet.attributes == w.attributes[InvoiceKey(PaymentHash(ext, calls.freshAddress)) := Encode(calls.freshAddress)]
    ensures r.response.Success? ==>
      var hash := PaymentHash(ext, calls.freshAddress);
      && r.response.value.paymentHash == hash
      && r.wallet.attributes == w.attributes[InvoiceKey(hash) := Encode(calls.freshAddress)]
      && r.wallet.subaddresses[|w.subaddresses|].labelData
         == InvoiceLabel(FinalInvoice(ext, calls.freshAddress, memo, value))
  {
    if !calls.heightOk || !calls.createOk then AddOutcome(w, Failure(RpcError))
    else
      var address := calls.freshAddress;
      var created := w.(subaddresses := w.subaddresses + [Subaddress(address, InvoiceLabel(PreliminaryInvoice(memo, value)))]);
      if !calls.setAttributeOk then AddOutcome(created, Failure(RpcError))
      else
        var hash := PaymentHash(ext, address);
        var attributed := created.(attributes := created.attributes[InvoiceKey(hash) := Encode(address)]);
        if !calls.labelOk then AddOutcome(attributed, Failure(RpcError))
        else
          var index := |w.subaddresses|;
          var labelled := attributed.(subaddresses :=
            attributed.subaddresses[index := Subaddress(address, InvoiceLabel(FinalInvoice(ext, address, memo, value)))]);
          AddOutcome(labelled, Success(AddResponse(hash)))
  }

  /** The index `get_address_index` reports for an address: its first occurrence. */
  function FindAddress(subs: seq<Subaddress>, address: Bytes): (r: Option<nat>)
    ensures r.Some? ==> r.value < |subs| && subs[r.value].address == address
    ensures r.Some? ==> forall j :: 0 <= j < r.value ==> subs[j].address != address
    ensures r.None? ==> forall j :: 0 <= j < |subs| ==> subs[j].address != address
  {
    if subs == [] then None
    else if subs[0].address == address then Some(0)
    else
      match FindAddress(subs[1..], address)
      case None => None
      case Some(i) => Some(i + 1)
  }

  /** Appending a sub-address does not change where an address already present is found. */
  lemma {:induction false} FindAddressAppend(subs: seq<Subaddress>, x: Subaddress, address: Bytes)
    ensures FindAddress(subs + [x], address) ==
      if FindAddress(subs, address).Some? then FindAddress(subs, address)
      else if x.address == address then Some(|subs|)
      else None
  {
    if subs != [] {
      assert (subs + [x])[1..] == subs[1..] + [x];
      FindAddressAppend(subs[1..], x, address);
    }
  }

  /**
   * `lookup_invoice`: the attribute `inv_<hex of r_hash>` names the address,
   * whose label is decoded. `reachable` is whether the wallet RPC answers.
   * A found invoice is always returned as `Some`; every miss is an error.
   */
  function LookupInvoice(w: Wallet, rHash: Digest, reachable: bool): (r: Result<Option<OpuzaInvoice>, RpcError>)
    ensures r.Success? ==> r.value.Some?
    ensures r.Success? <==>
      && reachable
      && InvoiceKey(Encode(rHash)) in w.attributes
      && Decode(w.attributes[InvoiceKey(Encode(rHash))]).Some?
      && exists j :: 0 <= j < |w.subaddresses|
           && w.subaddresses[j].address == Decode(w.attributes[InvoiceKey(Encode(rHash))]).value
    ensures r.Success? ==>
      exists j :: 0 <= j < |w.subaddresses|
        && w.subaddresses[j].address == Decode(w.attributes[InvoiceKey(Encode(rHash))]).value
        && (forall i :: 0 <= i < j ==> w.subaddresses[i].address != w.subaddresses[j].address)
        && r.value.value == DecodeLabel(w.subaddresses[j].labelData)
  {
    var key := InvoiceKey(Encode(rHash));
    if !reachable || key !in w.attributes then Failure(RpcError)
    else
      match Decode(w.attributes[key])
      case None => Failure(RpcError)
      case Some(address) =>
        match FindAddress(w.subaddresses, address)
        case None => Failure(RpcError)
        case Some(j) => Success(Some(DecodeLabel(w.subaddresses[j].labelData)))
  }

  /**
   * An invoice added successfully with a fresh address is found again by
   * the digest its payment hash names, unsettled and with the value and memo
   * it was created with.
   */
  lemma AddThenLookup(ext: Externals, calls: AddCalls, w: Wallet, memo: string, value: Piconero)
    requires AddInvoice(ext, calls, w, memo, value).response.Success?
    requires forall j :: 0 <= j < |w.subaddresses| ==> w.subaddresses[j].address != calls.freshAddress
    ensures var o := AddInvoice(ext, calls, w, memo, value);
      && Decode(o.response.value.paymentHash) == Some(ext.sha256(calls.freshAddress))
      && LookupInvoice(o.wallet, ext.sha256(calls.freshAddress), true)
         == Success(Some(FinalInvoice(ext, calls.freshAddress, memo, value)))
  {
    var o := AddInvoice(ext, calls, w, memo, value);
    var address := calls.freshAddress;
    DecodeEncode(address);
    var n := |w.subaddresses|;
    assert o.wallet.subaddresses[n].address == address;
    FindAddressAppend(w.subaddresses, o.wallet.subaddresses[n], address);
    assert o.wallet.subaddresses == w.subaddresses + [o.wallet.subaddresses[n]];
  }

  /**
   * Adding an invoice under a fresh address leaves every earlier lookup
   * with a different attribute key as it was.
   */
  lemma AddKeepsOtherLookups(ext: Externals, calls: AddCalls, w: Wallet, memo: string, value: Piconero, rHash: Digest)
    requires forall j :: 0 <= j < |w.subaddresses| ==> w.subaddresses[j].address != calls.freshAddress
    requires InvoiceKey(Encode(rHash)) != InvoiceKey(PaymentHash(ext, calls.freshAddress))
    requires LookupInvoice(w, rHash, true).Success?
    ensures LookupInvoice(AddInvoice(ext, calls, w, memo, value).wallet, rHash, true) == LookupInvoice(w, rHash, true)
  {
    var o := AddInvoice(ext, calls, w, memo, value);
    var key := InvoiceKey(Encode(rHash));
    assert key in w.attributes;
    assert o.wallet.attributes[key] == w.attributes[key];
    var address := Decode(w.attributes[key]).value;
    var i := FindAddress(w.subaddresses, address).value;
    assert address != calls.freshAddress;
    var n := |w.subaddresses|;
    if |o.wallet.subaddresses| > n {
      FindAddressAppend(w.subaddresses, o.wallet.subaddresses[n], address);
      assert o.wallet.subaddresses == w.subaddresses + [o.wallet.subaddresses[n]];
    }
  }

  /** A hash never handed out has no attribute, so looking it up is an error, not `Ok(None)`. */
  lemma UnknownHashIsError(w: Wallet, rHash: Digest, reachable: bool)
    requires InvoiceKey(Encode(rHash)) !in w.attributes
    ensures LookupInvoice(w, rHash, reachable) == Failure(RpcError)
  {
  }
}
