/**
 * The invoice record of the Monero backend and the wallet state it lives in.
 *
 * The wallet has no invoice object: an invoice is the label of a sub-address,
 * holding the invoice serialised as JSON, and a global key/value attribute
 * `inv_<payment hash>` leads from the payment hash to the sub-address.
 */
module Invoice {
  import opened Numeric
  import opened Hex

  /** `OpuzaInvoice`. */
  datatype OpuzaInvoice = OpuzaInvoice(
    value: u64,
    amountSettled: u64,
    isSettled: bool,
    memo: string,
    paymentHash: string,
    paymentRequest: string)

  /** `OpuzaInvoice::default()`: zero amounts, not settled, empty strings. */
  function DefaultInvoice(): (inv: OpuzaInvoice)
    ensures inv.value == 0 && inv.amountSettled == 0 && !inv.isSettled
    ensures inv.memo == [] && inv.paymentHash == [] && inv.paymentRequest == []
  {
    OpuzaInvoice(0, 0, false, "", "", "")
  }

  /**
   * A sub-address label. JSON serialisation is not modelled character by
   * character: `InvoiceLabel(inv)` is the label `serde_json::to_string(&inv)`
   * writes, and `OtherLabel(text)` is any text that does not deserialise as an
   * `OpuzaInvoice` (the primary address's label, an empty label, corrupt JSON).
   */
  datatype Label = InvoiceLabel(invoice: OpuzaInvoice) | OtherLabel(text: string)

  /** `From<SubaddressData> for OpuzaInvoice`: a label that does not parse gives the default invoice. */
  function DecodeLabel(l: Label): (inv: OpuzaInvoice)
    ensures l.InvoiceLabel? ==> inv == l.invoice
    ensures l.OtherLabel? ==> inv == DefaultInvoice()
  {
    match l
    case InvoiceLabel(inv) => inv
    case OtherLabel(_) => DefaultInvoice()
  }

  /** The serialised invoice `label` with `is_settled` set: what the scanner writes back. */
  function SettledLabel(l: Label): Label
  {
    InvoiceLabel(DecodeLabel(l).(isSettled := true))
  }

  /**
   * Marking settled keeps every field but `is_settled`, and is idempotent: a
   * label whose invoice is already settled is left as it is.
   */
  lemma SettledLabelProperties(l: Label)
    ensures DecodeLabel(SettledLabel(l)).isSettled
    ensures DecodeLabel(SettledLabel(l)) == DecodeLabel(l).(isSettled := true)
    ensures DecodeLabel(SettledLabel(l)).value == DecodeLabel(l).value
    ensures SettledLabel(SettledLabel(l)) == SettledLabel(l)
    ensures DecodeLabel(l).isSettled ==> SettledLabel(l) == l
  {
  }

  /** A sub-address of account 0: its address bytes and its label. */
  datatype Subaddress = Subaddress(address: Bytes, labelData: Label)

  /**
   * The wallet state the backend reads and writes over RPC: the sub-addresses
   * of account 0, indexed by their minor index, and the global attributes.
   */
  datatype Wallet = Wallet(subaddresses: seq<Subaddress>, attributes: map<string, string>)

  /** The attribute holding the scan checkpoint. */
  const CHECKPOINT_KEY: string := "block_height"

  /** The attribute prefix of the payment-hash index. */
  const INVOICE_KEY_PREFIX: string := "inv_"

  function InvoiceKey(paymentHash: string): string
  {
    INVOICE_KEY_PREFIX + paymentHash
  }
}
