# Opuza Monero backend — a Dafny model

Opuza sells files for cryptocurrency. With its Monero backend, an invoice is
a fresh sub-address of the wallet's account 0:

- the sub-address label holds the invoice as JSON;
- a wallet attribute `inv_<payment hash>` maps the payment hash back to the address;
- a background listener polls the wallet and marks invoices settled once a
  sufficiently confirmed transfer of at least the invoice's value arrives.

This project models that core as pure functions over immutable data:

| file | module | what it models |
|---|---|---|
| `wrappers.dfy` | `Wrappers` | `Option` and `Result` |
| `numeric.dfy` | `Numeric` | `u64` with explicit wrapping and saturating arithmetic; decimal text (`to_string`, `u64::from_str`); zero padding |
| `hex.dfy` | `Hex` | bytes, 32-byte digests, and the `hex` crate's `encode` and `decode` |
| `invoice.dfy` | `Invoice` | `OpuzaInvoice`, its default, sub-address labels, the wallet state, the attribute keys |
| `piconero.dfy` | `Piconero` | the `Piconero` amount: constructor, `ONE_XMR`, `Display` (comma-grouped XMR, trimmed 12-digit fraction, ` XMR` suffix), and the `^\d+(\.\d+)? XMR$` parser with exact decimal arithmetic |
| `float_route.dfy` | `FloatRoute` | the parser's binary64 arithmetic as written (`parse::<f64>`, the multiplication by `1e12`, `as u64`) and an amount it loses a piconero on |
| `scanner.dfy` | `Scanner` | the settlement scan `update_payments`: confirmation rules, settle test, scan floor, checkpoint holdback |
| `invoice_store.dfy` | `InvoiceStore` | `add_invoice`, `lookup_invoice` and `From<Address>` |
| `legacy_backend.dfy` | `LegacyBackend` | the older backend behind the Lightning client interface: JSON labels found by substring, a strict settle test, a scan on every lookup, non-unix stubs |
| `listener.dfy` | `Listener` | `setup_rpc_client`, the listener built by `Server::setup`, and the polling loop `TransactionListener::run` |
| `prerelease.dfy` | `Prerelease` | the release-tag recogniser of `bin/prerelease` and the line it prints |

Wallet RPC calls are not executed. Their effects are reads and writes of a
`Wallet` value (sub-addresses and attributes). For the Opuza client, whether
each call succeeds is a boolean parameter, and the transfers and the chain tip
are parameters too; the legacy backend unwraps its calls, and the model
assumes the wallet answers them.
SHA-256, the base58 address text and the floating-point `as_xmr` text are
fields of an `Externals` value (`InvoiceStore.Externals`).

Where the code and its documentation disagree, the model follows the code:

- `amount_settled` is never written by any scan.
- Displaying an amount and parsing the text back fails for every amount of 1,000 XMR or more, because the display carries a comma the parser refuses. Below 1,000 XMR the round trip holds only with exact decimal arithmetic; the code's `f64` route loses a piconero on some amounts (see Findings).
- The scan floor is written as plain `u64` subtraction, so it wraps below a checkpoint of 10. This is modelled as written (`Scanner.FloorAsWritten`) and logged under Findings; the scan itself uses the corrected floor.
- A checkpoint attribute that is not a `u64` makes the scan panic instead of starting from zero.
- A label that is not an invoice decodes as the default invoice (value 0), which any transfer pays.

## Model

| member | source | states |
|---|---|---|
| `Invoice.DefaultInvoice` | opuza-monero-client/src/lib.rs:289-303 | The default invoice has zero value and zero settled amount, is not settled, and has empty memo, hash and request. |
| `Invoice.DecodeLabel` | opuza-monero-client/src/lib.rs:31-35 | A stored invoice label decodes to that invoice; any other label decodes to the default invoice instead of failing. |
| `Invoice.SettledLabelProperties` | opuza-monero-client/src/lib.rs:257-271 | Marking a label settled sets `is_settled` and keeps every other field, including the value. Doing it twice is the same as once, and an already settled label is left as it is. |
| `Hex.Encode` | opuza-monero-client/src/lib.rs:26 | `hex::encode` gives two lower-case hex digits per byte. |
| `Hex.DecodeEncode` | opuza-monero-client/src/lib.rs:134-147 | Hex text written by `encode` decodes back to the same bytes. |
| `Hex.EncodeInjective` | opuza-monero-client/src/lib.rs:108 | Distinct byte strings have distinct hex texts. |
| `Piconero.New` | opuza-monero-client/src/piconero.rs:17-23 | `Piconero::new(v).value()` is `v`. |
| `Piconero.OneXmr` | opuza-monero-client/src/piconero.rs:15 | `ONE_XMR` is 10^12 piconero. |
| `Piconero.GroupShape` | opuza-monero-client/src/piconero.rs:74 | The English-locale grouping of a number is well formed. Leading group: one to three digits; every later group: a comma and three digits. With the commas removed it reads back as the number, and it starts with '0' only for zero. |
| `Piconero.FractionShape` | opuza-monero-client/src/piconero.rs:76-86 | A non-zero remainder below one XMR shows one to twelve digits with no trailing '0'. Scaled back to twelve places, the digits are the remainder again. |
| `Piconero.FractionUnique` | opuza-monero-client/src/piconero.rs:79-86 | The shown fraction is the only digit string of at most twelve digits, without trailing '0', that denotes the remainder. |
| `Piconero.DisplayShape` | opuza-monero-client/src/piconero.rs:74-89 | Every display ends in " XMR" and has a decimal point exactly when the amount is not a whole number of XMR. |
| `Piconero.DisplayZero` | opuza-monero-client/src/piconero.rs:164-166 | Zero displays as "0 XMR". |
| `Piconero.DisplayOnePiconero` | opuza-monero-client/src/piconero.rs:159-161 | One piconero displays as "0.000000000001 XMR". |
| `Piconero.DisplayTenPiconero` | opuza-monero-client/src/piconero.rs:169-171 | Ten piconero display as "0.00000000001 XMR", without the trailing zero. |
| `Piconero.DisplayThousandPoint123` | opuza-monero-client/src/piconero.rs:182-187 | 1,000.123 XMR displays as "1,000.123 XMR". |
| `Piconero.DisplayWithCommaDoesNotParse` | opuza-monero-client/src/piconero.rs:174-179 | 1,000 XMR displays as "1,000 XMR", and the parser refuses that text. |
| `Piconero.CommaRefused` | opuza-monero-client/src/piconero.rs:56-62 | The parser refuses any text with a comma before the unit. |
| `Piconero.LargeDisplayDoesNotParse` | opuza-monero-client/src/piconero.rs:56-62 | Every amount of 1,000 XMR or more displays with a comma, so the parser refuses its display. |
| `Piconero.ParseDecimal` | opuza-monero-client/src/piconero.rs:56-64 | For the exact-decimal parser: a `<digits>.<digits> XMR` text is accepted and yields the whole XMR plus the fraction in piconero, saturating at `u64::MAX`. |
| `Piconero.FractionUnits` | opuza-monero-client/src/piconero.rs:63-64 | The fraction digits, truncated to whole piconero, stay below one XMR. |
| `Piconero.FractionUnitsTruncates` | opuza-monero-client/src/piconero.rs:63-64 | For the exact-decimal parser: the fraction becomes the largest whole number of piconero not above its decimal value: `u * 10^n <= frac * 10^12 < (u + 1) * 10^n` for `n` digits. |
| `Piconero.ParseAcceptsGrammar` | opuza-monero-client/src/piconero.rs:56-62 | The parser accepts a text exactly when it is one or more digits, optionally a dot and one or more digits, then " XMR". |
| `Piconero.ParseRejections` | opuza-monero-client/src/piconero.rs:113-146 | " 1 XMR", "1 XMR ", "1 mXMR", "1" and "-1 XMR" are refused. |
| `Piconero.DisplayThenParse` | opuza-monero-client/src/piconero.rs:52-93 | For the exact-decimal parser: below 1,000 XMR, the display of an amount parses back to the same amount. |
| `Piconero.ParseThenDisplay` | opuza-monero-client/src/piconero.rs:52-93 | For the exact-decimal parser: below 1,000 XMR, a canonical amount text parses to an amount that displays as the same text. Canonical means no superfluous leading zero, at most twelve fraction digits, no trailing zero. |
| `FloatRoute.BinadeUp` | opuza-monero-client/src/piconero.rs:63-64 | For a fraction of at least 1, the result is the power of two that the fraction lies in: `2^k <= num/den < 2^(k+1)`. |
| `FloatRoute.BinadeDown` | opuza-monero-client/src/piconero.rs:63-64 | For a fraction below 1, the result `k >= 1` places it in `[2^-k, 2^(1-k))`. |
| `FloatRoute.ParseAsWritten` | opuza-monero-client/src/piconero.rs:52-65 | The parser with its `f64` arithmetic accepts exactly the texts the exact-decimal parser accepts, and refuses the others with the same error. |
| `FloatRoute.ParseAsWrittenDecimal` | opuza-monero-client/src/piconero.rs:56-64 | A `<digits>.<digits> XMR` text yields the `f64` amount of its digits. |
| `FloatRoute.ParseSixtyOne` | opuza-monero-client/src/piconero.rs:63 | "0.000000000061" parses to the binary64 value `4719646399775512 * 2^-86`. |
| `FloatRoute.ScaleSixtyOne` | opuza-monero-client/src/piconero.rs:64 | That value times `1e12` rounds to `8584986789675007 * 2^-47`. |
| `FloatRoute.TruncateSixty` | opuza-monero-client/src/piconero.rs:64 | `as u64` truncates `8584986789675007 * 2^-47`, just below 61, to 60. |
| `FloatRoute.FloatRouteLosesPiconero` | opuza-monero-client/src/piconero.rs:63-64 | 61 piconero displays as "0.000000000061 XMR". The exact parser reads that text back as 61; the code's `f64` route reads 60, whose display differs. |
| `Piconero.ParseThenDisplayOnePointOne` | opuza-monero-client/src/piconero.rs:189-197 | "1.1 XMR" parses and displays as itself. |
| `Piconero.ParseThenDisplayZeroPoint231` | opuza-monero-client/src/piconero.rs:199-207 | "0.231 XMR" parses and displays as itself. |
| `Piconero.ParseThenDisplayTwo` | opuza-monero-client/src/piconero.rs:209-217 | "2 XMR" parses and displays as itself. |
| `Scanner.DoubleSpendNeedsOneConfirmation` | opuza-monero-client/src/lib.rs:222-228 | An unlocked confirmed transfer flagged as a double spend needs exactly one confirmation. With none it fails; with one and enough amount it passes. |
| `Scanner.LockReplacesRequirement` | opuza-monero-client/src/lib.rs:230-243 | While a confirmed transfer is locked, for a block at or below the tip, the requirement is replaced by the distance from its block to the unlock height. A double-spend flag adds nothing. |
| `Scanner.LockedTransferWaitsForUnlock` | opuza-monero-client/src/lib.rs:230-256 | A locked transfer whose confirmations count the blocks since its own does not pass before the tip reaches the unlock height. |
| `Scanner.PoolTransferWithRequirementNeverPasses` | opuza-monero-client/src/lib.rs:245-256 | A pool transfer that needs any confirmation never passes, because the confirmations it shows are added to the requirement. This holds as long as confirmations plus requirement stays below 2^64 (both below 2^63). |
| `Scanner.PoolTransferWrapPasses` | opuza-monero-client/src/lib.rs:245-256 | Past that bound the addition wraps: a double-spent pool transfer showing 2^64-1 confirmations needs 0 and settles. |
| `Scanner.PlainTransferNeedsNoConfirmation` | opuza-monero-client/src/lib.rs:222-256 | Without a double spend or a lock, nothing beyond the amount is asked: the transfer passes exactly when the amount is at least the invoice value. |
| `Scanner.StoredCheckpoint` | opuza-monero-client/src/lib.rs:182-189 | The checkpoint read fails exactly when the `block_height` attribute is present but not a `u64`. It is none exactly when the attribute is absent, and otherwise it is the parsed value. |
| `Scanner.Floor` | opuza-monero-client/src/lib.rs:187-194 | The corrected floor is 0 without a checkpoint. Otherwise it is at most the checkpoint and at most 10 below it, and exactly 10 below it from a checkpoint of 10 on. |
| `Scanner.FloorAsWrittenUnderflows` | opuza-monero-client/src/lib.rs:191 | Below a checkpoint of 10, the floor as written wraps to `h + 2^64 - 10`, above the checkpoint, where the corrected floor is 0. |
| `Scanner.FloorAsWrittenAgrees` | opuza-monero-client/src/lib.rs:187-194 | From a checkpoint of 10 on, or without one, the floor as written is the corrected floor. |
| `Scanner.ProcessTransfersSpec` | opuza-monero-client/src/lib.rs:209-277 | In whatever order the transfers come, the loop settles exactly the labels some passing transfer pays. The pass flag is true exactly when every transfer passed. It writes exactly the labels that were not settled yet, each once. |
| `Scanner.UpdatePayments` | opuza-monero-client/src/lib.rs:168-286 | A scan fails exactly on an unparsable checkpoint. Otherwise it reports the corrected floor and leaves each label as the order-free reference says. It sets `block_height` to the tip's decimal text exactly when every transfer passed and leaves it otherwise. Each write is a not-yet-settled label that was paid, written once. |
| `Scanner.ScanOnlySettles` | opuza-monero-client/src/lib.rs:257-271 | A scan never unsettles an invoice and never changes an address. In a decoded invoice it changes nothing but `is_settled`; `amount_settled` is never written. |
| `Scanner.PaidInvoiceSettles` | opuza-monero-client/src/lib.rs:254-271 | A passing transfer leaves its invoice settled, whatever else the window holds. |
| `Scanner.FailingTransferHoldsCheckpoint` | opuza-monero-client/src/lib.rs:272-285 | One failing transfer leaves the attributes, and so the checkpoint, unchanged. |
| `Scanner.CheckpointAdvanceReadsBack` | opuza-monero-client/src/lib.rs:279-285 | When every transfer passes, the written checkpoint reads back as the tip. The next floor, by the corrected floor, is then 10 below the tip, or 0 for a tip below 10. |
| `Scanner.ScanIdempotent` | opuza-monero-client/src/lib.rs:257-285 | Scanning the same window against the same tip a second time changes nothing and writes no label. |
| `Scanner.ScanOrderIndependent` | opuza-monero-client/src/lib.rs:209-285 | Any reordering of the transfers gives the same wallet and the same set of labels written. |
| `Scanner.MalformedLabelSettlesAsDefault` | opuza-monero-client/src/lib.rs:31-35 | A sufficiently confirmed transfer to a sub-address whose label is not an invoice passes the amount test against value 0. The label becomes a settled default invoice. |
| `Scanner.UnparsableCheckpointStops` | opuza-monero-client/src/lib.rs:189 | A checkpoint text such as "tip" stops the scan before anything is written. |
| `InvoiceStore.PaymentHash` | opuza-monero-client/src/lib.rs:22-29 | The payment hash is 64 lower-case hex digits that decode to the SHA-256 of the address bytes. |
| `InvoiceStore.PaymentHashKeysDistinct` | opuza-monero-client/src/lib.rs:105-112 | Addresses with distinct digests get distinct payment hashes and distinct `inv_` attribute keys. |
| `InvoiceStore.PreliminaryInvoice` | opuza-monero-client/src/lib.rs:85-90 | The label `create_address` stores is an unsettled invoice with the given value and memo and nothing else filled in. |
| `InvoiceStore.FinalInvoice` | opuza-monero-client/src/lib.rs:96-103 | The final invoice adds the payment hash of the address and the request `monero:<address>?tx_amount=<xmr>&tx_description=<memo>`. |
| `InvoiceStore.AddInvoice` | opuza-monero-client/src/lib.rs:71-128 | `add_invoice` succeeds exactly when all four calls do, and a failed height or create call changes nothing. A later failure keeps the new sub-address with its preliminary label; once `set_attribute` succeeded, `inv_<hash>` maps to the address's hex whether or not `label_address` then fails. On success the response is the payment hash, `inv_<hash>` maps to the address's hex, and the label holds the final invoice. |
| `InvoiceStore.FindAddress` | opuza-monero-client/src/lib.rs:148-151 | The index found for an address is its first occurrence; none exactly when it is absent. |
| `InvoiceStore.LookupInvoice` | opuza-monero-client/src/lib.rs:130-166 | A lookup never answers `Ok(None)`. It succeeds exactly when the wallet answers, `inv_<hex of r_hash>` is present and decodes, and some sub-address has that address. It then returns the label of the first sub-address with that address, decoded. |
| `InvoiceStore.AddThenLookup` | opuza-monero-client/src/lib.rs:71-166 | After a successful add with a fresh address, the payment hash names the address's digest. Looking up that digest returns the final invoice. |
| `InvoiceStore.AddKeepsOtherLookups` | opuza-monero-client/src/lib.rs:71-166 | Adding an invoice under a fresh address leaves every other successful lookup unchanged. |
| `InvoiceStore.UnknownHashIsError` | opuza-monero-client/src/lib.rs:142-145 | A hash without an `inv_` attribute is an error, not `Ok(None)`. |
| `LegacyBackend.EscapeChar` | agora-lnd-client/src/monero.rs:106 | serde_json writes a character unescaped exactly when it is plain. |
| `LegacyBackend.SerializedLabelContainsHash` | agora-lnd-client/src/monero.rs:101-106 | The label text of a stored invoice contains its lower-case hex payment hash. |
| `LegacyBackend.SerializedLabelContainsMemoHex` | agora-lnd-client/src/monero.rs:134-137 | The label text also contains any lower-case hex the memo contains. |
| `LegacyBackend.ToLightning` | agora-lnd-client/src/monero.rs:25-42 | Decoding a label keeps value, settled flag, memo and request, and turns the hex hash into its 32 bytes. |
| `LegacyBackend.PayingIndicesSameValues` | agora-lnd-client/src/monero.rs:183 | Which transfers pay depends only on the stored values, so settling labels does not change it. |
| `LegacyBackend.LegacyWritesSpec` | agora-lnd-client/src/monero.rs:173-190 | The legacy scan writes once per paying incoming transfer, in transfer order, whether or not the label was settled already. |
| `LegacyBackend.LegacyLabelsSpec` | agora-lnd-client/src/monero.rs:183-188 | The legacy scan settles exactly the labels some incoming transfer pays and leaves the others unchanged. |
| `LegacyBackend.LegacyUpdateSpec` | agora-lnd-client/src/monero.rs:159-194 | The two statements above together. |
| `LegacyBackend.LegacyRewritesEveryPass` | agora-lnd-client/src/monero.rs:183-188 | A second scan leaves the labels as they are but writes every paying transfer's label again. |
| `LegacyBackend.LegacyStrictAmount` | agora-lnd-client/src/monero.rs:183 | A payment of exactly the value, or one flagged as a double spend, does not pay; one unit more without the flag does. |
| `LegacyBackend.OutgoingSettlesNothing` | agora-lnd-client/src/monero.rs:164-173 | Transfers that are not incoming settle and write nothing. |
| `LegacyBackend.FirstContaining` | agora-lnd-client/src/monero.rs:132-139 | The match is the first sub-address whose label text contains the text sought; there is none exactly when no label contains it. |
| `LegacyBackend.LegacyLookup` | agora-lnd-client/src/monero.rs:121-156 | On non-unix builds a lookup is an error and changes nothing. On unix, with a wallet that answers, it fails, changing nothing, exactly when no label contains the hex hash. On success it returns the first label that contains the hash, decoded as read before the scan, and the labels become those the legacy scan leaves. |
| `LegacyBackend.MemoShadowsLaterInvoice` | agora-lnd-client/src/monero.rs:132-141 | When an earlier label's memo contains the hex of a hash, the lookup answers with that label or an even earlier one, never the later invoice the hash belongs to. |
| `LegacyBackend.LookupReportsStateBeforeScan` | agora-lnd-client/src/monero.rs:141-147 | An unpaid invoice that an incoming transfer pays is returned unsettled, while the same call settles its label. |
| `LegacyBackend.LegacyFinal` | agora-lnd-client/src/monero.rs:98-103 | The final legacy invoice is unsettled with the given value and memo. Its hash is hex that decodes to the SHA-256 of the address. |
| `LegacyBackend.LegacyAdd` | agora-lnd-client/src/monero.rs:72-119 | On non-unix builds `add_invoice` is an error and changes nothing. On unix it succeeds exactly when the height, create and label calls do, and keeps the new sub-address after a failed label call. On success the response is the raw digest and the label holds the final invoice. |
| `LegacyBackend.LegacyPing` | agora-lnd-client/src/monero.rs:54-70 | `ping` succeeds exactly on unix when the wallet answers. |
| `LegacyBackend.LegacyAddThenLookup` | agora-lnd-client/src/monero.rs:72-148 | The digest `add_invoice` returns finds the invoice it created, unsettled with its value, memo and digest, provided no earlier label contains its hex. |
| `Listener.SetupRpcClient` | src/server.rs:98-123 | Without an address there is no client and nothing is written. With one, a client is returned whether or not the ping answered, and the notice says which. Setup fails only when writing the notice fails. |
| `Listener.SetupListenerAsWritten` | src/server.rs:30-31 | `Server::setup` always builds a listener, with or without a client. |
| `Listener.ListenerWithoutAddressCannotRun` | src/server.rs:30-31 | Without `--monero-rpc-address`, setup as written yields a listener whose first cycle unwraps a missing client. |
| `Listener.SetupListener` | src/server.rs:30-31 | The corrected setup builds a listener exactly when there is a client, and that listener can run. |
| `Listener.ListenerExactlyWithAddress` | src/server.rs:98-123 | With the correction, a listener exists exactly when an address was given, and it can run. |
| `Listener.Cycle` | src/server.rs:193-210 | Every cycle sleeps 2 seconds and pings. It scans only when the ping answered, and waits 10 seconds after a failed ping or a failed scan. |
| `Listener.ScanFollowsPing` | src/server.rs:196-204 | In any run, every scan comes straight after a ping. |
| `Listener.RunCounts` | src/server.rs:192-211 | A run that does not halt pings once per cycle and scans exactly once per answered ping. |
| `Listener.RunKeepsSettled` | src/server.rs:204 | A settled invoice stays settled through any number of cycles. |
| `Listener.RunNeverHalts` | src/server.rs:213-216 | Starting from a readable checkpoint, or none, the loop never stops on a scan. |
| `Prerelease.IsReleaseMatchesGrammar` | bin/prerelease/src/main.rs:13-14 | The recogniser accepts a reference exactly when it is `refs/tags/` and three digit runs separated by dots, with nothing before or after. |
| `Prerelease.Output` | bin/prerelease/src/main.rs:16-19 | The printed line, ended by a newline, carries "false" exactly for a release tag and "true" otherwise. |
| `Prerelease.SuffixMakesPrerelease` | bin/prerelease/src/main.rs:13 | A release tag followed by anything that does not start with a digit is a prerelease. |
| `Prerelease.PrefixMakesPrerelease` | bin/prerelease/src/main.rs:13 | Anything in front of a release tag makes it a prerelease. |
| `Prerelease.ReleaseTagOutput` | bin/prerelease/src/main.rs:13-19 | Every `refs/tags/` reference with three digit runs separated by dots, of any length and with leading zeros allowed, prints false. |
| `Prerelease.ReleaseExample` | bin/prerelease/src/main.rs:13-19 | "refs/tags/1.2.3" prints false. |
| `Prerelease.BranchIsPrerelease` | bin/prerelease/src/main.rs:13-19 | "refs/heads/master" prints true. |
| `Prerelease.TwoPartVersionIsPrerelease` | bin/prerelease/src/main.rs:13-19 | "refs/tags/1.2" prints true. |
| `Prerelease.PrefixedVersionIsPrerelease` | bin/prerelease/src/main.rs:13-19 | "refs/tags/v1.2.3" prints true. |
| `Prerelease.SuffixedVersionIsPrerelease` | bin/prerelease/src/main.rs:13-19 | "refs/tags/1.2.3-rc.1" prints true. |

## Left out

- Wallet RPC transport and the network. For the Opuza client each call's success is a boolean parameter, and its data (fresh address, transfers, chain tip) is a parameter.
- `LegacyBackend.LegacyLookup`: the legacy backend unwraps `get_address` in the lookup (agora-lnd-client/src/monero.rs:132-135) and `get_transfers` and `get_address` in its scan (agora-lnd-client/src/monero.rs:173, 178). A wallet that does not answer makes these panic; the model assumes the wallet answers, so a lookup fails only when no label contains the hash.
- The `unwrap` panics on RPC results inside `update_payments` (`get_transfers`, `get_height`, `get_address`). The RPC is assumed to answer, and every transfer is assumed to name a sub-address the wallet has (`Scanner.IndicesKnown`).
- Errors of the label and attribute writes inside the scans. The source discards them, and the model treats every write as succeeding.
- The category and height filter of `get_transfers`: the transfers of the window are a parameter of the scan.
- `unlock_time` values that are timestamps rather than heights. The model compares them with block heights, as the code does.
- Rust's debug-build overflow panics. Wrapping arithmetic (the release build) is written out where the code can overflow; for the scan floor that is `Scanner.FloorAsWritten`, which the scan does not use (next line).
- `Scanner.UpdatePayments`: it reports and scans from the corrected floor `Scanner.Floor`, not the wrapping `block_height_attribute - 10` of opuza-monero-client/src/lib.rs:191. For a stored checkpoint below 10 the code's window starts at 2^64 + checkpoint - 10, which is empty, and the model scans from 0 instead (see Findings).
- `Scanner.CheckpointAdvanceReadsBack`: the next floor is stated with the corrected `Scanner.Floor`; for a tip below 10 the code's floor wraps instead.
- `Piconero.FractionUnits`: the parser's `f64` route (`parse::<f64>`, the multiply by 10^12, `as u64`) is idealised as exact decimal scaling, truncation to whole piconero, and saturation at `u64::MAX`. The route as written is `FloatRoute.ParseAsWritten`, used only to exhibit the finding below; its exponent range is unbounded, which changes no `as u64` result.
- `Piconero.DisplayThenParse`: the round trip is proved for the exact-decimal parser only. With the code's `f64` route, 61 piconero displays as "0.000000000061 XMR" and parses back as 60 (`FloatRoute.FloatRouteLosesPiconero`).
- `Piconero.ParseThenDisplay`: likewise for the exact-decimal parser only. With the code's `f64` route, the canonical text "0.000000000061 XMR" parses to 60 piconero, which displays as "0.00000000006 XMR".
- The display fraction is computed through `f64` in the source. The model uses the exact twelve-digit fraction the tests pin down.
- `Piconero::as_xmr`: it is the `xmrText` field of `InvoiceStore.Externals`, because its text comes from `f64` formatting.
- Unicode digits: `\d` in the amount pattern also matches non-ASCII digits, and the model accepts ASCII digits only.
- YAML inputs that are not strings (the `list_input` and `number_type` tests): only the string visitor is modelled.
- SHA-256 and the base58 address text: both are `InvoiceStore.Externals` fields. `Address::from_hex` validity is abstracted as hex decoding of the bytes.
- JSON for `OpuzaInvoice` labels: only whether a label parses matters (`Invoice.Label`). The legacy labels' JSON is written out, because their lookup searches the text.
- The legacy scan's panics on a transfer whose sub-address index the wallet does not have, or whose label does not decode, become the precondition `LegacyBackend.UpdateDefined`. The lookup's panic on a first match whose label does not decode, and any scan panic after it, become `LegacyBackend.LookupDefined`.
- `Scanner.PoolTransferWithRequirementNeverPasses`: requires confirmations and unlock time below 2^63. In a release build the addition at opuza-monero-client/src/lib.rs:251 wraps, and such a transfer can pass (`Scanner.PoolTransferWrapPasses`).
- `LegacyBackend.LabelDecodable`: only a label written by `Serialize` (a `Stored` label) counts as decodable. A label holding a `MoneroInvoice` in JSON with other spacing or field order is a `Text` label here, although serde would read it.
- A `get_transfers` result without an `In` entry, which the legacy scan unwraps (agora-lnd-client/src/monero.rs:173): the incoming transfers are a parameter.
- Legacy amounts: `amount` (piconero) is compared with `value_msat` as plain numbers, as the code does.
- `ping` of the Monero client (opuza-monero-client/src/lib.rs:58-69) appears only as the `pingOk` outcome of each cycle and of setup.
- `update_payments` returns `()`, not a `Result`, so `scan_transactions` (src/server.rs:213-215) as written does not type-check. Read as always returning `Ok(())`, the retry branch after a scan error (src/server.rs:206-209) is dead. The only way a scan ends the loop is the panic on an unparsable checkpoint (`RunResult.halted`).
- Logging (`println!`), the HTTP and HTTPS servers, TLS and ACME, HTML pages, argument parsing beyond `--monero-rpc-address`, and the second client built for the HTTPS handler.
- `Listener.Run` covers finitely many cycles; the endless loop is every finite prefix of it.
- `Listener.Run`: the HTTP handlers that call `add_invoice` and `lookup_invoice` run concurrently with the loop (src/server.rs:134-141). The model does not interleave them: the wallet changes only through scans during a run, the sub-address set is the one at the start, and `Listener.ObservationsFit` checks every observed transfer against it.

## Findings

| source | as written | input that shows it | evidently intended | confidence | as-written member | corrected member |
|---|---|---|---|---|---|---|
| opuza-monero-client/src/lib.rs:191 | The scan floor is `block_height_attribute - 10` on `u64` (modelled as `Scanner.FloorAsWritten`). | A stored checkpoint of 5 gives a floor of 2^64 - 5 in a release build (and a panic in a debug build), so the scan window is empty. | Scan from `max(checkpoint - 10, 0)`; `Scanner.UpdatePayments` uses the corrected floor, and `Scanner.FloorAsWrittenAgrees` shows the two agree from 10 on. | not executed | `Scanner.FloorAsWrittenUnderflows` | `Scanner.Floor` |
| opuza-monero-client/src/piconero.rs:63-64 | The amount text is parsed to `f64`, multiplied by `1e12` in `f64`, and truncated by `as u64` (modelled as `FloatRoute.ParseAsWritten`). | "0.000000000061 XMR", the display of 61 piconero: the nearest `f64` times `1e12` is just below 61, so it parses to 60 piconero, which displays as "0.00000000006 XMR". | Read the decimal text exactly, so that display and parse round-trip below 1,000 XMR; the exact-decimal `Piconero.Parse` does, as `Piconero.DisplayThenParse` proves. | not executed | `FloatRoute.FloatRouteLosesPiconero` | `Piconero.DisplayThenParse` |
| src/server.rs:30-31 | `Server::setup` always builds `TransactionListener::new(rpc_client)`, even when `setup_rpc_client` returned `None` (modelled as `Listener.SetupListenerAsWritten`). `run` then unwraps the client (src/server.rs:196). | Starting the server without `--monero-rpc-address`, which is optional (src/arguments.rs:68-72). | Build the listener only when there is a client; `Listener.ListenerExactlyWithAddress` proves such a listener can always run. | not executed | `Listener.ListenerWithoutAddressCannotRun` | `Listener.SetupListener` |
