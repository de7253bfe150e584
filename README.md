# golang-soroban executor core, modelled in Dafny

This project models the core of a Go client that calls smart contracts on the
Stellar network through a Soroban RPC server:

- **contract calls** (`pkg/executor/contract.go`). `SimulateContractCall`
  builds an invoke-contract transaction, encodes it unsigned, makes one
  simulation call and decodes the single result. `SubmitContractCall` builds
  the transaction, signs it with each key pair in list order under one network
  passphrase, makes one send call, and classifies the answer. An empty error
  result gives the hash. Anything else gives an error.
- **ledger-entry lookup** (`pkg/executor/ledger.go`). `LedgerEntryCall`
  encodes every requested key and makes one batch call. It then keeps only the
  response entries whose decoded key equals the requested key at the same
  index.
- **codec helpers** (`pkg/helpers/helpers.go`). These are the strkey address
  helpers and the conversion of a 128-bit integer, given in two parts, to int64.

Every foreign operation is a function value passed in as a parameter, and each
one returns either a value or an error. This covers the transaction builder,
`Sign`, `Base64`, the XDR unmarshal and marshal calls, strkey `Decode` and
`Encode`, and the three RPC procedures. All the library values have opaque
types (module `Stellar`). So every contract holds for any behaviour of the
libraries. The RPC client (`Rpc.Client`) is a `const` of class
`Executor.Executor`. The class also keeps a ghost `trace` of the remote calls
it has made. A Go result pair `(nil, err)` or `("", err)` is modelled as
`Err(e)`. A Go pair `(v, nil)` is modelled as `Ok(v)`.

The loops of the source are methods with loop invariants:
`Contract.SignInOrder`, `Ledger.EncodeLedgerKeys` and `Ledger.CollectEntries`.
Each is proved equal to a specification function that follows the loop step by
step (`SignChain`, `EncodeAll`, `Correlate`). What the source promises is then
proved about those functions by induction. For example: a failure is the one
at the first failing index, the i-th signing step uses key pair i, and a
result's keys are exactly the requested keys whose entry came back at their
own index.

Some behaviours of the code are not what one might expect:

- **Ledger correlation is by position, not by search.** Take a request for
  keys [K1, K2, K3] whose answer holds entries only for K1 and K3. The result
  holds only K1. The entry for K3 sits at index 1, is compared with K2, and is
  dropped. A lookup that searched the answer for each key would give K1 and
  K3. The code compares by position instead, and
  `Ledger.MissingKeyDropsLaterEntries` proves what it does.
- **Hi = 1, Lo = 0 gives 0.** The intermediate integer is 2^64, but
  `(*big.Int).Int64` keeps only its low 64 bits, so the result is 0 and not
  2^64.
- **The low part is read as signed.** The code converts `Lo` with `int64(...)`.
  So the intermediate is the 128-bit value minus 2^64 whenever Lo >= 2^63. The
  int64 result does not change, because the two numbers agree modulo 2^64
  (`Helpers.I128ToInt64`).
- **Two different failures return the same kind of error.** A failure to
  decode a non-empty error result and a transport failure of the send call
  both come back as a bare error (`Errors.Propagated`). They are not told
  apart as a contract error versus a transport error.

## Model

| member | source | states |
|---|---|---|
| Helpers.CopyInto32 | pkg/helpers/helpers.go:18-19 | `copy` into a zeroed 32-byte array: byte i is payload byte i when the payload has one, otherwise 0 |
| Helpers.CopyInto32Exact | pkg/helpers/helpers.go:18-19 | a 32-byte payload is copied unchanged |
| Helpers.ContractAddressToScAddress | pkg/helpers/helpers.go:11-27 | decodes with the contract version byte; succeeds exactly when strkey decoding does; gives the Contract arm holding the first 32 payload bytes (zero-padded); on a decode failure gives the wrapped strkey error |
| Helpers.StellarAddressToScAddress | pkg/helpers/helpers.go:29-52 | decodes with the account-ID version byte; succeeds exactly when strkey decoding does; gives the Account arm holding an Ed25519 account id of the copied 32 bytes; on failure returns the strkey error unchanged |
| Helpers.EncodeContractAddress | pkg/helpers/helpers.go:54-60 | encodes the 32 id bytes with the contract version byte; succeeds exactly when strkey encoding does; on failure gives the wrapped strkey error |
| Helpers.ContractIdRoundTrip | pkg/helpers/helpers.go:11-60 | if strkey decoding undoes encoding, decoding the encoded text of an id gives the Contract address with that id |
| Helpers.ContractTextRoundTrip | pkg/helpers/helpers.go:11-60 | if strkey encoding undoes decoding, a contract text with a 32-byte payload decodes to an address whose id encodes back to the same text |
| Helpers.Int64OfUint64 | pkg/helpers/helpers.go:82 | `int64(lo)` keeps the 64 bits: the result is lo or lo - 2^64, and it is non-negative exactly when lo < 2^63 |
| Helpers.NegateInt64 | pkg/helpers/helpers.go:90 | Go's int64 negation is negation modulo 2^64 (so -2^63 stays -2^63) |
| Helpers.BigIntInt64 | pkg/helpers/helpers.go:90 | `(*big.Int).Int64` (low 64 bits of the magnitude, negated for a negative number) is congruent to the number modulo 2^64 |
| Helpers.BigIntInt64Exact | pkg/helpers/helpers.go:90 | a number in the int64 range is converted exactly |
| Helpers.I128Intermediate | pkg/helpers/helpers.go:81-87 | the shifted-and-added intermediate is Hi·2^64 + Lo when Lo < 2^63 and Hi·2^64 + Lo - 2^64 otherwise |
| Helpers.I128ToInt64 | pkg/helpers/helpers.go:79-91 | the result is Lo read as a signed 64-bit value, so Hi has no effect; whenever the 128-bit value fits in int64 the result is that value exactly |
| Helpers.I128ToInt64SmallPositive | pkg/helpers/helpers.go:79-91 | Hi = 0, Lo = 12345 gives 12345 |
| Helpers.I128ToInt64DropsHigh | pkg/helpers/helpers.go:79-91 | Hi = 1, Lo = 0 stands for 2^64 and gives 0 |
| Helpers.I128ToInt64MinusOne | pkg/helpers/helpers.go:79-91 | Hi = -1, Lo = 2^64 - 1 stands for -1 and gives -1 |
| Contract.SignChain | pkg/executor/contract.go:76-86 | the outcome of signing with each key pair in turn under one passphrase, stopping at the first error; no key pairs leave the transaction as built, so a failure needs at least one key pair; the step-by-step meaning is stated by SignChainSteps, SignChainFirstFailure, SignChainErrorSticks and SignChainAppend |
| Contract.SignChainErrorSticks | pkg/executor/contract.go:82-85 | once signing with a prefix of the key pairs fails, signing with the whole list fails with that same error |
| Contract.SignChainAppend | pkg/executor/contract.go:76-86 | signing with `first + rest` is signing with `first` and then signing the result with `rest`, under the same passphrase |
| Contract.SignChainSteps | pkg/executor/contract.go:76-86 | when signing succeeds, step i signs the output of the first i steps with key pair i and the one passphrase |
| Contract.SignChainFirstFailure | pkg/executor/contract.go:82-85 | when signing fails, the error is the one key pair i produced after the first i steps succeeded |
| Contract.SignInOrder | pkg/executor/contract.go:76-86 | the signing loop, stopping at the first error, computes exactly the ordered signing chain |
| Contract.SimulationResult | pkg/executor/contract.go:41-56 | any result count other than 1 is an unexpected-count error with that count; success exactly when there is one result and its return value decodes; the value is that decoding; a decode error is returned unchanged |
| Contract.SendOutcome | pkg/executor/contract.go:107-120 | success exactly when the error result is empty, and then the value is the response hash; a non-empty error result gives the decoded contract error, or the decode error when it does not decode |
| Ledger.EncodeAll | pkg/executor/ledger.go:16-24 | succeeds exactly when every key encodes; the encoded list then has the request's length and order, with entry i the encoding of key i |
| Ledger.EncodeAllErrorSticks | pkg/executor/ledger.go:17-21 | once a prefix of the keys fails to encode, encoding all of them fails with that same error |
| Ledger.EncodeAllFirstFailure | pkg/executor/ledger.go:17-21 | a failure is the error of the first key that does not encode, tagged with its index |
| Ledger.EncodeLedgerKeys | pkg/executor/ledger.go:16-24 | the loop that fills the key slice by index computes exactly the index-aligned encoding |
| Ledger.Correlate | pkg/executor/ledger.go:37-61 | the walk over the answer, entry by entry; every key of a successful result is a requested key at the index of some entry, and every value is the decoded data of some entry; the exact keys, values and failures are stated by CorrelateKeys, CorrelateLastMatchWins, CorrelateOkIff and CorrelateFirstFailure |
| Ledger.CorrelateErrorSticks | pkg/executor/ledger.go:41-54 | once a prefix of the answer stops the walk, the whole answer stops it with that same error |
| Ledger.CorrelateOkIff | pkg/executor/ledger.go:38-59 | the walk succeeds exactly when every entry's key decodes and every matching entry's data decodes, including entries that would not match |
| Ledger.CorrelateFirstFailure | pkg/executor/ledger.go:41-54 | a failure comes from the first unreadable entry i: its key-decode error unchanged, or its data-decode error tagged with i |
| Ledger.CorrelateKeys | pkg/executor/ledger.go:46-56 | a key is in the result exactly when some entry i decodes to the key requested at the same index i and that key is it; mismatching entries are dropped without error |
| Ledger.CorrelateLastMatchWins | pkg/executor/ledger.go:50-56 | the value under a key is the decoded data of the last entry that matched with that key |
| Ledger.CollectEntries | pkg/executor/ledger.go:37-61 | the response loop with its early returns computes exactly the position-by-position correlation |
| Ledger.MissingKeyDropsLaterEntries | pkg/executor/ledger.go:38-57 | with keys [k1, k2, k3] and entries for k1 and k3 only, the result holds k1 alone |
| Executor.Executor.constructor | pkg/executor/executor.go:13-17 | a new executor holds the given client and has made no call |
| Executor.Executor.SimulateContractCall | pkg/executor/contract.go:13-57 | a build or base64 failure is returned unchanged and no call is made; otherwise exactly one simulation call is made, carrying the base64 of the built (unsigned) transaction; a transport error is returned unchanged; otherwise the result is what the response yields |
| Executor.Executor.SubmitContractCall | pkg/executor/contract.go:60-121 | a build, signing or base64 failure is returned unchanged and no call is made; otherwise exactly one send call is made, carrying the base64 of the transaction signed in list order; a transport error is returned unchanged; otherwise the send response is classified |
| Executor.Executor.LedgerEntryCall | pkg/executor/ledger.go:11-63 | a key-encoding failure is returned and no call is made; otherwise exactly one batch call is made with the index-aligned encoded keys; a transport error is returned unchanged; otherwise the result is the position-by-position correlation of the answer |

## Left out

- `I128ToFloat64` (pkg/helpers/helpers.go:62-76) is not modelled, because it uses floating point. Its integer intermediate is the one `Helpers.I128Intermediate` states.
- `NewExecutor` and `GetRpc` (pkg/executor/executor.go) are not modelled, because they only wire up HTTP. The constructor takes the client directly.
- The RPC transport is not modelled: HTTP, JSON framing and `context.TODO()`. The client is a fixed function from request to answer, so the model describes a deterministic server.
- The internals of the foreign libraries are not modelled: XDR (RFC 4506), base64 (RFC 4648), strkey checksums (SEP-0023), Ed25519 signing, and `buildContractTx`, which is not part of this model. Each is an opaque function that returns a value or an error.
- The logging (`fmt.Printf`, `fmt.Println`) and the exact text of the errors are not modelled. An error keeps only its kind, its cause and the index it is tagged with.
- `xdr.ScAddress` has only its Account and Contract arms here, and `xdr.AccountId` only its Ed25519 arm. `xdr.NewScAddress` and `xdr.NewAccountId` are taken as never failing, because they are always called here with the arm that matches the value.
- The result map is keyed by value equality of `LedgerKey`. A Go map compares the xdr union struct field by field, and that includes the pointers of its arms. So the model may merge two equal keys that Go keeps apart.
- Executor.Executor.SimulateContractCall: requires `Rpc.SimulationConforms`, that a single simulation result always carries a return value. Go would panic on a nil pointer there. Nothing is required of the other two procedures.
- Executor.Executor.LedgerEntryCall: requires `Rpc.LedgerConforms`, that an answer has no more entries than keys were sent. Go would panic when indexing the request past its end. Nothing is required of the other two procedures.
- Ledger.CollectEntries: requires no more entries than keys, for the same reason as LedgerEntryCall.
- Contract.SimulationResult: requires that a single result carries a return value, for the same reason as SimulateContractCall.
