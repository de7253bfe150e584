/**
 * The foreign libraries the executor calls: Stellar's transaction builder and
 * signer (txnbuild, keypair), the XDR codec (xdr) and the strkey codec.
 *
 * Their internals (XDR as in RFC 4506, base64 as in RFC 4648, the strkey
 * checksum of SEP-0023, Ed25519 signatures) are not modelled: every value they
 * produce is of an opaque type, and every operation is a total function value
 * that returns either a value or a library error. Passing these function values
 * in as parameters lets every statement below hold for ANY behaviour of the
 * libraries.
 */
module Stellar {

  /** The `(value, error)` pair of a Go call that has exactly one of the two. */
  datatype Result<+T, +E> = Ok(value: T) | Err(error: E)

  datatype Option<+T> = None | Some(value: T)

  newtype byte = x: int | 0 <= x < 256

  /** A Go `[32]byte` array: xdr.ContractId (a Hash) and xdr.Uint256. */
  type Bytes32 = s: seq<byte> | |s| == 32 witness seq(32, i => 0)

  /** An error value returned by a library or by the RPC transport. */
  type LibError

  /** xdr.ScVal: a contract value (argument or return value). */
  type ScVal

  /** xdr.ScError: the structured error of a failed contract invocation. */
  type ScError

  /** xdr.LedgerKey: the key of one ledger storage slot, compared by value. */
  type LedgerKey(==)

  /** xdr.LedgerEntryData: the decoded contents of one ledger storage slot. */
  type LedgerEntryData

  /** txnbuild.Transaction: a built, possibly signed, transaction. */
  type Transaction

  /** txnbuild.Account: the source-account context of a transaction. */
  type Account

  /** keypair.Full: a key pair that can sign. */
  type Keypair

  /** xdr.ScSymbol is a Go string. */
  type ScSymbol = string

  /** xdr.AccountId, restricted to its one arm, PublicKeyTypeEd25519. */
  datatype AccountId = Ed25519(key: Bytes32)

  /**
   * xdr.ScAddress, restricted to the two arms the helpers construct:
   * ScAddressTypeAccount and ScAddressTypeContract.
   */
  datatype ScAddress = Account(accountId: AccountId) | Contract(contractId: Bytes32)

  /**
   * The functions of txnbuild and xdr the executor calls, one field each.
   *  - buildContractTx: the package-level builder of an invoke-contract transaction
   *  - sign:            (*txnbuild.Transaction).Sign with one passphrase and one key pair
   *  - base64:          (*txnbuild.Transaction).Base64
   *  - unmarshalScVal, unmarshalScError, unmarshalLedgerKey, unmarshalLedgerEntryData:
   *                     xdr.SafeUnmarshalBase64 into a value of that type
   *  - marshalLedgerKey: (xdr.LedgerKey).MarshalBinaryBase64
   */
  datatype Library = Library(
    buildContractTx: (ScAddress, Account, seq<ScVal>, ScSymbol) -> Result<Transaction, LibError>,
    sign: (Transaction, string, Keypair) -> Result<Transaction, LibError>,
    base64: Transaction -> Result<string, LibError>,
    unmarshalScVal: string -> Result<ScVal, LibError>,
    unmarshalScError: string -> Result<ScError, LibError>,
    unmarshalLedgerKey: string -> Result<LedgerKey, LibError>,
    unmarshalLedgerEntryData: string -> Result<LedgerEntryData, LibError>,
    marshalLedgerKey: LedgerKey -> Result<string, LibError>)

  /** strkey.Decode and strkey.Encode, each taking the version byte first. */
  datatype Strkey = Strkey(
    decode: (byte, string) -> Result<seq<byte>, LibError>,
    encode: (byte, seq<byte>) -> Result<string, LibError>)

  /** strkey.VersionByteAccountID, 6 << 3: texts that start with 'G'. */
  const VersionByteAccountID: byte := 48

  /** strkey.VersionByteContract, 2 << 3: texts that start with 'C'. */
  const VersionByteContract: byte := 16

  /** Decoding undoes encoding: what `encode` produced, `decode` with the same version gives back. */
  ghost predicate DecodeUndoesEncode(sk: Strkey)
  {
    forall v, b, s :: sk.encode(v, b) == Ok(s) ==> sk.decode(v, s) == Ok(b)
  }

  /** Encoding undoes decoding: re-encoding a decoded payload with its version gives back the text. */
  ghost predicate EncodeUndoesDecode(sk: Strkey)
  {
    forall v, s, b :: sk.decode(v, s) == Ok(b) ==> sk.encode(v, b) == Ok(s)
  }
}
