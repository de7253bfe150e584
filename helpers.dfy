/**
 * Codec helpers of pkg/helpers: the three address helpers, thin wrappers over
 * strkey, and the conversion of a 128-bit integer in two 64-bit parts to a
 * 64-bit integer.
 */
module Helpers {
  import opened Stellar

  /** The errors the address helpers return. */
  datatype AddressError =
    | DecodingTokenContract(cause: LibError)  // strkey failure, wrapped as "error decoding token contract"
    | StrkeyFailure(cause: LibError)          // strkey failure, returned as it is
    | EncodingAddress(cause: LibError)        // strkey failure, wrapped as "failed to encode address"

  /**
   * Go's `copy(dst[:], src)` into a zeroed `[32]byte`: the first 32 bytes of
   * the payload, followed by zeros when the payload is shorter.
   */
  function CopyInto32(payload: seq<byte>): (id: Bytes32)
    ensures forall i :: 0 <= i < 32 ==> id[i] == if i < |payload| then payload[i] else 0
  {
    if |payload| >= 32 then payload[..32] else payload + seq(32 - |payload|, i => 0)
  }

  /** A payload of exactly 32 bytes is copied unchanged. */
  lemma CopyInto32Exact(payload: seq<byte>)
    requires |payload| == 32
    ensures CopyInto32(payload) == payload
  {
  }

  /** ContractAddressToScAddress: decode a 'C...' text into the Contract arm of ScAddress. */
  function ContractAddressToScAddress(sk: Strkey, tokenContract: string): (r: Result<ScAddress, AddressError>)
    ensures r.Ok? <==> sk.decode(VersionByteContract, tokenContract).Ok?
    ensures r.Ok? ==> (r.value.Contract? &&
                       r.value.contractId == CopyInto32(sk.decode(VersionByteContract, tokenContract).value))
    ensures r.Err? ==> r.error == DecodingTokenContract(sk.decode(VersionByteContract, tokenContract).error)
  {
    match sk.decode(VersionByteContract, tokenContract)
    case Err(e) => Err(DecodingTokenContract(e))
    case Ok(tokenAddress) => Ok(Contract(CopyInto32(tokenAddress)))
  }

  /** StellarAddressToScAddress: decode a 'G...' text into an Ed25519 account inside the Account arm. */
  function StellarAddressToScAddress(sk: Strkey, address: string): (r: Result<ScAddress, AddressError>)
    ensures r.Ok? <==> sk.decode(VersionByteAccountID, address).Ok?
    ensures r.Ok? ==> (r.value.Account? && r.value.accountId.Ed25519? &&
                       r.value.accountId.key == CopyInto32(sk.decode(VersionByteAccountID, address).value))
    ensures r.Err? ==> r.error == StrkeyFailure(sk.decode(VersionByteAccountID, address).error)
  {
    match sk.decode(VersionByteAccountID, address)
    case Err(e) => Err(StrkeyFailure(e))
    case Ok(addressBytes) => Ok(Account(Ed25519(CopyInto32(addressBytes))))
  }

  /** EncodeContractAddress: encode the 32 bytes of a contract id with the contract version byte. */
  function EncodeContractAddress(sk: Strkey, contractId: Bytes32): (r: Result<string, AddressError>)
    ensures r.Ok? <==> sk.encode(VersionByteContract, contractId).Ok?
    ensures r.Ok? ==> r.value == sk.encode(VersionByteContract, contractId).value
    ensures r.Err? ==> r.error == EncodingAddress(sk.encode(VersionByteContract, contractId).error)
  {
    match sk.encode(VersionByteContract, contractId)
    case Err(e) => Err(EncodingAddress(e))
    case Ok(encoded) => Ok(encoded)
  }

  /** Encoding a contract id and decoding the text again gives the Contract address with that id. */
  lemma ContractIdRoundTrip(sk: Strkey, contractId: Bytes32)
    requires DecodeUndoesEncode(sk)
    requires EncodeContractAddress(sk, contractId).Ok?
    ensures ContractAddressToScAddress(sk, EncodeContractAddress(sk, contractId).value) == Ok(Contract(contractId))
  {
    var text := EncodeContractAddress(sk, contractId).value;
    assert sk.encode(VersionByteContract, contractId) == Ok(text);
    CopyInto32Exact(contractId);
  }

  /**
   * Decoding a contract text whose payload has 32 bytes and encoding the id
   * again gives back the text.
   */
  lemma ContractTextRoundTrip(sk: Strkey, tokenContract: string)
    requires EncodeUndoesDecode(sk)
    requires sk.decode(VersionByteContract, tokenContract).Ok?
    requires |sk.decode(VersionByteContract, tokenContract).value| == 32
    ensures ContractAddressToScAddress(sk, tokenContract).Ok?
    ensures EncodeContractAddress(sk, ContractAddressToScAddress(sk, tokenContract).value.contractId) == Ok(tokenContract)
  {
    var payload := sk.decode(VersionByteContract, tokenContract).value;
    CopyInto32Exact(payload);
    assert sk.encode(VersionByteContract, payload) == Ok(tokenContract);
  }

  // ---------------------------------------------------------------------------
  // 128-bit integers
  // ---------------------------------------------------------------------------

  const TWO_63: int := 0x8000_0000_0000_0000
  const TWO_64: int := 0x1_0000_0000_0000_0000

  newtype int64 = x: int | -0x8000_0000_0000_0000 <= x < 0x8000_0000_0000_0000
  newtype uint64 = x: int | 0 <= x < 0x1_0000_0000_0000_0000

  /** xdr.Int128Parts: a signed high half and an unsigned low half. */
  datatype Int128Parts = Int128Parts(hi: int64, lo: uint64)

  /** The 128-bit two's complement value the two parts stand for. */
  function I128Value(p: Int128Parts): int
  {
    p.hi as int * TWO_64 + p.lo as int
  }

  /** Go's conversion `int64(u)` of a uint64: the same 64 bits read as two's complement. */
  function Int64OfUint64(u: uint64): (r: int64)
    ensures r as int == u as int || r as int == u as int - TWO_64
    ensures r >= 0 <==> u as int < TWO_63
  {
    if u as int < TWO_63 then u as int as int64 else (u as int - TWO_64) as int64
  }

  /** Go's unary minus on int64, which wraps -2^63 to itself. */
  function NegateInt64(v: int64): (r: int64)
    ensures (r as int + v as int) % TWO_64 == 0
  {
    if v as int == -TWO_63 then v else (-(v as int)) as int64
  }

  lemma MultipleOfTwo64(k: int)
    ensures (k * TWO_64) % TWO_64 == 0
  {
  }

  /** Two int64 values congruent modulo 2^64 are equal. */
  lemma CongruentInt64sEqual(a: int64, b: int64)
    requires (a as int - b as int) % TWO_64 == 0
    ensures a == b
  {
  }

  /**
   * `(*big.Int).Int64`: the low 64 bits of the magnitude, read as an int64 and
   * negated (with Go's wrap-around) when the number is negative. This is the
   * number reduced modulo 2^64 into the int64 range.
   */
  function BigIntInt64(x: int): (r: int64)
    ensures (r as int - x) % TWO_64 == 0
  {
    var magnitude := if x < 0 then -x else x;
    var low := Int64OfUint64((magnitude % TWO_64) as uint64);
    assert (low as int - magnitude) % TWO_64 == 0 by {
      var q := magnitude / TWO_64;
      assert magnitude == q * TWO_64 + magnitude % TWO_64;
      var c := if low as int == magnitude % TWO_64 then 0 else -1;
      assert low as int - magnitude == (c - q) * TWO_64;
      MultipleOfTwo64(c - q);
    }
    if x < 0 then
      var r := NegateInt64(low);
      assert (r as int - x) % TWO_64 == 0 by {
        var a := (r as int + low as int) / TWO_64;
        var b := (low as int - magnitude) / TWO_64;
        assert r as int + low as int == a * TWO_64;
        assert low as int - magnitude == b * TWO_64;
        assert r as int - x == (a - b) * TWO_64;
        MultipleOfTwo64(a - b);
      }
      r
    else
      low
  }

  /** A number in the int64 range is converted exactly. */
  lemma BigIntInt64Exact(x: int)
    requires -TWO_63 <= x < TWO_63
    ensures BigIntInt64(x) as int == x
  {
  }

  /**
   * The number I128ToInt64 builds before truncating: Hi shifted left by 64
   * plus `int64(Lo)`. Because Lo is read as signed, this is the 128-bit value
   * when Lo < 2^63 and the 128-bit value minus 2^64 otherwise.
   */
  function I128Intermediate(p: Int128Parts): (v: int)
    ensures v == if p.lo as int < TWO_63 then I128Value(p) else I128Value(p) - TWO_64
  {
    p.hi as int * TWO_64 + Int64OfUint64(p.lo) as int
  }

  /**
   * I128ToInt64: the intermediate, truncated to int64. The result is the low
   * half read as signed, so the high half has no effect; it is the 128-bit
   * value exactly whenever that value fits in an int64.
   */
  function I128ToInt64(p: Int128Parts): (r: int64)
    ensures r == Int64OfUint64(p.lo)
    ensures -TWO_63 <= I128Value(p) < TWO_63 ==> r as int == I128Value(p)
  {
    var r := BigIntInt64(I128Intermediate(p));
    assert r == Int64OfUint64(p.lo) by {
      var v := I128Intermediate(p);
      var l := Int64OfUint64(p.lo);
      assert v - l as int == p.hi as int * TWO_64;
      var q := (r as int - v) / TWO_64;
      assert r as int - v == q * TWO_64;
      assert r as int - l as int == (q + p.hi as int) * TWO_64;
      MultipleOfTwo64(q + p.hi as int);
      CongruentInt64sEqual(r, l);
    }
    r
  }

  /** Hi = 0, Lo = 12345 gives 12345. */
  lemma I128ToInt64SmallPositive()
    ensures I128ToInt64(Int128Parts(0, 12345)) == 12345
  {
  }

  /** Hi = 1, Lo = 0 stands for 2^64, which is truncated to 0. */
  lemma I128ToInt64DropsHigh()
    ensures I128Value(Int128Parts(1, 0)) == TWO_64
    ensures I128ToInt64(Int128Parts(1, 0)) == 0
  {
  }

  /** Hi = -1, Lo = 2^64 - 1 stands for -1 and gives -1. */
  lemma I128ToInt64MinusOne()
    ensures I128Value(Int128Parts(-1, 0xFFFF_FFFF_FFFF_FFFF)) == -1
    ensures I128ToInt64(Int128Parts(-1, 0xFFFF_FFFF_FFFF_FFFF)) == -1
  {
  }
}
