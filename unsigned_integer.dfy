/**
 * Fixed-width unsigned integers (`src/encoding/unsigned_integer.rs`): a
 * declared count of 1 to 16 big-endian bytes, returned in the narrowest of
 * the u8, u16, u32, u64 and u128 containers that the count fits.
 */
module UnsignedInteger {
  import opened Bytes
  import opened Errors
  import opened Stream

  type u16 = x: nat | x < 0x1_0000
  type u32 = x: nat | x < 0x1_0000_0000

  datatype UnsignedInteger =
    | U8(u8: Byte)
    | U16(u16: u16)
    | U32(u32: u32)
    | U64(u64: U64)
    | U128(u128: U128)
  {
    /** The number the container holds, whatever its width. */
    function Value(): nat
    {
      match this
      case U8(v) => v
      case U16(v) => v
      case U32(v) => v
      case U64(v) => v
      case U128(v) => v
    }
  }

  /** The container `read_unsigned_integer` picks for `length` bytes holding `v`. */
  function Widen(v: nat, length: nat): (r: UnsignedInteger)
    requires 1 <= length <= 16 && v < Pow2(8 * length)
  {
    Pow2Fits(8 * length);
    if length == 1 then U8(v)
    else if length == 2 then U16(v)
    else if length <= 4 then U32(v)
    else if length <= 8 then U64(v)
    else U128(v)
  }

  /** What `read_unsigned_integer(buf, length)` yields for the bytes `s` at the cursor. */
  function DecodeUnsigned(s: seq<Byte>, length: Byte): Result<Decoded<UnsignedInteger>, Error>
  {
    if length == 0 || length > 16 then Failure(Decoding("unsigned_integer"))
    else if |s| < length then Failure(Io(UnexpectedEof))
    else
      BeValueBound(s[..length]);
      Success(Decoded(Widen(BeValue(s[..length]), length), length))
  }

  method ReadUnsignedInteger(buf: Cursor, length: Byte) returns (r: Result<UnsignedInteger, Error>)
    modifies buf
    ensures Matches(r, DecodeUnsigned(Rest(buf.data, old(buf.pos)), length), old(buf.pos), buf.pos, |buf.data|)
  {
    ghost var s := Rest(buf.data, buf.pos);
    Decodes(s, length);
    if length == 1 {
      var b :- buf.ReadU8();
      assert s[..1] == [b];
      assert BeValue([b]) == b by { assert [b][..0] == []; }
      r := Success(U8(b));
    } else if length == 2 {
      var bytes :- buf.ReadExact(2);
      BeValueBound(bytes);
      Pow2Fits(16);
      r := Success(U16(BeValue(bytes)));
    } else if 3 <= length <= 4 {
      var bytes :- buf.ReadExact(length);
      BeValueBound(bytes);
      Pow2Fits(8 * length);
      // The `try_into` of the source cannot fail: four bytes always fit a u32.
      r := Success(U32(BeValue(bytes)));
    } else if 5 <= length <= 8 {
      var bytes :- buf.ReadExact(length);
      BeValueBound(bytes);
      Pow2Fits(8 * length);
      r := Success(U64(BeValue(bytes)));
    } else if 9 <= length <= 16 {
      var bytes := ReadEach(buf, length);
      if bytes.Failure? {
        return Failure(bytes.error);
      }
      BytesBitsValue(bytes.value);
      BeValueBound(bytes.value);
      Pow2Fits(8 * length);
      r := Success(U128(BitsValue(BytesBits(bytes.value))));
    } else {
      r := Failure(Decoding("unsigned_integer"));
    }
  }

  // ---------------------------------------------------------------------
  // Properties

  /**
   * A length outside 1..16 is refused before anything is read; otherwise
   * the result is the big-endian value of exactly `length` bytes, in the
   * container the length selects, or an I/O error when fewer bytes remain.
   */
  lemma Decodes(s: seq<Byte>, length: Byte)
    ensures !(1 <= length <= 16) ==> DecodeUnsigned(s, length) == Failure(Decoding("unsigned_integer"))
    ensures 1 <= length <= 16 && |s| < length ==> DecodeUnsigned(s, length) == Failure(Io(UnexpectedEof))
    ensures 1 <= length <= 16 && |s| >= length ==>
      var r := DecodeUnsigned(s, length);
      r.Success? && r.value.size == length &&
      r.value.value.Value() == BeValue(s[..length]) < Pow2(8 * length) &&
      (r.value.value.U8? <==> length == 1) &&
      (r.value.value.U16? <==> length == 2) &&
      (r.value.value.U32? <==> 3 <= length <= 4) &&
      (r.value.value.U64? <==> 5 <= length <= 8) &&
      (r.value.value.U128? <==> 9 <= length <= 16)
  {
    if 1 <= length <= 16 && |s| >= length {
      BeValueBound(s[..length]);
    }
  }

  /** `length` bytes of `0xFF` are the largest value of that many bytes, so the container's maximum at 1, 2, 4, 8 and 16. */
  lemma AllOnes(n: Byte, rest: seq<Byte>)
    requires 1 <= n <= 16
    ensures DecodeUnsigned(seq(n, _ => 0xFF) + rest, n).value.value.Value() == Pow2(8 * n) - 1
    ensures n == 1 ==> DecodeUnsigned(seq(n, _ => 0xFF) + rest, n).value.value == U8(0xFF)
    ensures n == 2 ==> DecodeUnsigned(seq(n, _ => 0xFF) + rest, n).value.value == U16(0xFFFF)
    ensures n == 4 ==> DecodeUnsigned(seq(n, _ => 0xFF) + rest, n).value.value == U32(0xFFFF_FFFF)
    ensures n == 8 ==> DecodeUnsigned(seq(n, _ => 0xFF) + rest, n).value.value == U64(TWO_64 - 1)
    ensures n == 16 ==> DecodeUnsigned(seq(n, _ => 0xFF) + rest, n).value.value == U128(U128_MAX)
  {
    var s: seq<Byte> := seq(n, _ => 0xFF) + rest;
    assert s[..n] == seq(n, _ => 0xFF);
    AllOnesValue(n);
    Decodes(s, n);
    Pow2Values();
  }

  /** Every value of `n` bytes round-trips through its big-endian form. */
  lemma RoundTrip(v: nat, n: Byte, rest: seq<Byte>)
    requires 1 <= n <= 16 && v < Pow2(8 * n)
    ensures DecodeUnsigned(BeBytes(v, n) + rest, n) == Success(Decoded(Widen(v, n), n))
  {
    assert (BeBytes(v, n) + rest)[..n] == BeBytes(v, n);
    BeBytesValue(v, n);
  }

  /** The source's error test vectors. */
  lemma ErrorExamples()
    ensures DecodeUnsigned([], 2) == Failure(Io(UnexpectedEof))
    ensures DecodeUnsigned([0x81], 2) == Failure(Io(UnexpectedEof))
    ensures DecodeUnsigned(seq(16, i => i), 17) == Failure(Decoding("unsigned_integer"))
    ensures DecodeUnsigned([0x00], 0) == Failure(Decoding("unsigned_integer"))
  {
  }
}
