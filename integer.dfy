/**
 * Fixed-width signed integers (`src/encoding/integer.rs`): a declared count
 * of 1 to 16 big-endian bytes, returned in the narrowest of the i8, i16,
 * i32, i64 and i128 containers that the count fits. Up to eight bytes are
 * read as two's complement; nine to sixteen bytes go through a bit vector
 * whose first bit is moved to bit 127 of an i128.
 */
module Integer {
  import opened Bytes
  import opened Errors
  import opened Stream

  type i8 = x: int | -0x80 <= x < 0x80
  type i16 = x: int | -0x8000 <= x < 0x8000
  type i32 = x: int | -0x8000_0000 <= x < 0x8000_0000
  type i64 = x: int | -0x8000_0000_0000_0000 <= x < 0x8000_0000_0000_0000
  type i128 = x: int | -0x8000_0000_0000_0000_0000_0000_0000_0000 <= x < 0x8000_0000_0000_0000_0000_0000_0000_0000

  datatype Integer =
    | I8(i8: i8)
    | I16(i16: i16)
    | I32(i32: i32)
    | I64(i64: i64)
    | I128(i128: i128)
  {
    /** The number the container holds, whatever its width. */
    function Value(): int
    {
      match this
      case I8(v) => v
      case I16(v) => v
      case I32(v) => v
      case I64(v) => v
      case I128(v) => v
    }
  }

  /** The two's-complement value of a bit string: its first bit weighs `-2^(width - 1)` (`load_be` into a signed integer). */
  function SignedBits(bits: seq<bool>): int
    requires bits != []
  {
    if bits[0] then BitsValue(bits) - Pow2(|bits|) else BitsValue(bits)
  }

  /** The big-endian two's-complement value of a byte string (`read_i8`, `read_i16` and `read_int` of byteorder). */
  function SignedBytes(s: seq<Byte>): int
    requires s != []
  {
    if s[0] >= 0x80 then BeValue(s) - Pow2(8 * |s|) else BeValue(s)
  }

  /** The 128 bits the 9..16-byte arm hands to `load_be`: the first input bit at the top, zeros, then the other input bits. */
  function Relocated(bits: seq<bool>): (r: seq<bool>)
    requires 1 <= |bits| <= 128
    ensures |r| == 128
  {
    [bits[0]] + Zeros(128 - |bits|) + bits[1..]
  }

  /** The number `read_integer` makes of exactly `|s|` bytes. */
  function SignedValue(s: seq<Byte>): int
    requires 1 <= |s| <= 16
  {
    if |s| <= 8 then SignedBytes(s) else SignedBits(Relocated(BytesBits(s)))
  }

  /** Half the range of the container `read_integer` picks for `length` bytes: it holds `-Bound .. Bound - 1`. */
  function Bound(length: nat): nat
  {
    if length == 1 then 0x80
    else if length == 2 then 0x8000
    else if length <= 4 then 0x8000_0000
    else if length <= 8 then 0x8000_0000_0000_0000
    else 0x8000_0000_0000_0000_0000_0000_0000_0000
  }

  /** `v` in the container `read_integer` picks for `length` bytes. */
  function Narrow(v: int, length: nat): Integer
    requires 1 <= length <= 16 && -(Bound(length) as int) <= v < Bound(length)
  {
    if length == 1 then I8(v)
    else if length == 2 then I16(v)
    else if length <= 4 then I32(v)
    else if length <= 8 then I64(v)
    else I128(v)
  }

  /** `n` bytes of two's complement fit the container for `n` bytes, exactly at 1, 2, 4, 8 and 16 bytes. */
  lemma BoundCovers(n: nat)
    requires 1 <= n <= 16
    ensures Pow2(8 * n - 1) <= Bound(n)
    ensures n == 1 || n == 2 || n == 4 || n == 8 || n == 16 ==> Pow2(8 * n - 1) == Bound(n)
  {
    if n == 1 {
      assert Pow2(7) == 0x80 by { Pow2Values(); }
    } else if n == 2 {
      assert Pow2(15) == 0x8000 by { Pow2Values(); }
    } else if n <= 4 {
      assert Pow2(31) == 0x8000_0000 by { Pow2Values(); }
      Pow2Monotone(8 * n - 1, 31);
    } else if n <= 8 {
      assert Pow2(63) == 0x8000_0000_0000_0000 by { Pow2Values(); }
      Pow2Monotone(8 * n - 1, 63);
    } else {
      assert Pow2(127) == 0x8000_0000_0000_0000_0000_0000_0000_0000 by { Pow2Values(); }
      Pow2Monotone(8 * n - 1, 127);
    }
  }

  /** What `read_integer(buf, length)` yields for the bytes `s` at the cursor. */
  function DecodeInteger(s: seq<Byte>, length: Byte): Result<Decoded<Integer>, Error>
  {
    if length == 0 || length > 16 then Failure(Decoding("integer"))
    else if |s| < length then Failure(Io(UnexpectedEof))
    else
      SignedValueRange(s[..length]);
      Success(Decoded(Narrow(SignedValue(s[..length]), length), length))
  }

  method ReadInteger(buf: Cursor, length: Byte) returns (r: Result<Integer, Error>)
    modifies buf
    ensures Matches(r, DecodeInteger(Rest(buf.data, old(buf.pos)), length), old(buf.pos), buf.pos, |buf.data|)
  {
    ghost var s := Rest(buf.data, buf.pos);
    Decodes(s, length);
    if length == 1 {
      var v :- ReadInt(buf, 1);
      BoundCovers(1);
      r := Success(I8(v));
    } else if length == 2 {
      var v :- ReadInt(buf, 2);
      BoundCovers(2);
      r := Success(I16(v));
    } else if 3 <= length <= 4 {
      var v :- ReadInt(buf, length);
      BoundCovers(length);
      // The `try_into` of the source cannot fail: four bytes of two's complement always fit an i32.
      r := Success(I32(v));
    } else if 5 <= length <= 8 {
      var v :- ReadInt(buf, length);
      r := Success(I64(v));
    } else if 9 <= length <= 16 {
      var read := ReadEach(buf, length);
      if read.Failure? {
        return Failure(read.error);
      }
      var bits := MoveSignBit(read.value);
      SignedValueRange(read.value);
      r := Success(I128(SignedBits(bits)));
    } else {
      r := Failure(Decoding("integer"));
    }
  }

  /** byteorder's `read_i8`, `read_i16` and `read_int` (big-endian): `n` bytes read as two's complement into an i64. */
  method ReadInt(buf: Cursor, n: nat) returns (r: Result<i64, Error>)
    requires 1 <= n <= 8
    modifies buf
    ensures n <= |Rest(buf.data, old(buf.pos))| ==>
      r == Success(SignedBytes(Rest(buf.data, old(buf.pos))[..n])) && buf.pos == old(buf.pos) + n
    ensures n > |Rest(buf.data, old(buf.pos))| ==> r == Failure(Io(UnexpectedEof)) && buf.pos == |buf.data|
    ensures r.Success? ==> -(Pow2(8 * n - 1) as int) <= r.value < Pow2(8 * n - 1)
  {
    var bytes :- buf.ReadExact(n);
    SignedBytesRange(bytes);
    BoundCovers(n);
    r := Success(SignedBytes(bytes));
  }

  /** The bit work of the 9..16-byte arm: clear the first bit, pad with zeros at the front to 128 bits, set the first bit again. */
  method MoveSignBit(bytes: seq<Byte>) returns (bits: seq<bool>)
    requires 1 <= |bytes| <= 16
    ensures bits == Relocated(BytesBits(bytes))
  {
    bits := BytesBits(bytes);
    ghost var initial := bits;
    var isNegative := bits[0];
    if isNegative {
      bits := bits[0 := false];
    }
    ghost var cleared := bits;
    for k := 8 * |bytes| to 128
      invariant bits == Zeros(k - |initial|) + cleared
    {
      assert [false] + Zeros(k - |initial|) == Zeros(k + 1 - |initial|);
      bits := [false] + bits;
    }
    if isNegative {
      bits := bits[0 := true];
    }
    Relocation(initial, cleared, bits);
  }

  /** The steps of the 9..16-byte arm build the relocated bits. */
  lemma Relocation(initial: seq<bool>, cleared: seq<bool>, bits: seq<bool>)
    requires 1 <= |initial| <= 128
    requires cleared == if initial[0] then initial[0 := false] else initial
    requires var padded := Zeros(128 - |initial|) + cleared;
      bits == if initial[0] then padded[0 := true] else padded
    ensures bits == Relocated(initial)
  {
    var k := 128 - |initial|;
    assert cleared == [false] + initial[1..];
    assert Zeros(k) + cleared == [false] + Zeros(k) + initial[1..];
  }

  // ---------------------------------------------------------------------
  // Properties

  /** A bit string's two's-complement value is negative exactly when its first bit is set, and lies in the signed range of its width. */
  lemma SignedBitsRange(bits: seq<bool>)
    requires bits != []
    ensures SignedBits(bits) < 0 <==> bits[0]
    ensures -(Pow2(|bits| - 1) as int) <= SignedBits(bits) < Pow2(|bits| - 1)
  {
    FirstBit(bits);
    BitsValueBound(bits);
    assert Pow2(|bits|) == 2 * Pow2(|bits| - 1);
  }

  /** Reading the bits of a byte string as two's complement gives the two's complement of the bytes. */
  lemma SignedBytesBits(s: seq<Byte>)
    requires s != []
    ensures SignedBits(BytesBits(s)) == SignedBytes(s)
  {
    BytesBitsValue(s);
    FirstByteSign(s);
  }

  /** The two's complement of `n` bytes is negative exactly when the first byte is 0x80 or more, and lies in `-2^(8n-1) .. 2^(8n-1)`. */
  lemma SignedBytesRange(s: seq<Byte>)
    requires s != []
    ensures SignedBytes(s) < 0 <==> s[0] >= 0x80
    ensures -(Pow2(8 * |s| - 1) as int) <= SignedBytes(s) < Pow2(8 * |s| - 1)
  {
    SignedBytesBits(s);
    SignedBitsRange(BytesBits(s));
    FirstByteSign(s);
  }

  /**
   * The relocated value: the bytes' unsigned value when the first bit is
   * clear; otherwise that value with the first bit's weight `2^(8n-1)`
   * removed and `-2^127` put in its place.
   */
  lemma RelocatedValue(s: seq<Byte>)
    requires 1 <= |s| <= 16
    ensures SignedBits(Relocated(BytesBits(s))) ==
      if s[0] >= 0x80 then BeValue(s) - Pow2(8 * |s| - 1) - Pow2(127) else BeValue(s)
  {
    RelocatedUnsigned(BytesBits(s));
    FirstBitSplit(s);
    FirstByteSign(s);
    assert Pow2(128) == 2 * Pow2(127);
  }

  /** Read unsigned, the relocated bits weigh the first input bit `2^127` and keep the others' weights. */
  lemma RelocatedUnsigned(bits: seq<bool>)
    requires 1 <= |bits| <= 128
    ensures BitsValue(Relocated(bits)) == (if bits[0] then Pow2(127) else 0) + BitsValue(bits[1..])
  {
    var k := 128 - |bits|;
    var tail := bits[1..];
    PaddedBitValue(bits[0], k, tail);
    assert k + |tail| == 127;
    assert BitsValue(Relocated(bits)) == BitsValue([bits[0]] + Zeros(k) + tail);
  }

  /** The bytes' unsigned value splits into the first bit's weight `2^(8n-1)` and the value of the other bits. */
  lemma FirstBitSplit(s: seq<Byte>)
    requires s != []
    ensures var b := BytesBits(s);
      BeValue(s) == (if b[0] then Pow2(8 * |s| - 1) else 0) + BitsValue(b[1..])
  {
    FirstBitWeight(BytesBits(s));
    BytesBitsValue(s);
  }

  lemma SignedValueRange(s: seq<Byte>)
    requires 1 <= |s| <= 16
    ensures SignedValue(s) < 0 <==> s[0] >= 0x80
    ensures -(Bound(|s|) as int) <= SignedValue(s) < Bound(|s|)
  {
    if |s| <= 8 {
      SignedBytesRange(s);
      BoundCovers(|s|);
    } else {
      SignedBitsRange(Relocated(BytesBits(s)));
      FirstByteSign(s);
      BoundCovers(16);
    }
  }

  /**
   * A length outside 1..16 is refused before anything is read; otherwise
   * exactly `length` bytes are consumed, or an I/O error reported when fewer
   * remain, and the container follows the length. The result is negative
   * exactly when the first bit read is set.
   */
  lemma Decodes(s: seq<Byte>, length: Byte)
    ensures !(1 <= length <= 16) ==> DecodeInteger(s, length) == Failure(Decoding("integer"))
    ensures 1 <= length <= 16 && |s| < length ==> DecodeInteger(s, length) == Failure(Io(UnexpectedEof))
    ensures 1 <= length <= 16 && |s| >= length ==>
      var r := DecodeInteger(s, length);
      r.Success? && r.value.size == length &&
      r.value.value.Value() == SignedValue(s[..length]) &&
      (r.value.value.Value() < 0 <==> s[0] >= 0x80) &&
      -(Bound(length) as int) <= r.value.value.Value() < Bound(length) &&
      (r.value.value.I8? <==> length == 1) &&
      (r.value.value.I16? <==> length == 2) &&
      (r.value.value.I32? <==> 3 <= length <= 4) &&
      (r.value.value.I64? <==> 5 <= length <= 8) &&
      (r.value.value.I128? <==> 9 <= length <= 16)
  {
    if 1 <= length <= 16 && |s| >= length {
      SignedValueRange(s[..length]);
    }
  }

  /** Up to eight bytes, and at sixteen, the result is the bytes' big-endian two's complement. */
  lemma TwosComplement(s: seq<Byte>, length: Byte)
    requires (1 <= length <= 8 || length == 16) && |s| >= length
    ensures DecodeInteger(s, length).value.value.Value() == SignedBytes(s[..length])
  {
    if length == 16 {
      RelocatedValue(s[..length]);
      assert Pow2(128) == 2 * Pow2(127);
    }
  }

  /**
   * From nine to sixteen bytes the first bit read becomes bit 127 and the
   * other `8 * length - 1` bits keep their weights, with zeros between.
   */
  lemma SignBitMoved(s: seq<Byte>, length: Byte)
    requires 9 <= length <= 16 && |s| >= length
    ensures var v := DecodeInteger(s, length).value.value.Value();
      var rest := BeValue(s[..length]) - (if s[0] >= 0x80 then Pow2(8 * length - 1) else 0);
      0 <= rest < Pow2(8 * length - 1) &&
      v == (if s[0] >= 0x80 then rest - Pow2(127) else rest)
  {
    RelocatedValue(s[..length]);
    BeValueBound(s[..length]);
    FirstByteSign(s[..length]);
    assert Pow2(8 * length) == 2 * Pow2(8 * length - 1);
  }

  /**
   * From nine to fifteen bytes this is not sign extension: nine 0xFF bytes,
   * -1 in two's complement, decode to `-2^127 + 2^71 - 1`.
   */
  lemma NineOnes()
    ensures DecodeInteger(seq(9, _ => 0xFF), 9) ==
      Success(Decoded(I128(-0x8000_0000_0000_0000_0000_0000_0000_0000 + 0x7F_FFFF_FFFF_FFFF_FFFF), 9))
    ensures SignedBytes(seq(9, _ => 0xFF)) == -1
    ensures DecodeIntegerExtended(seq(9, _ => 0xFF), 9) == Success(Decoded(I128(-1), 9))
  {
    var s: seq<Byte> := seq(9, _ => 0xFF);
    assert s[..9] == s;
    AllOnesValue(9);
    RelocatedValue(s);
    Pow2Values();
    Pow2Add(64, 8);
    Pow2Add(64, 7);
    assert Pow2(7) == 0x80 && Pow2(8) == 0x100;
  }

  /** The two's-complement bytes a producer writes for `v` in `n` bytes. */
  function EncodeSigned(v: int, n: nat): (s: seq<Byte>)
    requires 1 <= n && -(Pow2(8 * n - 1) as int) <= v < Pow2(8 * n - 1)
    ensures |s| == n
  {
    BeBytes(if v < 0 then v + Pow2(8 * n) else v, n)
  }

  lemma SignedBytesRoundTrip(v: int, n: nat)
    requires 1 <= n && -(Pow2(8 * n - 1) as int) <= v < Pow2(8 * n - 1)
    ensures SignedBytes(EncodeSigned(v, n)) == v
  {
    var u: nat := if v < 0 then v + Pow2(8 * n) else v;
    assert Pow2(8 * n) == 2 * Pow2(8 * n - 1);
    BeBytesValue(u, n);
    FirstByteSign(BeBytes(u, n));
  }

  /** Every value of `n` bytes round-trips through its two's complement, for the widths where the source reads two's complement. */
  lemma RoundTrip(v: int, n: Byte, rest: seq<Byte>)
    requires (1 <= n <= 8 || n == 16) && -(Pow2(8 * n - 1) as int) <= v < Pow2(8 * n - 1)
    ensures DecodeInteger(EncodeSigned(v, n) + rest, n).Success?
    ensures DecodeInteger(EncodeSigned(v, n) + rest, n).value == Decoded(DecodeInteger(EncodeSigned(v, n) + rest, n).value.value, n)
    ensures DecodeInteger(EncodeSigned(v, n) + rest, n).value.value.Value() == v
  {
    var s := EncodeSigned(v, n) + rest;
    assert s[..n] == EncodeSigned(v, n);
    Decodes(s, n);
    TwosComplement(s, n);
    SignedBytesRoundTrip(v, n);
  }

  // ---------------------------------------------------------------------
  // Sign extension, as the nine- to fifteen-byte arm evidently intends

  /** `read_integer` with every width read as two's complement, so that the i128 holds the value the bytes encode. */
  function DecodeIntegerExtended(s: seq<Byte>, length: Byte): (r: Result<Decoded<Integer>, Error>)
    ensures !(1 <= length <= 16) ==> r == Failure(Decoding("integer"))
    ensures 1 <= length <= 16 && |s| < length ==> r == Failure(Io(UnexpectedEof))
    ensures 1 <= length <= 16 && |s| >= length ==>
      r.Success? && r.value.size == length && r.value.value.Value() == SignedBytes(s[..length])
  {
    if length == 0 || length > 16 then Failure(Decoding("integer"))
    else if |s| < length then Failure(Io(UnexpectedEof))
    else
      SignedBytesRange(s[..length]);
      BoundCovers(length);
      Success(Decoded(Narrow(SignedBytes(s[..length]), length), length))
  }

  /** With sign extension every width round-trips, nine to fifteen bytes included. */
  lemma ExtendedRoundTrip(v: int, n: Byte, rest: seq<Byte>)
    requires 1 <= n <= 16 && -(Pow2(8 * n - 1) as int) <= v < Pow2(8 * n - 1)
    ensures DecodeIntegerExtended(EncodeSigned(v, n) + rest, n).Success?
    ensures DecodeIntegerExtended(EncodeSigned(v, n) + rest, n).value.size == n
    ensures DecodeIntegerExtended(EncodeSigned(v, n) + rest, n).value.value.Value() == v
  {
    var s := EncodeSigned(v, n) + rest;
    assert s[..n] == EncodeSigned(v, n);
    SignedBytesRoundTrip(v, n);
  }

  /** Where the source reads two's complement, the sign-extending decoder gives the same result. */
  lemma ExtendedAgrees(s: seq<Byte>, length: Byte)
    requires 1 <= length <= 8 || length == 16
    ensures DecodeIntegerExtended(s, length) == DecodeInteger(s, length)
  {
    if |s| >= length {
      TwosComplement(s, length);
    }
  }

  /**
   * From nine to fifteen bytes the source agrees with sign extension exactly
   * on the non-negative inputs: every input with its first bit set decodes to
   * a different number.
   */
  lemma SignLost(s: seq<Byte>, length: Byte)
    requires 9 <= length <= 15 && |s| >= length
    ensures DecodeInteger(s, length) == DecodeIntegerExtended(s, length) <==> s[0] < 0x80
  {
    var b := s[..length];
    var asWritten := DecodeInteger(s, length).value.value.Value();
    var extended := DecodeIntegerExtended(s, length).value.value.Value();
    assert asWritten == extended <==> s[0] < 0x80 by {
      SignBitMoved(s, length);
      SignedBytesRange(b);
      var w := Pow2(8 * length - 1);
      assert w <= Pow2(119) by { Pow2Monotone(8 * length - 1, 119); }
      assert Pow2(127) == 0x100 * Pow2(119) by { Pow2Add(8, 119); Pow2Values(); }
    }
  }

  /** `[0x80, 0, ...]` and `[0x7F, 0xFF, ...]` of `n` bytes are the two's-complement minimum and maximum. */
  lemma Extremes(n: nat)
    requires 1 <= n
    ensures SignedBytes([0x80] + seq(n - 1, _ => 0x00)) == -(Pow2(8 * n - 1) as int)
    ensures SignedBytes([0x7F] + seq(n - 1, _ => 0xFF)) == Pow2(8 * n - 1) - 1
    ensures SignedBytes(seq(n, _ => 0x00)) == 0
  {
    MinPattern(n);
    MaxPattern(n);
    ZeroBytesValue(n);
  }

  /** The smallest pattern: a set sign bit over zeros. */
  lemma MinPattern(n: nat)
    requires 1 <= n
    ensures SignedBytes([0x80] + seq(n - 1, _ => 0x00)) == -(Pow2(8 * n - 1) as int)
  {
    var zeros: seq<Byte> := seq(n - 1, _ => 0x00);
    SignedLeading(0x80, zeros);
    LeadingByteValue(0x80, zeros, Pow2(8 * (n - 1)));
    ZeroBytesValue(n - 1);
    TopBitWeight(n - 1);
  }

  /** The largest pattern: a clear sign bit over ones. */
  lemma MaxPattern(n: nat)
    requires 1 <= n
    ensures SignedBytes([0x7F] + seq(n - 1, _ => 0xFF)) == Pow2(8 * n - 1) - 1
  {
    var ones: seq<Byte> := seq(n - 1, _ => 0xFF);
    SignedLeading(0x7F, ones);
    LeadingByteValue(0x7F, ones, Pow2(8 * (n - 1)));
    AllOnesValue(n - 1);
    TopBitWeight(n - 1);
  }

  /** A byte string with its leading byte split off is negative exactly when that byte has its top bit set. */
  lemma SignedLeading(b: Byte, rest: seq<Byte>)
    ensures SignedBytes([b] + rest)
      == if b >= 0x80 then BeValue([b] + rest) - 0x100 * Pow2(8 * |rest|) else BeValue([b] + rest)
  {
    var s := [b] + rest;
    assert s[0] == b && |s| == |rest| + 1;
    Pow2Byte(|rest|);
  }

  /** A leading byte weighs `p`, the place value of the bytes after it. */
  lemma LeadingByteValue(b: Byte, rest: seq<Byte>, p: nat)
    requires p == Pow2(8 * |rest|)
    ensures BeValue([b] + rest) == b * p + BeValue(rest)
  {
    BeValueAppend([b], rest);
    BeValueSingle(b);
  }

  /** At 1, 2, 4, 8 and 16 bytes the extreme patterns decode to the container's minimum, maximum and zero. */
  lemma ExtremeDecodes(n: Byte, rest: seq<Byte>)
    requires n == 1 || n == 2 || n == 4 || n == 8 || n == 16
    ensures var lo := DecodeInteger([0x80] + seq(n - 1, _ => 0x00) + rest, n);
      lo.Success? && lo.value.size == n && lo.value.value.Value() == -(Bound(n) as int)
    ensures var hi := DecodeInteger([0x7F] + seq(n - 1, _ => 0xFF) + rest, n);
      hi.Success? && hi.value.size == n && hi.value.value.Value() == Bound(n) - 1
    ensures var zero := DecodeInteger(seq(n, _ => 0x00) + rest, n);
      zero.Success? && zero.value.size == n && zero.value.value.Value() == 0
  {
    var lo: seq<Byte> := [0x80] + seq(n - 1, _ => 0x00);
    var hi: seq<Byte> := [0x7F] + seq(n - 1, _ => 0xFF);
    var zero: seq<Byte> := seq(n, _ => 0x00);
    assert (lo + rest)[..n] == lo;
    assert (hi + rest)[..n] == hi;
    assert (zero + rest)[..n] == zero;
    Extremes(n);
    BoundCovers(n);
    TwosComplement(lo + rest, n);
    TwosComplement(hi + rest, n);
    TwosComplement(zero + rest, n);
  }

  /** The source's test vectors for the i8, i16 and i32 containers. */
  lemma NarrowExamples()
    ensures DecodeInteger([0x00], 1) == Success(Decoded(I8(0), 1))
    ensures DecodeInteger([0x80], 1) == Success(Decoded(I8(-0x80), 1))
    ensures DecodeInteger([0x7F], 1) == Success(Decoded(I8(0x7F), 1))
    ensures DecodeInteger([0x00, 0x00], 2) == Success(Decoded(I16(0), 2))
    ensures DecodeInteger([0x80, 0x00], 2) == Success(Decoded(I16(-0x8000), 2))
    ensures DecodeInteger([0x7F, 0xFF], 2) == Success(Decoded(I16(0x7FFF), 2))
    ensures DecodeInteger([0x00, 0x00, 0x00, 0x00], 4) == Success(Decoded(I32(0), 4))
    ensures DecodeInteger([0x80, 0x00, 0x00, 0x00], 4) == Success(Decoded(I32(-0x8000_0000), 4))
    ensures DecodeInteger([0x7F, 0xFF, 0xFF, 0xFF], 4) == Success(Decoded(I32(0x7FFF_FFFF), 4))
  {
    ExtremeDecodesAt(1, [0x00], [0x80], [0x7F]);
    ExtremeDecodesAt(2, [0x00, 0x00], [0x80, 0x00], [0x7F, 0xFF]);
    ExtremeDecodesAt(4, [0x00, 0x00, 0x00, 0x00], [0x80, 0x00, 0x00, 0x00], [0x7F, 0xFF, 0xFF, 0xFF]);
  }

  /** The source's test vectors for the i64 and i128 containers. */
  lemma WideExamples()
    ensures DecodeInteger(seq(8, _ => 0x00), 8) == Success(Decoded(I64(0), 8))
    ensures DecodeInteger([0x80] + seq(7, _ => 0x00), 8) == Success(Decoded(I64(-0x8000_0000_0000_0000), 8))
    ensures DecodeInteger([0x7F] + seq(7, _ => 0xFF), 8) == Success(Decoded(I64(0x7FFF_FFFF_FFFF_FFFF), 8))
    ensures DecodeInteger(seq(16, _ => 0x00), 16) == Success(Decoded(I128(0), 16))
    ensures DecodeInteger([0x80] + seq(15, _ => 0x00), 16) ==
      Success(Decoded(I128(-0x8000_0000_0000_0000_0000_0000_0000_0000), 16))
    ensures DecodeInteger([0x7F] + seq(15, _ => 0xFF), 16) ==
      Success(Decoded(I128(0x7FFF_FFFF_FFFF_FFFF_FFFF_FFFF_FFFF_FFFF), 16))
  {
    ExtremeDecodesAt(8, seq(8, _ => 0x00), [0x80] + seq(7, _ => 0x00), [0x7F] + seq(7, _ => 0xFF));
    ExtremeDecodesAt(16, seq(16, _ => 0x00), [0x80] + seq(15, _ => 0x00), [0x7F] + seq(15, _ => 0xFF));
  }

  /** The source's error test vectors. */
  lemma ErrorExamples()
    ensures DecodeInteger([], 2) == Failure(Io(UnexpectedEof))
    ensures DecodeInteger([0x81], 2) == Failure(Io(UnexpectedEof))
    ensures DecodeInteger(seq(16, i => i), 17) == Failure(Decoding("integer"))
    ensures DecodeInteger([0x00], 0) == Failure(Decoding("integer"))
  {
  }

  /** The extreme patterns of one width, given as literal byte strings. */
  lemma ExtremeDecodesAt(n: Byte, zero: seq<Byte>, lo: seq<Byte>, hi: seq<Byte>)
    requires n == 1 || n == 2 || n == 4 || n == 8 || n == 16
    requires zero == seq(n, _ => 0x00)
    requires lo == [0x80] + seq(n - 1, _ => 0x00) && hi == [0x7F] + seq(n - 1, _ => 0xFF)
    ensures DecodeInteger(zero, n) == Success(Decoded(Narrow(0, n), n))
    ensures DecodeInteger(lo, n) == Success(Decoded(Narrow(-(Bound(n) as int), n), n))
    ensures DecodeInteger(hi, n) == Success(Decoded(Narrow(Bound(n) - 1, n), n))
  {
    ExtremeDecodes(n, []);
    assert zero + [] == zero && lo + [] == lo && hi + [] == hi;
    Decodes(zero, n);
    Decodes(lo, n);
    Decodes(hi, n);
  }
}
