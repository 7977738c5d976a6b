/**
 * Bytes, fixed-width integer ranges, and the big-endian meaning of byte and
 * bit strings.  Bit strings are most-significant bit first, as the `Msb0`
 * bit order of the decoders views a byte.
 */
module Bytes {

  type Byte = b: nat | b < 0x100

  const TWO_64: nat := 0x1_0000_0000_0000_0000
  const TWO_128: nat := 0x1_0000_0000_0000_0000_0000_0000_0000_0000

  /** The values of a `u64` and of a `u128`. */
  type U64 = x: nat | x < 0x1_0000_0000_0000_0000
  type U128 = x: nat | x < 0x1_0000_0000_0000_0000_0000_0000_0000_0000

  const U128_MAX: U128 := 0xFFFF_FFFF_FFFF_FFFF_FFFF_FFFF_FFFF_FFFF

  function Pow2(n: nat): (r: nat)
    ensures r > 0
  {
    if n == 0 then 1 else 2 * Pow2(n - 1)
  }

  lemma {:induction false} Pow2Add(a: nat, b: nat)
    ensures Pow2(a + b) == Pow2(a) * Pow2(b)
  {
    if b > 0 {
      Pow2Add(a, b - 1);
      assert Pow2(a + b) == 2 * Pow2(a + b - 1);
    }
  }

  lemma {:induction false} Pow2Monotone(a: nat, b: nat)
    requires a <= b
    ensures Pow2(a) <= Pow2(b)
  {
    if a < b {
      Pow2Monotone(a, b - 1);
    }
  }

  /** The powers of two that name the widths of Rust's integer types. */
  lemma Pow2Values()
    ensures Pow2(7) == 0x80 && Pow2(8) == 0x100
    ensures Pow2(15) == 0x8000 && Pow2(16) == 0x1_0000
    ensures Pow2(31) == 0x8000_0000 && Pow2(32) == 0x1_0000_0000
    ensures Pow2(63) == 0x8000_0000_0000_0000 && Pow2(64) == TWO_64
    ensures Pow2(127) == 0x8000_0000_0000_0000_0000_0000_0000_0000 && Pow2(128) == TWO_128
  {
    assert Pow2(1) == 2;
    assert Pow2(2) == 4;
    assert Pow2(3) == 8;
    assert Pow2(4) == 16;
    assert Pow2(5) == 32;
    assert Pow2(6) == 64;
    assert Pow2(7) == 128;
    assert Pow2(8) == 256;
    Pow2Add(7, 8);
    Pow2Add(8, 8);
    Pow2Add(15, 16);
    Pow2Add(16, 16);
    Pow2Add(31, 32);
    Pow2Add(32, 32);
    Pow2Add(63, 64);
    Pow2Add(64, 64);
  }

  /** A width of at most 8, 16, 32, 64 or 128 bits fits the unsigned container of that width. */
  lemma Pow2Fits(n: nat)
    ensures n <= 8 ==> Pow2(n) <= 0x100
    ensures n <= 16 ==> Pow2(n) <= 0x1_0000
    ensures n <= 32 ==> Pow2(n) <= 0x1_0000_0000
    ensures n <= 64 ==> Pow2(n) <= TWO_64
    ensures n <= 128 ==> Pow2(n) <= TWO_128
  {
    Pow2Values();
    if n <= 8 { Pow2Monotone(n, 8); }
    if n <= 16 { Pow2Monotone(n, 16); }
    if n <= 32 { Pow2Monotone(n, 32); }
    if n <= 64 { Pow2Monotone(n, 64); }
    if n <= 128 { Pow2Monotone(n, 128); }
  }

  /** One more byte multiplies the range by 0x100. */
  lemma Pow2Byte(k: nat)
    ensures Pow2(8 * (k + 1)) == 0x100 * Pow2(8 * k)
  {
    Pow2Add(8, 8 * k);
    assert Pow2(8) == 0x100 by { Pow2Values(); }
  }

  /** One more base-128 group multiplies the range by 0x80. */
  lemma Pow2Group(k: nat)
    ensures Pow2(7 * (k + 1)) == 0x80 * Pow2(7 * k)
  {
    Pow2Add(7, 7 * k);
    assert Pow2(7) == 0x80 by { Pow2Values(); }
  }

  function Zeros(n: nat): (bits: seq<bool>)
    ensures |bits| == n && forall i :: 0 <= i < n ==> !bits[i]
  {
    seq(n, _ => false)
  }

  // ---------------------------------------------------------------------
  // Bit strings

  /** The unsigned big-endian value of a bit string (`load_be` on a `BitVec<_, Msb0>`). */
  function BitsValue(bits: seq<bool>): nat
  {
    if bits == [] then 0
    else 2 * BitsValue(bits[..|bits| - 1]) + (if bits[|bits| - 1] then 1 else 0)
  }

  /** The low `w` bits of `v`, most-significant first (`view_bits::<Msb0>()`). */
  function NatBits(v: nat, w: nat): (bits: seq<bool>)
    ensures |bits| == w
  {
    if w == 0 then [] else NatBits(v / 2, w - 1) + [v % 2 == 1]
  }

  lemma {:induction false} BitsValueBound(bits: seq<bool>)
    ensures BitsValue(bits) < Pow2(|bits|)
  {
    if bits != [] {
      BitsValueBound(bits[..|bits| - 1]);
    }
  }

  lemma {:induction false} NatBitsValue(v: nat, w: nat)
    requires v < Pow2(w)
    ensures BitsValue(NatBits(v, w)) == v
  {
    if w > 0 {
      NatBitsValue(v / 2, w - 1);
      assert NatBits(v, w)[..w - 1] == NatBits(v / 2, w - 1);
    }
  }

  /** Appending bits shifts the value of the prefix left by the appended width. */
  lemma {:induction false} BitsValueAppend(a: seq<bool>, b: seq<bool>)
    ensures BitsValue(a + b) == BitsValue(a) * Pow2(|b|) + BitsValue(b)
  {
    if b != [] {
      var b' := b[..|b| - 1];
      var c := if b[|b| - 1] then 1 else 0;
      assert (a + b)[..|a + b| - 1] == a + b';
      assert BitsValue(a + b) == 2 * BitsValue(a + b') + c;
      BitsValueAppend(a, b');
      ShiftDistributes(2, BitsValue(a), Pow2(|b'|), BitsValue(b'), c);
    } else {
      assert a + b == a;
    }
  }

  lemma ShiftDistributes(k: nat, x: nat, p: nat, y: nat, c: nat)
    ensures k * (x * p + y) + c == x * (k * p) + (k * y + c)
  {
  }

  /** A leading bit contributes `2^(width of the rest)` exactly when it is set. */
  lemma {:induction false} LeadingBitValue(bit: bool, rest: seq<bool>)
    ensures BitsValue([bit] + rest) == (if bit then Pow2(|rest|) else 0) + BitsValue(rest)
  {
    var s := [bit] + rest;
    if rest == [] {
      assert s[..0] == [];
    } else {
      var rest' := rest[..|rest| - 1];
      assert s[..|s| - 1] == [bit] + rest';
      LeadingBitValue(bit, rest');
    }
  }

  lemma ConcatAssociates<T>(a: seq<T>, b: seq<T>, c: seq<T>)
    ensures a + b + c == a + (b + c)
  {
  }

  /** A leading bit followed by `k` zeros weighs `2^(k + width of the rest)` exactly when it is set. */
  lemma PaddedBitValue(bit: bool, k: nat, rest: seq<bool>)
    ensures BitsValue([bit] + Zeros(k) + rest) == (if bit then Pow2(k + |rest|) else 0) + BitsValue(rest)
  {
    var t := Zeros(k) + rest;
    assert BitsValue(t) == BitsValue(rest) by {
      BitsValueAppend(Zeros(k), rest);
      ZerosValue(k);
    }
    LeadingBitValue(bit, t);
    ConcatAssociates([bit], Zeros(k), rest);
    assert |t| == k + |rest|;
    assert BitsValue([bit] + Zeros(k) + rest) == BitsValue([bit] + t);
  }

  /** A bit string's value is its first bit's weight plus the value of the bits after it. */
  lemma FirstBitWeight(bits: seq<bool>)
    requires bits != []
    ensures BitsValue(bits) == (if bits[0] then Pow2(|bits| - 1) else 0) + BitsValue(bits[1..])
  {
    assert bits == [bits[0]] + bits[1..];
    LeadingBitValue(bits[0], bits[1..]);
  }

  lemma {:induction false} ZerosValue(n: nat)
    ensures BitsValue(Zeros(n)) == 0
  {
    if n > 0 {
      assert Zeros(n)[..n - 1] == Zeros(n - 1);
      ZerosValue(n - 1);
    }
  }

  /** The first bit of a non-empty bit string is set exactly when its value reaches half its range. */
  lemma FirstBit(bits: seq<bool>)
    requires bits != []
    ensures bits[0] <==> BitsValue(bits) >= Pow2(|bits| - 1)
  {
    assert bits == [bits[0]] + bits[1..];
    LeadingBitValue(bits[0], bits[1..]);
    BitsValueBound(bits[1..]);
  }

  /** The number of leading zero bits (`BitSlice::leading_zeros`). */
  function LeadingZeros(bits: seq<bool>): (n: nat)
    ensures n <= |bits|
  {
    if bits == [] || bits[0] then 0 else 1 + LeadingZeros(bits[1..])
  }

  /** The bits left after draining the leading zeros, as `drain(leading_zeros()..len())` does. */
  function Significant(bits: seq<bool>): seq<bool>
  {
    bits[LeadingZeros(bits)..]
  }

  /** Dropping leading zeros keeps the value, and what remains is empty or starts with a one. */
  lemma {:induction false} SignificantValue(bits: seq<bool>)
    ensures BitsValue(Significant(bits)) == BitsValue(bits)
    ensures Significant(bits) == [] || Significant(bits)[0]
  {
    if bits != [] && !bits[0] {
      SignificantValue(bits[1..]);
      assert bits == [false] + bits[1..];
      LeadingBitValue(false, bits[1..]);
      assert Significant(bits) == Significant(bits[1..]);
    }
  }

  /**
   * The width of the significant bits decides the range of the value: none
   * are left exactly when the value is zero, and more than `w` are left exactly
   * when the value needs more than `w` bits.
   */
  lemma SignificantWidth(bits: seq<bool>, w: nat)
    ensures |Significant(bits)| == 0 <==> BitsValue(bits) == 0
    ensures |Significant(bits)| > w <==> BitsValue(bits) >= Pow2(w)
  {
    var s := Significant(bits);
    SignificantValue(bits);
    BitsValueBound(s);
    if s != [] {
      FirstBit(s);
      if |s| > w {
        Pow2Monotone(w, |s| - 1);
      } else {
        Pow2Monotone(|s|, w);
      }
    }
  }

  /** A bit string whose every leading bit is zero has value zero, and conversely. */
  lemma AllZeroBits(bits: seq<bool>)
    ensures LeadingZeros(bits) == |bits| <==> BitsValue(bits) == 0
  {
    SignificantWidth(bits, 0);
  }

  // ---------------------------------------------------------------------
  // Byte strings

  /** The unsigned big-endian value of a byte string. */
  function BeValue(s: seq<Byte>): nat
  {
    if s == [] then 0 else 0x100 * BeValue(s[..|s| - 1]) + s[|s| - 1]
  }

  /** The bits of a byte string, each byte most-significant bit first. */
  function BytesBits(s: seq<Byte>): (bits: seq<bool>)
    ensures |bits| == 8 * |s|
  {
    if s == [] then [] else BytesBits(s[..|s| - 1]) + NatBits(s[|s| - 1], 8)
  }

  /** Reading a byte string's bits big-endian gives the byte string's big-endian value. */
  lemma {:induction false} BytesBitsValue(s: seq<Byte>)
    ensures BitsValue(BytesBits(s)) == BeValue(s)
  {
    if s != [] {
      var init := s[..|s| - 1];
      var last := s[|s| - 1];
      BytesBitsValue(init);
      assert Pow2(8) == 0x100 by { Pow2Values(); }
      BitsValueAppend(BytesBits(init), NatBits(last, 8));
      NatBitsValue(last, 8);
      assert BitsValue(BytesBits(s)) == BitsValue(BytesBits(init)) * 0x100 + last;
    }
  }

  lemma BeValueBound(s: seq<Byte>)
    ensures BeValue(s) < Pow2(8 * |s|)
  {
    BytesBitsValue(s);
    BitsValueBound(BytesBits(s));
  }

  lemma {:induction false} BeValueAppend(a: seq<Byte>, b: seq<Byte>)
    ensures BeValue(a + b) == BeValue(a) * Pow2(8 * |b|) + BeValue(b)
  {
    if b != [] {
      var b' := b[..|b| - 1];
      assert (a + b)[..|a + b| - 1] == a + b';
      assert BeValue(a + b) == 0x100 * BeValue(a + b') + b[|b| - 1];
      BeValueAppend(a, b');
      Pow2Byte(|b'|);
      ShiftDistributes(0x100, BeValue(a), Pow2(8 * |b'|), BeValue(b'), b[|b| - 1]);
    } else {
      assert a + b == a;
    }
  }

  /** The first byte of a byte string is worth `256^(|s|-1)` times its value. */
  lemma BeValueFirst(s: seq<Byte>)
    requires s != []
    ensures BeValue(s) == s[0] * Pow2(8 * (|s| - 1)) + BeValue(s[1..])
  {
    var head := [s[0]];
    assert s == head + s[1..];
    BeValueAppend(head, s[1..]);
    BeValueSingle(s[0]);
  }

  lemma BeValueSingle(b: Byte)
    ensures BeValue([b]) == b
  {
    assert [b][..0] == [];
  }

  lemma MulMonotone(x: nat, y: nat, p: nat)
    requires x <= y
    ensures x * p <= y * p
  {
  }

  /** The most significant bit of a byte string is the top bit of its first byte. */
  lemma FirstByteSign(s: seq<Byte>)
    requires s != []
    ensures BytesBits(s)[0] <==> s[0] >= 0x80
    ensures s[0] >= 0x80 <==> BeValue(s) >= Pow2(8 * |s| - 1)
  {
    BytesBitsValue(s);
    FirstBit(BytesBits(s));
    FirstByteWeight(s);
  }

  lemma FirstByteWeight(s: seq<Byte>)
    requires s != []
    ensures s[0] >= 0x80 <==> BeValue(s) >= Pow2(8 * |s| - 1)
  {
    var n := |s| - 1;
    BeValueFirst(s);
    BeValueBound(s[1..]);
    TopBitWeight(n);
    LeadingDigitScaled(s[0], Pow2(8 * n), BeValue(s[1..]), BeValue(s), Pow2(8 * |s| - 1));
  }

  /** The top bit of an `n + 1`-byte string weighs 0x80 times its last `n` bytes' range. */
  lemma TopBitWeight(n: nat)
    ensures Pow2(8 * (n + 1) - 1) == 0x80 * Pow2(8 * n)
  {
    Pow2Add(7, 8 * n);
    assert Pow2(7) == 0x80 by { Pow2Values(); }
  }

  lemma LeadingDigitScaled(d: nat, p: nat, rest: nat, v: nat, q: nat)
    requires rest < p && v == d * p + rest && q == 0x80 * p
    ensures d >= 0x80 <==> v >= q
  {
    LeadingDigit(d, p, rest, 0x80);
  }

  /** A leading digit `d` of weight `p` reaches `k` exactly when the whole number reaches `k * p`. */
  lemma LeadingDigit(d: nat, p: nat, rest: nat, k: nat)
    requires rest < p
    ensures d >= k <==> d * p + rest >= k * p
  {
    if d >= k {
      MulMonotone(k, d, p);
    } else {
      MulMonotone(d, k - 1, p);
      assert (k - 1) * p + p == k * p;
    }
  }

  /** Leading zero bytes do not change a big-endian value. */
  lemma BeValueLeadingZeros(k: nat, s: seq<Byte>)
    ensures BeValue(seq(k, _ => 0) + s) == BeValue(s)
  {
    var z: seq<Byte> := seq(k, _ => 0);
    BeValueAppend(z, s);
    ZeroBytesValue(k);
  }

  lemma {:induction false} ZeroBytesValue(k: nat)
    ensures BeValue(seq(k, _ => 0)) == 0
  {
    if k > 0 {
      var z: seq<Byte> := seq(k, _ => 0);
      assert z[..k - 1] == seq(k - 1, _ => 0);
      ZeroBytesValue(k - 1);
    }
  }

  /** `n` bytes of `0xFF` are the largest `n`-byte value, `256^n - 1`. */
  lemma {:induction false} AllOnesValue(n: nat)
    ensures BeValue(seq(n, _ => 0xFF)) == Pow2(8 * n) - 1
  {
    if n > 0 {
      var f: seq<Byte> := seq(n, _ => 0xFF);
      assert f[..n - 1] == seq(n - 1, _ => 0xFF);
      AllOnesValue(n - 1);
      Pow2Byte(n - 1);
    }
  }

  /** The last `n` bytes of the big-endian form of `v` (the reference encoding for round trips). */
  function BeBytes(v: nat, n: nat): (s: seq<Byte>)
    ensures |s| == n
  {
    if n == 0 then [] else BeBytes(v / 0x100, n - 1) + [v % 0x100]
  }

  lemma {:induction false} BeBytesValue(v: nat, n: nat)
    requires v < Pow2(8 * n)
    ensures BeValue(BeBytes(v, n)) == v
  {
    if n > 0 {
      Pow2Byte(n - 1);
      BeBytesValue(v / 0x100, n - 1);
      assert BeBytes(v, n)[..n - 1] == BeBytes(v / 0x100, n - 1);
    }
  }

  /** The number of bytes the big-endian form of `v` needs (at least one). */
  function ByteLength(v: nat): (n: nat)
    ensures n >= 1
  {
    if v < 0x100 then 1 else 1 + ByteLength(v / 0x100)
  }

  lemma {:induction false} ByteLengthBound(v: nat, k: nat)
    requires 1 <= k && v < Pow2(8 * k)
    ensures v < Pow2(8 * ByteLength(v)) && ByteLength(v) <= k
  {
    if v >= 0x100 {
      assert k >= 2 by {
        if k == 1 { Pow2Byte(0); assert false; }
      }
      Pow2Byte(k - 1);
      ByteLengthBound(v / 0x100, k - 1);
      Pow2Byte(ByteLength(v / 0x100));
    } else {
      Pow2Byte(0);
    }
  }

  // ---------------------------------------------------------------------
  // Base-128 groups

  /** The low seven bits of every byte, concatenated most-significant group first. */
  function Groups7(s: seq<Byte>): (bits: seq<bool>)
    ensures |bits| == 7 * |s|
  {
    if s == [] then [] else Groups7(s[..|s| - 1]) + NatBits(s[|s| - 1] % 0x80, 7)
  }

  /** The base-128 value of the low seven bits of each byte, most-significant group first. */
  function Base128Value(s: seq<Byte>): nat
  {
    if s == [] then 0 else 0x80 * Base128Value(s[..|s| - 1]) + s[|s| - 1] % 0x80
  }

  lemma {:induction false} Groups7Value(s: seq<Byte>)
    ensures BitsValue(Groups7(s)) == Base128Value(s)
  {
    if s != [] {
      var init := s[..|s| - 1];
      var low := s[|s| - 1] % 0x80;
      Groups7Value(init);
      assert Pow2(7) == 0x80 by { Pow2Values(); }
      BitsValueAppend(Groups7(init), NatBits(low, 7));
      NatBitsValue(low, 7);
      assert BitsValue(Groups7(s)) == BitsValue(Groups7(init)) * 0x80 + low;
    }
  }

  lemma {:induction false} Base128Append(a: seq<Byte>, b: seq<Byte>)
    ensures Base128Value(a + b) == Base128Value(a) * Pow2(7 * |b|) + Base128Value(b)
  {
    if b != [] {
      var b' := b[..|b| - 1];
      assert (a + b)[..|a + b| - 1] == a + b';
      assert Base128Value(a + b) == 0x80 * Base128Value(a + b') + b[|b| - 1] % 0x80;
      Base128Append(a, b');
      Pow2Group(|b'|);
      ShiftDistributes(0x80, Base128Value(a), Pow2(7 * |b'|), Base128Value(b'), b[|b| - 1] % 0x80);
    } else {
      assert a + b == a;
    }
  }

  /** Bytes whose low seven bits are all zero, or all one, give the smallest or largest base-128 value. */
  lemma {:induction false} Base128Uniform(s: seq<Byte>)
    ensures (forall i :: 0 <= i < |s| ==> s[i] % 0x80 == 0) ==> Base128Value(s) == 0
    ensures (forall i :: 0 <= i < |s| ==> s[i] % 0x80 == 0x7F) ==> Base128Value(s) == Pow2(7 * |s|) - 1
  {
    if s != [] {
      Base128Uniform(s[..|s| - 1]);
      Pow2Group(|s| - 1);
    }
  }
}
