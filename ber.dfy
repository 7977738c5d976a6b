/**
 * BER lengths (`src/encoding/ber.rs`): the short form is one byte below
 * 0x80; the long form is `0x80 | N` followed by N big-endian bytes, as in
 * section 8.1.3 of ITU-T X.690, the encoding MISB ST 0107.5 section 6.3.2
 * prescribes for KLV lengths.
 */
module Ber {
  import opened Bytes
  import opened Errors
  import opened Stream

  /** What `read_ber_long_form` yields for `s`, the bytes after the first byte, given `n`, the byte count. */
  function DecodeLongForm(s: seq<Byte>, n: nat): (r: Result<Decoded<U128>, Error>)
    ensures r.Success? ==> r.value.size == n <= |s|
  {
    if |s| < n then Failure(Io(UnexpectedEof))
    else
      var v: nat := BeValue(s[..n]);
      if v >= TWO_128 then Failure(Panic(ValueTooLarge))
      else if v == 0 then Failure(Panic(EmptyBitLoad))
      else Success(Decoded(v, n))
  }

  /** What `read_ber` yields for the bytes `s` at the cursor. */
  function DecodeBer(s: seq<Byte>): (r: Result<Decoded<U128>, Error>)
    ensures r.Success? ==> 1 <= r.value.size <= |s|
  {
    if s == [] then Failure(Io(UnexpectedEof))
    else if s[0] < 0x80 then Success(Decoded(s[0], 1))
    else if s[0] == 0x80 then Failure(Panic(LongFormWithoutLength))
    else
      match DecodeLongForm(s[1..], s[0] - 0x80)
      case Success(d) => Success(Decoded(d.value, 1 + d.size))
      case Failure(e) => Failure(e)
  }

  method ReadBer(buf: Cursor) returns (r: Result<U128, Error>)
    modifies buf
    ensures Matches(r, DecodeBer(Rest(buf.data, old(buf.pos))), old(buf.pos), buf.pos, |buf.data|)
  {
    ghost var s := Rest(buf.data, buf.pos);
    var firstByte :- buf.ReadU8();
    assert Rest(buf.data, buf.pos) == s[1..];
    if firstByte >= 0x80 {
      var numBytesToRead := firstByte - 0x80;
      if numBytesToRead == 0 {
        return Failure(Panic(LongFormWithoutLength));
      }
      r := ReadBerLongForm(buf, numBytesToRead);
    } else {
      r := Success(firstByte);
    }
  }

  method ReadBerLongForm(buf: Cursor, numBytesToRead: Byte) returns (r: Result<U128, Error>)
    modifies buf
    ensures Matches(r, DecodeLongForm(Rest(buf.data, old(buf.pos)), numBytesToRead), old(buf.pos), buf.pos, |buf.data|)
  {
    ghost var start := buf.pos;
    ghost var s := Rest(buf.data, start);
    var bits: seq<bool> := [];
    for i := 0 to numBytesToRead
      invariant buf.pos == start + i && i <= |s|
      invariant bits == BytesBits(s[..i])
    {
      var byte :- buf.ReadU8();
      assert s[..i + 1][..i] == s[..i];
      bits := bits + NatBits(byte, 8);
    }
    ghost var v := BeValue(s[..numBytesToRead]);
    assert BitsValue(bits) == v by { BytesBitsValue(s[..numBytesToRead]); }
    SignificantValue(bits);
    SignificantWidth(bits, 128);
    assert Pow2(128) == TWO_128 by { Pow2Values(); }
    bits := Significant(bits);
    if |bits| > 128 {
      return Failure(Panic(ValueTooLarge));
    }
    if |bits| == 0 {
      return Failure(Panic(EmptyBitLoad));
    }
    r := Success(BitsValue(bits));
  }

  // ---------------------------------------------------------------------
  // Properties

  /** A first byte below 0x80 is the whole length: its value, one byte consumed. */
  lemma ShortForm(s: seq<Byte>)
    requires s != [] && s[0] < 0x80
    ensures DecodeBer(s) == Success(Decoded(s[0], 1))
    ensures DecodeBer(s).value.value <= 0x7F
  {
  }

  /**
   * A first byte `0x80 | N` with N > 0 takes exactly N more bytes, read as a
   * big-endian number; it fails only when bytes are missing or the number is
   * zero or needs more than 128 bits.
   */
  lemma LongForm(s: seq<Byte>)
    requires s != [] && s[0] > 0x80
    ensures var n := s[0] - 0x80;
      DecodeBer(s).Success? <==> |s| >= 1 + n && 0 < BeValue(s[1..1 + n]) < TWO_128
    ensures var n := s[0] - 0x80;
      DecodeBer(s).Success? ==> DecodeBer(s).value == Decoded(BeValue(s[1..1 + n]), 1 + n)
    ensures |s| < 1 + (s[0] - 0x80) ==> DecodeBer(s) == Failure(Io(UnexpectedEof))
  {
    assert forall n :: 0 <= n <= |s| - 1 ==> s[1..][..n] == s[1..1 + n];
  }

  /** Leading zero bytes in the long form add to the bytes consumed but not to the value. */
  lemma LeadingZeroBytes(k: nat, b: seq<Byte>, rest: seq<Byte>)
    requires 1 <= |b| && |b| + k <= 0x7F
    ensures var padded := [0x80 + k + |b|] + seq(k, _ => 0) + b + rest;
      match DecodeBer([0x80 + |b|] + b + rest)
      case Success(d) => DecodeBer(padded) == Success(Decoded(d.value, d.size + k))
      case Failure(e) => DecodeBer(padded) == Failure(e)
  {
    var z: seq<Byte> := seq(k, _ => 0);
    var plain := [0x80 + |b|] + b + rest;
    var padded := [0x80 + k + |b|] + z + b + rest;
    assert plain[1..][..|b|] == b;
    assert padded[1..][..k + |b|] == z + b;
    BeValueLeadingZeros(k, b);
  }

  /** The length encoding a producer writes: the short form up to 127, else the shortest long form. */
  function EncodeBer(v: U128): (s: seq<Byte>)
  {
    if v < 0x80 then [v]
    else
      var n := ByteLength(v);
      assert n <= 16 by {
        assert Pow2(8 * 16) == TWO_128 by { Pow2Values(); }
        ByteLengthBound(v, 16);
      }
      [0x80 + n] + BeBytes(v, n)
  }

  /** Every u128 length round-trips, whatever follows it. */
  lemma RoundTrip(v: U128, rest: seq<Byte>)
    ensures DecodeBer(EncodeBer(v) + rest) == Success(Decoded(v, |EncodeBer(v)|))
  {
    if v >= 0x80 {
      var n := ByteLength(v);
      var e := BeBytes(v, n);
      assert n <= 16 && BeValue(e) == v by {
        assert Pow2(8 * 16) == TWO_128 by { Pow2Values(); }
        ByteLengthBound(v, 16);
        BeBytesValue(v, n);
      }
      assert EncodeBer(v) == [0x80 + n] + e;
      assert DecodeBer([0x80 + n] + e + rest) == Success(Decoded(v, 1 + n)) by {
        LongFormOf(e, v, rest);
      }
      assert EncodeBer(v) + rest == [0x80 + n] + e + rest;
    } else {
      ShortForm([v] + rest);
    }
  }

  /** The long form `0x80 | |e|` followed by the big-endian bytes `e` of a nonzero u128. */
  lemma LongFormOf(e: seq<Byte>, v: nat, rest: seq<Byte>)
    requires 1 <= |e| <= 16 && BeValue(e) == v && 0 < v < TWO_128
    ensures DecodeBer([0x80 + |e|] + e + rest) == Success(Decoded(v, 1 + |e|))
  {
    var s := [0x80 + |e|] + e + rest;
    assert s[1..1 + |e|] == e;
    LongForm(s);
  }

  /** The source's own test vectors, and the edges its comments name. */
  lemma Examples()
    ensures DecodeBer([0x00]) == Success(Decoded(0, 1))
    ensures DecodeBer([0x7F]) == Success(Decoded(127, 1))
    ensures DecodeBer([0x81, 0x80]) == Success(Decoded(128, 2))
    ensures DecodeBer([0x81, 0x05]) == Success(Decoded(5, 2))
  {
    assert BeValue([0x80]) == 0x80 by { assert [0x80][..0] == []; }
    LongFormOf([0x80], 0x80, []);
    assert [0x81] + [0x80] + [] == [0x81, 0x80];
    assert BeValue([0x05]) == 0x05 by { assert [0x05][..0] == []; }
    LongFormOf([0x05], 0x05, []);
    assert [0x81] + [0x05] + [] == [0x81, 0x05];
  }

  /** Missing bytes, a long form without a byte count, and a zero long-form value. */
  lemma ErrorExamples()
    ensures DecodeBer([]) == Failure(Io(UnexpectedEof))
    ensures DecodeBer([0x81]) == Failure(Io(UnexpectedEof))
    ensures DecodeBer([0x80]) == Failure(Panic(LongFormWithoutLength))
    ensures DecodeBer([0x81, 0x00]) == Failure(Panic(EmptyBitLoad))
  {
    assert [0x81, 0x00][1..][..1] == [0x00];
    assert BeValue([0x00]) == 0x00 by { assert [0x00][..0] == []; }
  }

  /** The largest u128, in sixteen bytes. */
  lemma MaxExample()
    ensures DecodeBer([0x90] + seq(16, _ => 0xFF)) == Success(Decoded(U128_MAX, 17))
  {
    var ones: seq<Byte> := seq(16, _ => 0xFF);
    assert BeValue(ones) == U128_MAX by {
      AllOnesValue(16);
      assert Pow2(128) == TWO_128 by { Pow2Values(); }
    }
    LongFormOf(ones, U128_MAX, []);
    assert [0x90] + ones + [] == [0x90] + ones;
  }

  /** Seventeen bytes holding 2^128 do not fit a u128. */
  lemma TooLargeExample()
    ensures DecodeBer([0x91] + ([0x01] + seq(16, _ => 0x00))) == Failure(Panic(ValueTooLarge))
  {
    var big: seq<Byte> := [0x01] + seq(16, _ => 0x00);
    assert BeValue(big) == TWO_128 by {
      BeValueFirst(big);
      ZeroBytesValue(16);
      assert big[1..] == seq(16, _ => 0x00);
      assert Pow2(128) == TWO_128 by { Pow2Values(); }
    }
    assert ([0x91] + big)[1..] == big;
    assert big[..17] == big;
  }
}
