/**
 * BER-OID tags (`src/encoding/ber_oid.rs`): base-128 groups, most
 * significant first, every byte but the last with its top bit set, as the
 * sub-identifiers of section 8.19.2 of ITU-T X.690; MISB ST 0107.5 section
 * 6.3.1 prescribes this encoding for KLV tags.
 */
module BerOid {
  import opened Bytes
  import opened Errors
  import opened Stream

  /** How many leading bytes of `s` have their top (continuation) bit set. */
  function ContinuationCount(s: seq<Byte>): (k: nat)
    ensures k <= |s|
    ensures forall i :: 0 <= i < k ==> s[i] >= 0x80
    ensures k < |s| ==> s[k] < 0x80
  {
    if s == [] || s[0] < 0x80 then 0 else 1 + ContinuationCount(s[1..])
  }

  /** What `read_ber_oid` yields for the bytes `s` at the cursor. */
  function DecodeBerOid(s: seq<Byte>): (r: Result<Decoded<U128>, Error>)
    ensures r.Success? ==> 1 <= r.value.size <= |s|
  {
    var k := ContinuationCount(s);
    if k == |s| then Failure(Io(UnexpectedEof))
    else
      var v: nat := Base128Value(s[..k + 1]);
      if v >= TWO_128 then Failure(Panic(ValueTooLarge))
      else Success(Decoded(v, k + 1))
  }

  /** A prefix made of continuation bytes and then one final byte fixes the continuation count. */
  lemma {:induction false} ContinuationPrefix(s: seq<Byte>, i: nat)
    requires i <= |s|
    requires forall j :: 0 <= j < i ==> s[j] >= 0x80
    ensures ContinuationCount(s) >= i
    ensures i < |s| && s[i] < 0x80 ==> ContinuationCount(s) == i
  {
    if i > 0 {
      ContinuationPrefix(s[1..], i - 1);
    }
  }

  method ReadBerOid(buf: Cursor) returns (r: Result<U128, Error>)
    modifies buf
    ensures Matches(r, DecodeBerOid(Rest(buf.data, old(buf.pos))), old(buf.pos), buf.pos, |buf.data|)
  {
    ghost var s := Rest(buf.data, buf.pos);
    var groups, i := ReadGroups(buf);
    if groups.Failure? {
      return Failure(groups.error);
    }
    r := LoadTag(groups.value, s, i);
  }

  /**
   * The loop of `read_ber_oid`: bytes are read up to and including the first
   * one whose top bit is clear, and their low seven bits are gathered, most
   * significant group first. Running out of bytes first is an I/O error.
   */
  method ReadGroups(buf: Cursor) returns (r: Result<seq<bool>, Error>, ghost i: nat)
    modifies buf
    ensures var s := Rest(buf.data, old(buf.pos));
      r.Failure? ==> r.error == Io(UnexpectedEof) && DecodeBerOid(s) == r.PropagateFailure() && buf.pos == |buf.data|
    ensures var s := Rest(buf.data, old(buf.pos));
      r.Success? ==> (1 <= i <= |s| && s[i - 1] < 0x80 && (forall j :: 0 <= j < i - 1 ==> s[j] >= 0x80) &&
                      r.value == Groups7(s[..i]) && buf.pos == old(buf.pos) + i)
  {
    ghost var start := buf.pos;
    ghost var s := Rest(buf.data, start);
    i := 0;
    var bits: seq<bool> := [];
    while true
      invariant buf.pos == start + i && i <= |s|
      invariant forall j :: 0 <= j < i ==> s[j] >= 0x80
      invariant bits == Groups7(s[..i])
      decreases |s| - i
    {
      var next := buf.ReadU8();
      if next.Failure? {
        assert DecodeBerOid(s) == Failure(Io(UnexpectedEof)) by {
          assert i == |s|;
          NoFinalByte(s);
        }
        return Failure(next.error), i;
      }
      var byte := next.value;
      assert byte == s[i];
      bits := bits + NatBits(byte % 0x80, 7);
      assert bits == Groups7(s[..i + 1]) by {
        Groups7Step(s, i);
      }
      i := i + 1;
      if byte < 0x80 {
        break;
      }
    }
    r := Success(bits);
  }

  /**
   * The end of `read_ber_oid`: all-zero groups are the tag 0; otherwise the
   * leading zero bits are dropped and what remains must fit 128 bits.
   */
  method LoadTag(bits: seq<bool>, ghost s: seq<Byte>, ghost i: nat) returns (r: Result<U128, Error>)
    requires 1 <= i <= |s| && s[i - 1] < 0x80
    requires forall j :: 0 <= j < i - 1 ==> s[j] >= 0x80
    requires bits == Groups7(s[..i])
    ensures match DecodeBerOid(s)
      case Success(d) => r == Success(d.value) && d.size == i
      case Failure(e) => r == Failure(e) && e == Panic(ValueTooLarge)
  {
    AccumulatedTag(s, i, bits);
    if LeadingZeros(bits) == |bits| {
      return Success(0);
    }
    var significant := Significant(bits);
    if |significant| > 128 {
      return Failure(Panic(ValueTooLarge));
    }
    r := Success(BitsValue(significant));
  }

  lemma Groups7Step(s: seq<Byte>, i: nat)
    requires i < |s|
    ensures Groups7(s[..i + 1]) == Groups7(s[..i]) + NatBits(s[i] % 0x80, 7)
  {
    assert s[..i + 1][..i] == s[..i];
  }

  /** The groups gathered up to the first final byte decide the tag, through their significant bits. */
  lemma AccumulatedTag(s: seq<Byte>, i: nat, bits: seq<bool>)
    requires 1 <= i <= |s| && s[i - 1] < 0x80
    requires forall j :: 0 <= j < i - 1 ==> s[j] >= 0x80
    requires bits == Groups7(s[..i])
    ensures LeadingZeros(bits) == |bits| <==> DecodeBerOid(s) == Success(Decoded(0, i))
    ensures LeadingZeros(bits) < |bits| ==>
      if |Significant(bits)| > 128 then DecodeBerOid(s) == Failure(Panic(ValueTooLarge))
      else BitsValue(Significant(bits)) < TWO_128 && DecodeBerOid(s) == Success(Decoded(BitsValue(Significant(bits)), i))
  {
    ContinuationPrefix(s, i - 1);
    Groups7Value(s[..i]);
    AllZeroBits(bits);
    SignificantValue(bits);
    SignificantWidth(bits, 128);
    Pow2Values();
  }

  // ---------------------------------------------------------------------
  // Properties

  /**
   * A decoded tag ends at the first byte whose top bit is clear: every byte
   * before it has the bit set, and the tag's value is the base-128 value of
   * the low seven bits of the bytes up to and including it.
   */
  lemma EndsAtFirstFinalByte(s: seq<Byte>)
    requires DecodeBerOid(s).Success?
    ensures var d := DecodeBerOid(s).value;
      1 <= d.size <= |s| && s[d.size - 1] < 0x80 &&
      (forall i :: 0 <= i < d.size - 1 ==> s[i] >= 0x80) &&
      d.value == Base128Value(s[..d.size])
  {
  }

  /** Without a final byte the read runs out of data. */
  lemma NoFinalByte(s: seq<Byte>)
    requires forall i :: 0 <= i < |s| ==> s[i] >= 0x80
    ensures DecodeBerOid(s) == Failure(Io(UnexpectedEof))
  {
    ContinuationPrefix(s, |s|);
  }

  /** A byte below 0x80 is a whole tag on its own, with its own value. */
  lemma SingleByte(b: Byte, rest: seq<Byte>)
    requires b < 0x80
    ensures DecodeBerOid([b] + rest) == Success(Decoded(b, 1))
  {
    assert ([b] + rest)[..1] == [b];
    assert Base128Value([b]) == b by { assert [b][..0] == []; }
  }

  /** Bytes after the tag do not change how the tag decodes. */
  lemma {:induction false} Prefix(s: seq<Byte>, rest: seq<Byte>)
    requires DecodeBerOid(s).Success?
    ensures DecodeBerOid(s + rest) == DecodeBerOid(s)
  {
    var k := ContinuationCount(s);
    ContinuationPrefix(s + rest, k);
    assert (s + rest)[..k + 1] == s[..k + 1];
  }

  // ---------------------------------------------------------------------
  // Reference encoder

  /** The continuation bytes that carry the groups of `v` above the last one. */
  function Continuation(v: nat): (s: seq<Byte>)
    ensures forall i :: 0 <= i < |s| ==> s[i] >= 0x80
  {
    if v == 0 then [] else Continuation(v / 0x80) + [0x80 + v % 0x80]
  }

  /** The shortest BER-OID encoding of `v`. */
  function EncodeBerOid(v: nat): seq<Byte>
  {
    Continuation(v / 0x80) + [v % 0x80]
  }

  /** The continuation bytes carry exactly the groups of `v`. */
  lemma {:induction false} ContinuationValue(v: nat)
    ensures Base128Value(Continuation(v)) == v
  {
    if v > 0 {
      var q := v / 0x80;
      var c := Continuation(q);
      var b: Byte := 0x80 + v % 0x80;
      assert Continuation(v) == c + [b];
      assert Base128Value(c + [b]) == 0x80 * q + b % 0x80 by {
        Base128Last(c, b);
        ContinuationValue(q);
      }
      assert 0x80 * q + b % 0x80 == v;
    }
  }

  /** The encoding is continuation bytes and then one final byte, and its base-128 value is `v`. */
  lemma EncodingShape(v: nat)
    ensures var e := EncodeBerOid(v);
      |e| >= 1 && e[|e| - 1] < 0x80 && (forall i :: 0 <= i < |e| - 1 ==> e[i] >= 0x80) && Base128Value(e) == v
  {
    EncodingBytes(v);
    EncodingValue(v);
  }

  lemma EncodingBytes(v: nat)
    ensures var e := EncodeBerOid(v);
      |e| >= 1 && e[|e| - 1] < 0x80 && (forall i :: 0 <= i < |e| - 1 ==> e[i] >= 0x80)
  {
    var c := Continuation(v / 0x80);
    var last: Byte := v % 0x80;
    assert EncodeBerOid(v) == c + [last];
    assert forall i :: 0 <= i < |c| ==> (c + [last])[i] == c[i];
  }

  lemma EncodingValue(v: nat)
    ensures Base128Value(EncodeBerOid(v)) == v
  {
    var c := Continuation(v / 0x80);
    var last: Byte := v % 0x80;
    assert EncodeBerOid(v) == c + [last];
    Base128Last(c, last);
    ContinuationValue(v / 0x80);
  }

  /** Appending a byte shifts the value by one group and adds the byte's low seven bits. */
  lemma Base128Last(c: seq<Byte>, b: Byte)
    ensures Base128Value(c + [b]) == 0x80 * Base128Value(c) + b % 0x80
  {
    assert (c + [b])[..|c|] == c;
  }

  /** Every u128 tag round-trips, whatever follows it. */
  lemma RoundTrip(v: U128, rest: seq<Byte>)
    ensures DecodeBerOid(EncodeBerOid(v) + rest) == Success(Decoded(v, |EncodeBerOid(v)|))
  {
    var e := EncodeBerOid(v);
    EncodingShape(v);
    var s := e + rest;
    assert s[..|e|] == e;
    assert forall i :: 0 <= i < |e| ==> s[i] == e[i];
    Terminated(s, |e| - 1);
  }

  /** Continuation bytes and then one final byte are decoded as one tag, whatever follows. */
  lemma Terminated(s: seq<Byte>, k: nat)
    requires k < |s| && s[k] < 0x80
    requires forall i :: 0 <= i < k ==> s[i] >= 0x80
    requires Base128Value(s[..k + 1]) < TWO_128
    ensures DecodeBerOid(s) == Success(Decoded(Base128Value(s[..k + 1]), k + 1))
  {
    ContinuationPrefix(s, k);
  }

  /** The source's own test vectors. */
  lemma Examples()
    ensures DecodeBerOid([0x00]) == Success(Decoded(0, 1))
    ensures DecodeBerOid([0x7F]) == Success(Decoded(127, 1))
    ensures DecodeBerOid([0x81, 0x00]) == Success(Decoded(128, 2))
    ensures DecodeBerOid([0xFF, 0x7F]) == Success(Decoded(16383, 2))
    ensures DecodeBerOid([0x83] + seq(17, _ => 0xFF) + [0x7F]) == Success(Decoded(U128_MAX, 19))
    ensures DecodeBerOid([0x84] + seq(17, _ => 0x80) + [0x00]) == Failure(Panic(ValueTooLarge))
    ensures DecodeBerOid([]) == Failure(Io(UnexpectedEof))
    ensures DecodeBerOid([0x81]) == Failure(Io(UnexpectedEof))
  {
    SingleByte(0x00, []);
    SingleByte(0x7F, []);
    TwoBytes(0x81, 0x00);
    TwoBytes(0xFF, 0x7F);
    MaxExample();
    OverflowExample();
    NoFinalByte([0x81]);
  }

  lemma TwoBytes(hi: Byte, lo: Byte)
    requires hi >= 0x80 && lo < 0x80
    ensures DecodeBerOid([hi, lo]) == Success(Decoded(0x80 * (hi - 0x80) + lo, 2))
  {
    var s := [hi, lo];
    ContinuationPrefix(s, 1);
    assert s[..2] == s;
    assert s[..1] == [hi];
    assert Base128Value([hi]) == hi - 0x80 by { assert [hi][..0] == []; }
  }

  lemma MaxExample()
    ensures DecodeBerOid([0x83] + seq(17, _ => 0xFF) + [0x7F]) == Success(Decoded(U128_MAX, 19))
  {
    var tail: seq<Byte> := seq(17, _ => 0xFF) + [0x7F];
    var s: seq<Byte> := [0x83] + tail;
    assert s == [0x83] + seq(17, _ => 0xFF) + [0x7F];
    ContinuationPrefix(s, 18);
    assert s[..19] == s;
    Base128Append([0x83], tail);
    assert Base128Value([0x83]) == 3 by { assert [0x83][..0] == []; }
    Base128Uniform(tail);
    Pow2Values();
    Pow2Add(2, 126);
    assert Pow2(2) == 4;
  }

  lemma OverflowExample()
    ensures DecodeBerOid([0x84] + seq(17, _ => 0x80) + [0x00]) == Failure(Panic(ValueTooLarge))
  {
    var tail: seq<Byte> := seq(17, _ => 0x80) + [0x00];
    var s: seq<Byte> := [0x84] + tail;
    assert s == [0x84] + seq(17, _ => 0x80) + [0x00];
    ContinuationPrefix(s, 18);
    assert s[..19] == s;
    Base128Append([0x84], tail);
    assert Base128Value([0x84]) == 4 by { assert [0x84][..0] == []; }
    Base128Uniform(tail);
    Pow2Values();
    Pow2Add(2, 126);
    assert Pow2(2) == 4;
  }
}
