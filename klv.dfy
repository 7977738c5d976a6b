/**
 * KLV triplets (`src/klv.rs`): a BER-OID tag, then a BER length, then
 * `length` value bytes. `Klv::new` reads the header and skips the value,
 * remembering where it starts; `read_value` fetches the value later from
 * the shared cursor and puts the cursor back.
 */
module KlvTriplet {
  import opened Bytes
  import opened Errors
  import opened Stream
  import Ber
  import BerOid

  /** 2^63: the first offset `try_into::<i64>` refuses. */
  const I64_LIMIT: nat := 0x8000_0000_0000_0000

  /** What `read_length` yields for the bytes `s`: a BER length that must fit a u64. */
  function DecodeLength(s: seq<Byte>): (r: Result<Decoded<U64>, Error>)
    ensures r.Success? ==> 1 <= r.value.size <= |s|
  {
    match Ber.DecodeBer(s)
    case Failure(e) => Failure(e)
    case Success(d) =>
      if d.value >= TWO_64 then Failure(Panic(LengthExceedsU64)) else Success(Decoded(d.value, d.size))
  }

  /** The three numbers a `Klv` keeps. */
  datatype Header = Header(tag: U128, length: U64, valueOffset: U64)

  /** What `Klv::new` yields for a cursor over `data` at `pos`. */
  function ParseTriplet(data: Data, pos: U64): (r: Result<Header, Error>)
    ensures r.Success? ==> pos < r.value.valueOffset <= |data| && r.value.valueOffset + r.value.length < TWO_64
  {
    var s := Rest(data, pos);
    match BerOid.DecodeBerOid(s)
    case Failure(e) => Failure(e)
    case Success(t) =>
      match DecodeLength(s[t.size..])
      case Failure(e) => Failure(e)
      case Success(l) =>
        var offset := pos + t.size + l.size;
        if l.value >= I64_LIMIT then Failure(Panic(OffsetExceedsI64))
        else if offset + l.value >= TWO_64 then Failure(Panic(SeekOutOfRange))
        else Success(Header(t.value, l.value, offset))
  }

  /** What `read_value` yields for the triplet `h` over `data`: its `length` bytes from `valueOffset` on. */
  function ValueOf(data: seq<Byte>, h: Header): (r: Result<seq<Byte>, Error>)
    ensures r.Success? <==> h.length == 0 || h.valueOffset + h.length <= |data|
    ensures r.Success? ==> |r.value| == h.length && forall i :: 0 <= i < h.length ==> r.value[i] == data[h.valueOffset + i]
    ensures r.Failure? ==> r.error == Io(UnexpectedEof)
  {
    var s := Rest(data, h.valueOffset);
    if h.length <= |s| then Success(s[..h.length]) else Failure(Io(UnexpectedEof))
  }

  class Klv {
    /** The cursor every triplet of the stream shares. */
    const buf: Cursor
    const tag: U128
    const length: U64
    const valueOffset: U64

    constructor (buf: Cursor, tag: U128, length: U64, valueOffset: U64)
      ensures this.buf == buf && this.tag == tag && this.length == length && this.valueOffset == valueOffset
    {
      this.buf := buf;
      this.tag := tag;
      this.length := length;
      this.valueOffset := valueOffset;
    }

    function Fields(): Header
    {
      Header(tag, length, valueOffset)
    }

    /**
     * Reads the tag and the length at the cursor and leaves the cursor just
     * past the value, whose bytes are not read.
     */
    static method New(buf: Cursor) returns (r: Result<Klv, Error>)
      modifies buf
      ensures match ParseTriplet(buf.data, old(buf.pos))
        case Success(h) => r.Success? && r.value.buf == buf && r.value.Fields() == h && buf.pos == h.valueOffset + h.length
        case Failure(e) => r == Failure(e) && (e.Io? ==> buf.pos == |buf.data|)
    {
      ghost var start := buf.pos;
      ghost var s := Rest(buf.data, start);
      var tag :- ReadTag(buf);
      ghost var t := BerOid.DecodeBerOid(s).value;
      RestDrop(buf.data, start, t.size);
      var length :- ReadLength(buf);
      var startingOffset := buf.pos;
      if length >= I64_LIMIT {
        return Failure(Panic(OffsetExceedsI64));
      }
      var moved := buf.SeekRelative(length);
      if moved.Failure? {
        return Failure(Panic(SeekOutOfRange));
      }
      var klv := new Klv(buf, tag, length, startingOffset);
      r := Success(klv);
    }

    /** `read_tag`: the tag is BER-OID encoded. */
    static method ReadTag(buf: Cursor) returns (r: Result<U128, Error>)
      modifies buf
      ensures Matches(r, BerOid.DecodeBerOid(Rest(buf.data, old(buf.pos))), old(buf.pos), buf.pos, |buf.data|)
    {
      r := BerOid.ReadBerOid(buf);
    }

    /** `read_length`: the length is BER encoded and must fit a u64. */
    static method ReadLength(buf: Cursor) returns (r: Result<U64, Error>)
      modifies buf
      ensures Matches(r, DecodeLength(Rest(buf.data, old(buf.pos))), old(buf.pos), buf.pos, |buf.data|)
    {
      var value :- Ber.ReadBer(buf);
      if value >= TWO_64 {
        return Failure(Panic(LengthExceedsU64));
      }
      r := Success(value);
    }

    /**
     * The value bytes, read through the shared cursor. On success the cursor
     * is back where it was; a short stream returns the read error before the
     * position is restored, so the cursor is left at the end.
     */
    method ReadValue() returns (r: Result<seq<Byte>, Error>)
      modifies buf
      ensures r == ValueOf(buf.data, Fields())
      ensures r.Success? ==> buf.pos == old(buf.pos)
      ensures r.Failure? ==> buf.pos == |buf.data|
    {
      var currentPosition := buf.pos;
      buf.Seek(valueOffset);
      var tempBuf :- buf.ReadExact(length);
      buf.Seek(currentPosition);
      r := Success(tempBuf);
    }
  }

  /** Reading a value twice gives the same bytes and leaves the shared cursor where it was. */
  method ReadValueTwice(klv: Klv) returns (first: Result<seq<Byte>, Error>, second: Result<seq<Byte>, Error>)
    modifies klv.buf
    ensures first == ValueOf(klv.buf.data, klv.Fields())
    ensures first.Success? ==> second == first && klv.buf.pos == old(klv.buf.pos)
  {
    first := klv.ReadValue();
    second := klv.ReadValue();
  }

  // ---------------------------------------------------------------------
  // Properties

  /**
   * The tag is decoded first and the length second; an error of either is
   * passed through unchanged, and a length of 2^64 or more is refused.
   */
  lemma ErrorsPassThrough(data: Data, pos: U64)
    ensures var s := Rest(data, pos);
      BerOid.DecodeBerOid(s).Failure? ==> ParseTriplet(data, pos) == Failure(BerOid.DecodeBerOid(s).error)
    ensures var s := Rest(data, pos);
      var t := BerOid.DecodeBerOid(s);
      t.Success? && Ber.DecodeBer(s[t.value.size..]).Failure? ==>
      ParseTriplet(data, pos) == Failure(Ber.DecodeBer(s[t.value.size..]).error)
    ensures var s := Rest(data, pos);
      var t := BerOid.DecodeBerOid(s);
      t.Success? && Ber.DecodeBer(s[t.value.size..]).Success? && Ber.DecodeBer(s[t.value.size..]).value.value >= TWO_64 ==>
      ParseTriplet(data, pos) == Failure(Panic(LengthExceedsU64))
  {
  }

  /**
   * A header parsed at `pos`: the tag is the BER-OID value there, the length
   * the BER value right after it, and the value starts right after the length.
   */
  lemma Layout(data: Data, pos: U64)
    requires ParseTriplet(data, pos).Success?
    ensures var h := ParseTriplet(data, pos).value;
      var s := Rest(data, pos);
      var t := BerOid.DecodeBerOid(s);
      t.Success? && t.value.value == h.tag &&
      var l := Ber.DecodeBer(s[t.value.size..]);
      l.Success? && l.value.value == h.length < I64_LIMIT &&
      h.valueOffset == pos + t.value.size + l.value.size
  {
  }

  /** A tag of `tagSize` bytes and then a length of `lengthSize` bytes at `pos` give the header after them. */
  lemma HeaderAt(data: Data, pos: U64, tag: U128, tagSize: nat, length: U128, lengthSize: nat)
    requires BerOid.DecodeBerOid(Rest(data, pos)) == Success(Decoded(tag, tagSize))
    requires Ber.DecodeBer(Rest(data, pos)[tagSize..]) == Success(Decoded(length, lengthSize))
    requires length < I64_LIMIT && pos + tagSize + lengthSize + length < TWO_64
    ensures ParseTriplet(data, pos) == Success(Header(tag, length, pos + tagSize + lengthSize))
  {
    assert DecodeLength(Rest(data, pos)[tagSize..]) == Success(Decoded(length, lengthSize));
  }

  /** A triplet written with the shortest tag and length encodings: what a producer emits. */
  function EncodeTriplet(tag: U128, value: seq<Byte>): (s: seq<Byte>)
    requires |value| < TWO_128
  {
    BerOid.EncodeBerOid(tag) + Ber.EncodeBer(|value|) + value
  }

  /** Where the value starts inside `EncodeTriplet(tag, value)`. */
  function HeaderSize(tag: U128, length: U128): nat
  {
    |BerOid.EncodeBerOid(tag)| + |Ber.EncodeBer(length)|
  }

  /** An encoded triplet parses back to its tag and length, wherever it sits, and its value reads back. */
  lemma RoundTrip(prefix: seq<Byte>, tag: U128, value: seq<Byte>, rest: seq<Byte>)
    requires |value| < I64_LIMIT
    requires |prefix + EncodeTriplet(tag, value) + rest| < TWO_64
    ensures |prefix| + HeaderSize(tag, |value|) < TWO_64
    ensures ParseTriplet(prefix + EncodeTriplet(tag, value) + rest, |prefix|)
         == Success(Header(tag, |value|, |prefix| + HeaderSize(tag, |value|)))
    ensures ValueOf(prefix + EncodeTriplet(tag, value) + rest, Header(tag, |value|, |prefix| + HeaderSize(tag, |value|)))
         == Success(value)
  {
    var data: Data := prefix + EncodeTriplet(tag, value) + rest;
    TripletHeader(data, prefix, tag, value, rest);
    TripletValue(data, prefix, tag, value, rest);
  }

  /** The header half of `RoundTrip`. */
  lemma TripletHeader(data: Data, prefix: seq<Byte>, tag: U128, value: seq<Byte>, rest: seq<Byte>)
    requires |value| < I64_LIMIT
    requires data == prefix + EncodeTriplet(tag, value) + rest
    ensures ParseTriplet(data, |prefix|) == Success(Header(tag, |value|, |prefix| + HeaderSize(tag, |value|)))
  {
    var et := BerOid.EncodeBerOid(tag);
    var el := Ber.EncodeBer(|value|);
    var tail := value + rest;
    var s := Rest(data, |prefix|);
    assert s == et + (el + tail) by {
      assert data == prefix + (et + (el + tail));
      RestAfter(prefix, et + (el + tail));
    }
    assert BerOid.DecodeBerOid(s) == Success(Decoded(tag, |et|)) by {
      BerOid.RoundTrip(tag, el + tail);
    }
    assert s[|et|..] == el + tail;
    assert Ber.DecodeBer(s[|et|..]) == Success(Decoded(|value|, |el|)) by {
      Ber.RoundTrip(|value|, tail);
    }
    assert |prefix| + |et| + |el| + |value| <= |data|;
    HeaderAt(data, |prefix|, tag, |et|, |value|, |el|);
  }

  /** The value half of `RoundTrip`. */
  lemma TripletValue(data: Data, prefix: seq<Byte>, tag: U128, value: seq<Byte>, rest: seq<Byte>)
    requires |value| < I64_LIMIT
    requires data == prefix + EncodeTriplet(tag, value) + rest
    ensures ValueOf(data, Header(tag, |value|, |prefix| + HeaderSize(tag, |value|))) == Success(value)
  {
    var head := prefix + BerOid.EncodeBerOid(tag) + Ber.EncodeBer(|value|);
    assert data == head + (value + rest);
    RestAfter(head, value + rest);
    assert (value + rest)[..|value|] == value;
  }

  /** The smallest triplet: tag 1, length 2, value `[0x03, 0x04]`. */
  lemma Example()
    ensures ParseTriplet([0x01, 0x02, 0x03, 0x04], 0) == Success(Header(1, 2, 2))
    ensures ValueOf([0x01, 0x02, 0x03, 0x04], Header(1, 2, 2)) == Success([0x03, 0x04])
  {
    var data: seq<Byte> := [0x01, 0x02, 0x03, 0x04];
    assert Rest(data, 0) == [0x01] + [0x02, 0x03, 0x04];
    BerOid.SingleByte(0x01, [0x02, 0x03, 0x04]);
    assert Rest(data, 0)[1..] == [0x02] + [0x03, 0x04];
    Ber.ShortForm([0x02] + [0x03, 0x04]);
    HeaderAt(data, 0, 1, 1, 2, 1);
    assert Rest(data, 2) == [0x03, 0x04];
    assert Rest(data, 2)[..2] == [0x03, 0x04];
  }

  /** `0x01` followed by eight zero bytes is 2^64, big-endian. */
  lemma TwoTo64()
    ensures BeValue([0x01] + seq(8, _ => 0x00)) == TWO_64
  {
    var digits: seq<Byte> := [0x01] + seq(8, _ => 0x00);
    BeValueFirst(digits);
    assert digits[1..] == seq(8, _ => 0x00);
    ZeroBytesValue(8);
    assert Pow2(64) == TWO_64 by { Pow2Values(); }
  }

  /** A length of 2^64 (`0x89 0x01` and eight zero bytes) does not fit a u64. */
  lemma LengthTooLarge()
    ensures ParseTriplet([0x01, 0x89] + ([0x01] + seq(8, _ => 0x00)), 0) == Failure(Panic(LengthExceedsU64))
  {
    var digits: seq<Byte> := [0x01] + seq(8, _ => 0x00);
    var el: seq<Byte> := [0x89] + digits;
    var data: seq<Byte> := [0x01, 0x89] + digits;
    TwoTo64();
    Ber.LongFormOf(digits, TWO_64, []);
    assert el + [] == el;
    BerOid.SingleByte(0x01, el);
    assert Rest(data, 0) == [0x01] + el;
    assert ([0x01] + el)[1..] == el;
  }
}
