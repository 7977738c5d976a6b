/**
 * The byte source every reader shares: a seekable cursor over an in-memory
 * byte string with one current position, as `std::io::Cursor<&[u8]>`.
 */
module Stream {
  import opened Bytes
  import opened Errors

  /** A byte string a `u64` position can address. */
  type Data = s: seq<Byte> | |s| < TWO_64

  /** The bytes from `pos` on; nothing when the position is at or past the end. */
  function Rest(data: seq<Byte>, pos: nat): (r: seq<Byte>)
    ensures pos <= |data| ==> |r| == |data| - pos && forall i :: 0 <= i < |r| ==> r[i] == data[pos + i]
    ensures pos >= |data| ==> r == []
  {
    if pos <= |data| then data[pos..] else []
  }

  /** Moving `k` bytes on drops the first `k` of the remaining bytes. */
  lemma RestDrop(data: seq<Byte>, pos: nat, k: nat)
    requires k <= |Rest(data, pos)|
    ensures Rest(data, pos + k) == Rest(data, pos)[k..]
  {
    if k > 0 {
      assert pos < |data|;
    }
  }

  /** After the bytes `head`, what remains is `tail`. */
  lemma RestAfter(head: seq<Byte>, tail: seq<Byte>)
    ensures Rest(head + tail, |head|) == tail
  {
    assert (head + tail)[|head|..] == tail;
  }

  class Cursor {
    const data: Data
    var pos: U64

    constructor (data: Data)
      ensures this.data == data && pos == 0
    {
      this.data := data;
      pos := 0;
    }

    /** `read_exact` of `n` bytes: all of them, or `UnexpectedEof` with the cursor moved to the end. */
    method ReadExact(n: nat) returns (r: Result<seq<Byte>, Error>)
      modifies this
      ensures n <= |Rest(data, old(pos))| ==> r == Success(Rest(data, old(pos))[..n]) && pos == old(pos) + n
      ensures n > |Rest(data, old(pos))| ==> r == Failure(Io(UnexpectedEof)) && pos == |data|
    {
      if n <= |Rest(data, pos)| {
        r := Success(Rest(data, pos)[..n]);
        pos := pos + n;
      } else {
        r := Failure(Io(UnexpectedEof));
        pos := |data|;
      }
    }

    /** `read_u8`: one byte, read through `read_exact`. */
    method ReadU8() returns (r: Result<Byte, Error>)
      modifies this
      ensures old(pos) < |data| ==> r == Success(data[old(pos)]) && pos == old(pos) + 1
      ensures old(pos) >= |data| ==> r == Failure(Io(UnexpectedEof)) && pos == |data|
    {
      var bytes := ReadExact(1);
      if bytes.Success? {
        r := Success(bytes.value[0]);
      } else {
        r := Failure(bytes.error);
      }
    }

    /** `seek(SeekFrom::Start(to))`: any position, also past the end, is accepted. */
    method Seek(to: U64)
      modifies this
      ensures pos == to
    {
      pos := to;
    }

    /** `seek_relative(offset)`: an `InvalidInput` error when the new position leaves the u64 range. */
    method SeekRelative(offset: int) returns (r: Result<(), Error>)
      modifies this
      ensures 0 <= old(pos) + offset < TWO_64 ==> r == Success(()) && pos == old(pos) + offset
      ensures !(0 <= old(pos) + offset < TWO_64) ==> r == Failure(Io(InvalidInput)) && pos == old(pos)
    {
      if 0 <= pos + offset < TWO_64 {
        pos := pos + offset;
        r := Success(());
      } else {
        r := Failure(Io(InvalidInput));
      }
    }
  }

  /** `(0..length).map(|_| buf.read_u8()).collect()`: bytes one at a time, stopping at the first failed read. */
  method ReadEach(buf: Cursor, length: nat) returns (r: Result<seq<Byte>, Error>)
    modifies buf
    ensures length <= |Rest(buf.data, old(buf.pos))| ==>
      r == Success(Rest(buf.data, old(buf.pos))[..length]) && buf.pos == old(buf.pos) + length
    ensures length > |Rest(buf.data, old(buf.pos))| ==> r == Failure(Io(UnexpectedEof)) && buf.pos == |buf.data|
  {
    ghost var start := buf.pos;
    ghost var s := Rest(buf.data, start);
    var bytes: seq<Byte> := [];
    for i := 0 to length
      invariant buf.pos == start + i && i <= |s|
      invariant bytes == s[..i]
    {
      var b :- buf.ReadU8();
      bytes := bytes + [b];
    }
    r := Success(bytes);
  }
}
