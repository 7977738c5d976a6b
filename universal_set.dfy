/**
 * The universal-key scanner (`src/universal_set.rs`): a 16-byte window
 * slides over the stream one byte at a time, and every position where the
 * window holds the universal key is recorded.
 */
module UniversalSet {
  import opened Bytes
  import opened Errors
  import opened Stream

  /** A universal key is always 16 bytes long. */
  const UNIVERSAL_KEY_LENGTH: nat := 16

  type UniversalKey = k: seq<Byte> | |k| == UNIVERSAL_KEY_LENGTH
    witness seq(16, _ => 0x00)

  /** The key the source's own tests search for. */
  const TEST_UNIVERSAL_KEY: UniversalKey :=
    [0x06, 0x0E, 0x2B, 0x34, 0x02, 0x0B, 0x01, 0x01, 0x0E, 0x01, 0x03, 0x01, 0x01, 0x00, 0x00, 0x00]

  predicate StrictlyIncreasing(s: seq<U64>)
  {
    forall i, j :: 0 <= i < j < |s| ==> s[i] < s[j]
  }

  /** Whether the key sits at offset `p` of `data`. */
  predicate KeyAt(data: seq<Byte>, key: UniversalKey, p: nat)
  {
    p + UNIVERSAL_KEY_LENGTH <= |data| && data[p..p + UNIVERSAL_KEY_LENGTH] == key
  }

  /** The offsets `p` with `from <= p < end` where the key sits, in increasing order. */
  function Between(data: Data, key: UniversalKey, from: nat, end: nat): (r: seq<U64>)
    decreases end
  {
    if end <= from then []
    else Between(data, key, from, end - 1) + (if KeyAt(data, key, end - 1) then [(end - 1) as U64] else [])
  }

  /** The offsets from `from` on where the key sits, in increasing order. */
  function Occurrences(data: Data, key: UniversalKey, from: nat): (r: seq<U64>)
  {
    Between(data, key, from, |data|)
  }

  /**
   * The offsets where the key starts, from the cursor on. The first 16 bytes
   * fill the window; when they cannot be read there are no offsets. After
   * that each byte read moves the window on by one, and the scan ends at the
   * first failed read, so the whole stream has been consumed.
   */
  method StartLocations(key: UniversalKey, buf: Cursor) returns (locations: seq<U64>)
    modifies buf
    ensures locations == Occurrences(buf.data, key, old(buf.pos))
    ensures buf.pos == |buf.data|
  {
    ghost var data := buf.data;
    ghost var start := buf.pos;
    locations := [];
    var bufferContents := buf.ReadExact(UNIVERSAL_KEY_LENGTH);
    if bufferContents.Failure? {
      Short(data, key, start);
      return;
    }
    var searchBuffer := bufferContents.value;
    assert searchBuffer == data[start..buf.pos] by {
      assert Rest(data, start)[..UNIVERSAL_KEY_LENGTH] == data[start..buf.pos];
    }
    locations := Scan(key, buf, searchBuffer, start);
  }

  /**
   * The loop of `start_locations`: test the window, then move it on by the
   * next byte, until a read fails at the end of the stream.
   */
  method Scan(key: UniversalKey, buf: Cursor, window: seq<Byte>, ghost start: nat) returns (locations: seq<U64>)
    requires start + UNIVERSAL_KEY_LENGTH == buf.pos <= |buf.data|
    requires window == buf.data[start..buf.pos]
    modifies buf
    ensures locations == Between(buf.data, key, start, |buf.data|)
    ensures buf.pos == |buf.data|
  {
    ghost var data := buf.data;
    var searchBuffer := window;
    ghost var here := start;
    locations := [];
    while true
      invariant here + UNIVERSAL_KEY_LENGTH == buf.pos <= |data|
      invariant start <= here
      invariant searchBuffer == data[here..buf.pos]
      invariant locations == Between(data, key, start, here)
      decreases |data| - here
    {
      assert KeyAt(data, key, here) <==> searchBuffer == key;
      if searchBuffer == key {
        // The window ends at the cursor, at least 16 bytes in, so the
        // subtraction cannot go below zero.
        var startPos := buf.pos - UNIVERSAL_KEY_LENGTH;
        locations := locations + [startPos];
      }
      assert locations == Between(data, key, start, here + 1) by {
        BetweenStep(data, key, start, here);
      }
      var val := buf.ReadU8();
      if val.Failure? {
        Tail(data, key, start, here + 1);
        break;
      }
      assert searchBuffer[1..] + [val.value] == data[here + 1..buf.pos] by {
        Slide(data, here, buf.pos - 1);
      }
      searchBuffer := searchBuffer[1..] + [val.value];
      here := here + 1;
    }
  }

  /** One more offset considered: it is appended when the key sits there. */
  lemma BetweenStep(data: Data, key: UniversalKey, from: nat, end: nat)
    requires from <= end
    ensures Between(data, key, from, end + 1)
         == Between(data, key, from, end) + (if KeyAt(data, key, end) then [end as U64] else [])
  {
  }

  /** Moving a window of `data` on by one byte. */
  lemma Slide(data: seq<Byte>, lo: nat, hi: nat)
    requires lo < hi < |data|
    ensures data[lo..hi][1..] + [data[hi]] == data[lo + 1..hi + 1]
  {
  }

  /** No key fits in the last 15 bytes, so once the window reaches the end there is nothing more to find. */
  lemma {:induction false} Tail(data: Data, key: UniversalKey, from: nat, end: nat)
    requires end + UNIVERSAL_KEY_LENGTH > |data| && end <= |data|
    ensures Between(data, key, from, |data|) == Between(data, key, from, end)
    decreases |data| - end
  {
    if end < |data| {
      Tail(data, key, from, end + 1);
      assert !KeyAt(data, key, end);
      if end >= from {
        assert Between(data, key, from, end + 1) == Between(data, key, from, end) + [];
      }
    }
  }

  // ---------------------------------------------------------------------
  // Properties

  /** An offset is found exactly when the key sits there and it lies in the range. */
  lemma {:induction false} FoundBetween(data: Data, key: UniversalKey, from: nat, end: nat, p: nat)
    ensures p in Between(data, key, from, end) <==> from <= p < end && KeyAt(data, key, p)
    decreases end
  {
    if end > from {
      FoundBetween(data, key, from, end - 1, p);
    }
  }

  /** An offset is found exactly when the key sits there and it is not before `from`. */
  lemma Found(data: Data, key: UniversalKey, from: nat, p: nat)
    ensures p in Occurrences(data, key, from) <==> from <= p && KeyAt(data, key, p)
  {
    FoundBetween(data, key, from, |data|, p);
  }

  /** Every offset found lies in the range. */
  lemma {:induction false} InRange(data: Data, key: UniversalKey, from: nat, end: nat)
    ensures forall i :: 0 <= i < |Between(data, key, from, end)| ==> from <= Between(data, key, from, end)[i] < end
    decreases end
  {
    if end > from {
      InRange(data, key, from, end - 1);
    }
  }

  /** The offsets come out strictly increasing, so no occurrence is reported twice. */
  lemma {:induction false} IncreasingBetween(data: Data, key: UniversalKey, from: nat, end: nat)
    ensures StrictlyIncreasing(Between(data, key, from, end))
    decreases end
  {
    if end > from {
      var init := Between(data, key, from, end - 1);
      IncreasingBetween(data, key, from, end - 1);
      InRange(data, key, from, end - 1);
      if KeyAt(data, key, end - 1) {
        var occ := init + [(end - 1) as U64];
        assert Between(data, key, from, end) == occ;
        forall i, j | 0 <= i < j < |occ|
          ensures occ[i] < occ[j]
        {
          assert occ[i] == init[i];
          if j < |init| {
            assert occ[j] == init[j];
          }
        }
      } else {
        assert Between(data, key, from, end) == init + [];
      }
    }
  }

  lemma Increasing(data: Data, key: UniversalKey, from: nat)
    ensures StrictlyIncreasing(Occurrences(data, key, from))
  {
    IncreasingBetween(data, key, from, |data|);
  }

  /** Fewer than 16 bytes left: nothing is found. */
  lemma Short(data: Data, key: UniversalKey, from: nat)
    requires |Rest(data, from)| < UNIVERSAL_KEY_LENGTH
    ensures Occurrences(data, key, from) == []
  {
    if from < |data| {
      Tail(data, key, from, from);
    }
  }

  /** At most one offset per byte of the range. */
  lemma {:induction false} CountBetween(data: Data, key: UniversalKey, from: nat, end: nat)
    requires from <= end
    ensures |Between(data, key, from, end)| <= end - from
    decreases end
  {
    if end > from {
      CountBetween(data, key, from, end - 1);
    }
  }

  /** At most one offset per place a whole key fits after the cursor. */
  lemma CountBound(data: Data, key: UniversalKey, from: nat)
    requires |Rest(data, from)| >= UNIVERSAL_KEY_LENGTH
    ensures |Occurrences(data, key, from)| <= |Rest(data, from)| - (UNIVERSAL_KEY_LENGTH - 1)
  {
    {
      Tail(data, key, from, |data| - 15);
      CountBetween(data, key, from, |data| - 15);
    }
  }

  /** The source's first test: the key alone is found at 0. */
  lemma KeyAlone()
    ensures Occurrences(TEST_UNIVERSAL_KEY, TEST_UNIVERSAL_KEY, 0) == [0]
  {
    var k := TEST_UNIVERSAL_KEY;
    assert KeyAt(k, k, 0) by { assert k[0..16] == k; }
    Tail(k, k, 0, 1);
    assert Between(k, k, 0, 1) == [0];
  }

  /** The source's second test: after one byte the key is found at 1. */
  lemma KeyAfterOneByte()
    ensures Occurrences([0x06] + TEST_UNIVERSAL_KEY, TEST_UNIVERSAL_KEY, 0) == [1]
  {
    var k := TEST_UNIVERSAL_KEY;
    var d: Data := [0x06] + k;
    assert !KeyAt(d, k, 0) by { assert d[0..16][1] != k[1]; }
    assert KeyAt(d, k, 1) by { assert d[1..17] == k; }
    Tail(d, k, 0, 2);
    assert Between(d, k, 0, 1) == [];
    assert Between(d, k, 0, 2) == [1];
  }

  /** Overlapping occurrences are all found: 17 zero bytes hold a zero key at 0 and at 1. */
  lemma Overlapping()
    ensures Occurrences(seq(17, _ => 0x00), seq(16, _ => 0x00), 0) == [0, 1]
  {
    var d: Data := seq(17, _ => 0x00);
    var k: UniversalKey := seq(16, _ => 0x00);
    assert KeyAt(d, k, 0) by { assert d[0..16] == k; }
    assert KeyAt(d, k, 1) by { assert d[1..17] == k; }
    Tail(d, k, 0, 2);
    assert Between(d, k, 0, 1) == [0];
  }
}
