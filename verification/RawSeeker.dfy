/** The binary search of the raw layout, whose records are the 32-bit distances to the block's first id. */
module RawSeeker {
  import opened Bytes
  import opened RecordCodec
  import opened Blocks

  /** The 32-bit number at index i; behind the contents, whatever happens to be stored there. */
  function WordAt(data: seq<byte>, i: nat, behind: nat): nat {
    if 4 * i + 4 <= |data| then FromLE(data[4 * i..4 * i + 4]) else behind
  }

  ghost predicate Increases(data: seq<byte>) {
    forall i, j :: 0 <= i < j && 4 * j + 4 <= |data| ==> WordAt(data, i, 0) < WordAt(data, j, 0)
  }

  /** In the raw layout entry k starts at byte 4 k. */
  lemma {:induction false} RawOffset(es: seq<Entry>, k: nat)
    requires Chain(RawDocIds, es) && k <= |es|
    ensures Offset(RawDocIds, es, k) == 4 * k
  {
    hide Chain, Encoded;
    OffsetEnd(RawDocIds, es);
    if k > 0 {
      RawOffset(es, k - 1);
      DecodeAt(RawDocIds, es, k - 1);
    }
  }

  /** The number at index i is the distance of entry i to the first one. */
  lemma RawWord(es: seq<Entry>, i: nat, behind: nat)
    requires Chain(RawDocIds, es) && i < |es|
    ensures |Encoded(RawDocIds, es)| == 4 * |es|
    ensures WordAt(Encoded(RawDocIds, es), i, behind) == es[i].id - es[0].id
  {
    hide Chain, Encoded;
    var data := Encoded(RawDocIds, es);
    OffsetEnd(RawDocIds, es);
    RawOffset(es, |es|);
    RawOffset(es, i);
    DecodeAt(RawDocIds, es, i);
    assert data[4 * i..][..4] == data[4 * i..4 * i + 4];
  }

  lemma RawIncreases(es: seq<Entry>)
    requires Chain(RawDocIds, es)
    ensures |Encoded(RawDocIds, es)| == 4 * |es| && Increases(Encoded(RawDocIds, es))
  {
    hide Chain, Encoded, WordAt;
    OffsetEnd(RawDocIds, es);
    RawOffset(es, |es|);
    var data := Encoded(RawDocIds, es);
    forall i, j | 0 <= i < j && 4 * j + 4 <= |data| ensures WordAt(data, i, 0) < WordAt(data, j, 0) {
      RawWord(es, i, 0);
      RawWord(es, j, 0);
      Increasing(RawDocIds, es, i, j);
    }
  }

  /** The numbers from lo to hi are all below delta. */
  ghost predicate Under(data: seq<byte>, lo: nat, hi: nat, delta: nat) {
    forall i :: lo <= i < hi ==> WordAt(data, i, 0) < delta
  }

  lemma UnderUpTo(data: seq<byte>, lo: nat, i: nat, delta: nat)
    requires Increases(data) && lo <= i && 4 * i + 4 <= |data| && WordAt(data, i, 0) < delta
    ensures Under(data, lo, i + 1, delta)
  {
    hide WordAt;
  }

  lemma UnderEqual(data: seq<byte>, lo: nat, i: nat, delta: nat)
    requires Increases(data) && 4 * i + 4 <= |data| && WordAt(data, i, 0) == delta
    ensures Under(data, lo, i, delta)
  {
    hide WordAt;
  }

  lemma SameWord(data: seq<byte>, i: nat, behind: nat)
    requires 4 * i + 4 <= |data|
    ensures WordAt(data, i, behind) == WordAt(data, i, 0)
  {
  }

  lemma BehindContents(data: seq<byte>, behind: nat)
    ensures WordAt(data, |data| / 4, behind) == behind
  {
  }

  lemma Middle(lo: nat, end: int)
    requires lo <= end + 1
    ensures lo <= end ==> lo <= (end + lo) / 2 <= end
    ensures lo == end + 1 ==> (end + lo) / 2 == lo - 1
    ensures lo < end ==> (end + lo) / 2 < end
  {
  }

  /**
   * Binary search from start on for the first number not below delta. With nothing left to search it
   * looks at what is stored behind the contents.
   */
  method Search(data: seq<byte>, start: nat, delta: nat, behind: nat) returns (found: bool, cur: nat)
    requires |data| % 4 == 0 && 1 <= start && 4 * start <= |data| && Increases(data)
    requires WordAt(data, start - 1, 0) < delta
    ensures 4 * start < |data| ==>
              && start <= cur && 4 * cur <= |data| && (found <==> 4 * cur < |data|)
              && Under(data, start, cur, delta) && (found ==> delta <= WordAt(data, cur, 0))
    ensures 4 * start == |data| ==> (found <==> delta <= behind) && (found ==> cur == start)
  {
    hide WordAt, Increases;
    var n := |data| / 4;
    if start == n { BehindContents(data, behind); }
    var lo: nat, end: int := start, n - 1;
    cur := lo;
    var val := WordAt(data, cur, behind);
    while lo < end
      invariant start <= lo <= end + 1 <= n && lo <= n
      invariant val == WordAt(data, cur, behind)
      invariant start < n ==> cur < n && start - 1 <= cur
      invariant start < n && lo <= end ==> lo <= cur <= end && (lo < end ==> cur < end)
      invariant start < n && lo == end + 1 ==> cur == lo - 1
      invariant start == n ==> cur == n
      invariant Under(data, start, lo, delta) && WordAt(data, lo - 1, 0) < delta
      invariant end + 1 < n ==> WordAt(data, end + 1, 0) > delta
      decreases end - lo
    {
      SameWord(data, cur, behind);
      if val == delta {
        break;
      }
      if val > delta {
        end := cur - 1;
      } else {
        UnderUpTo(data, start, cur, delta);
        lo := cur + 1;
      }
      Middle(lo, end);
      cur := (end + lo) / 2;
      val := WordAt(data, cur, behind);
    }
    if cur < n { SameWord(data, cur, behind); }
    if val < delta {
      if start < n && cur >= start { UnderUpTo(data, start, cur, delta); }
      cur := cur + 1;
      if cur >= n {
        return false, cur;
      }
    } else if start < n && val == delta {
      UnderEqual(data, start, cur, delta);
    }
    return true, cur;
  }
}
