/** Reading and seeking in an inverted index, against a linear scan of its entries. */
module IndexReader {
  import opened Bytes
  import opened RecordCodec
  import opened Blocks
  import opened Index
  import opened IteratorContract
  import RawSeeker

  /** How many entries precede block i. */
  ghost function Start(enc: Encoding, bs: seq<Block>, i: nat): nat
    requires i <= |bs|
  {
    |Entries(enc, bs[..i])|
  }

  lemma {:induction false} EntriesPrefix(enc: Encoding, bs: seq<Block>, i: nat)
    requires i <= |bs|
    ensures Entries(enc, bs[..i]) <= Entries(enc, bs)
    decreases |bs|
  {
    hide Contents;
    if i == |bs| {
      assert bs[..i] == bs;
    } else {
      EntriesPrefix(enc, bs[..|bs| - 1], i);
      assert bs[..|bs| - 1][..i] == bs[..i];
    }
  }

  /** Block i holds the entries from Start(i) to Start(i + 1). */
  lemma BlockAt(enc: Encoding, bs: seq<Block>, i: nat)
    requires i < |bs|
    ensures Start(enc, bs, i + 1) == Start(enc, bs, i) + |Contents(enc, bs[i])| <= |Entries(enc, bs)|
    ensures Entries(enc, bs)[Start(enc, bs, i)..Start(enc, bs, i + 1)] == Contents(enc, bs[i])
  {
    hide Contents, Entries;
    EntriesPrefix(enc, bs, i + 1);
    EntriesStep(enc, bs, i);
    MiddleSlice(Entries(enc, bs), Entries(enc, bs[..i]), Contents(enc, bs[i]));
  }

  lemma EntriesStep(enc: Encoding, bs: seq<Block>, i: nat)
    requires i < |bs|
    ensures Entries(enc, bs[..i + 1]) == Entries(enc, bs[..i]) + Contents(enc, bs[i])
  {
    hide Contents;
    assert bs[..i + 1][..i] == bs[..i];
  }

  lemma MiddleSlice(all: seq<Entry>, a: seq<Entry>, c: seq<Entry>)
    requires a + c <= all
    ensures all[|a|..|a| + |c|] == c
  {
  }

  lemma StartEnds(enc: Encoding, bs: seq<Block>)
    ensures Start(enc, bs, 0) == 0 && Start(enc, bs, |bs|) == |Entries(enc, bs)|
  {
    assert bs[..|bs|] == bs;
  }

  ghost predicate Sorted(es: seq<Entry>) {
    forall i, j :: 0 <= i < j < |es| ==> es[i].id <= es[j].id
  }

  ghost predicate StrictlySorted(es: seq<Entry>) {
    forall i, j :: 0 <= i < j < |es| ==> es[i].id < es[j].id
  }

  lemma SortedEmpty()
    ensures Sorted([]) && StrictlySorted([])
  {
  }

  lemma ContentsSorted(enc: Encoding, b: Block)
    requires Filled(enc, b)
    ensures var es := Contents(enc, b);
            && Sorted(es) && (!enc.Numeric? ==> StrictlySorted(es))
            && forall i :: 0 <= i < |es| ==> b.firstId <= es[i].id <= b.lastId && es[i].id >= 1
  {
    hide Contents, Filled, EntryOk, Follows, Encoded;
    FilledBlock(enc, b);
    var es := Contents(enc, b);
    forall i, j | 0 <= i <= j < |es| ensures es[i].id <= es[j].id && (!enc.Numeric? && i < j ==> es[i].id < es[j].id) {
      Increasing(enc, es, i, j);
    }
  }

  lemma ConcatSorted(a: seq<Entry>, b: seq<Entry>, m: nat)
    requires forall i :: 0 <= i < |a| ==> a[i].id <= m
    requires forall i :: 0 <= i < |b| ==> m < b[i].id
    ensures Sorted(a) && Sorted(b) ==> Sorted(a + b)
    ensures StrictlySorted(a) && StrictlySorted(b) ==> StrictlySorted(a + b)
  {
  }

  /** All entries of an ordered index are sorted, strictly unless it is numeric, and bounded by the last block's id. */
  lemma {:induction false} EntriesSorted(enc: Encoding, bs: seq<Block>)
    requires Ordered(enc, bs)
    ensures var es := Entries(enc, bs);
            && Sorted(es) && (!enc.Numeric? ==> StrictlySorted(es))
            && forall i :: 0 <= i < |es| ==> bs != [] && 1 <= es[i].id <= bs[|bs| - 1].lastId
  {
    hide Contents, Filled, Sorted, StrictlySorted;
    if bs == [] {
      SortedEmpty();
    } else {
      var p, b := bs[..|bs| - 1], bs[|bs| - 1];
      EntriesSorted(enc, p);
      ContentsSorted(enc, b);
      FilledBlock(enc, b);
      ConcatSorted(Entries(enc, p), Contents(enc, b), if p == [] then 0 else p[|p| - 1].lastId);
    }
  }

  lemma WfEntriesSorted(enc: Encoding, bs: seq<Block>)
    requires WfBlocks(enc, bs)
    ensures var es := Entries(enc, bs);
            && Sorted(es) && (!enc.Numeric? ==> StrictlySorted(es))
            && forall i :: 0 <= i < |es| ==> 1 <= es[i].id <= bs[|bs| - 1].lastId
  {
    hide Contents, Filled;
    if bs == [EMPTY_BLOCK] {
      EmptyIsNotFilled(enc);
      assert bs[..0] == [];
    } else {
      EntriesSorted(enc, bs);
    }
  }

  /** An entry the reader returns: it passes the filter, is not the document to skip, and is not before d. */
  predicate Hit(e: Entry, accept: Record -> bool, same: nat, d: nat) {
    accept(e.rec) && e.id != same && d <= e.id
  }

  /** The reference: scan the entries one by one from p to the first hit. */
  ghost function NextHit(es: seq<Entry>, p: nat, accept: Record -> bool, same: nat, d: nat): (j: nat)
    requires p <= |es|
    ensures p <= j <= |es|
    ensures forall i :: p <= i < j ==> !Hit(es[i], accept, same, d)
    ensures j < |es| ==> Hit(es[j], accept, same, d)
    decreases |es| - p
  {
    if p == |es| || Hit(es[p], accept, same, d) then p else NextHit(es, p + 1, accept, same, d)
  }

  lemma NextHitStep(es: seq<Entry>, p: nat, accept: Record -> bool, same: nat, d: nat)
    requires p <= |es|
    ensures p == |es| ==> NextHit(es, p, accept, same, d) == p
    ensures p < |es| ==>
              NextHit(es, p, accept, same, d)
              == if Hit(es[p], accept, same, d) then p else NextHit(es, p + 1, accept, same, d)
  {
  }

  /** Everything before position p is below d. */
  ghost predicate Below(es: seq<Entry>, p: nat, d: nat)
    requires p <= |es|
  {
    forall i :: 0 <= i < p ==> es[i].id < d
  }

  /** Two positions with everything before them below d lead to the same hit. */
  lemma SameHit(es: seq<Entry>, p: nat, q: nat, accept: Record -> bool, d: nat)
    requires p <= |es| && q <= |es| && Below(es, p, d) && Below(es, q, d)
    ensures NextHit(es, p, accept, 0, d) == NextHit(es, q, accept, 0, d)
  {
    hide NextHit;
    var i, j := NextHit(es, p, accept, 0, d), NextHit(es, q, accept, 0, d);
    assert i < |es| ==> Hit(es[i], accept, 0, d);
    assert j < |es| ==> Hit(es[j], accept, 0, d);
  }

  lemma {:induction false} BlockOrder(enc: Encoding, bs: seq<Block>, i: nat, j: nat)
    requires Ordered(enc, bs) && i < j < |bs|
    ensures bs[i].firstId <= bs[i].lastId < bs[j].firstId <= bs[j].lastId
    decreases j - i
  {
    hide Filled;
    FilledBlock(enc, bs[i]);
    FilledBlock(enc, bs[j]);
    if i + 1 < j { BlockOrder(enc, bs, i, j - 1); }
  }

  /** Everything before a block is below d when the preceding block ends below d. */
  lemma BelowBlock(enc: Encoding, bs: seq<Block>, b: nat, d: nat)
    requires Ordered(enc, bs) && b < |bs| && (b == 0 || bs[b - 1].lastId < d)
    ensures Start(enc, bs, b) <= |Entries(enc, bs)|
    ensures Below(Entries(enc, bs), Start(enc, bs, b), d)
  {
    hide Filled, Entries;
    var p := bs[..b];
    EntriesPrefix(enc, bs, b);
    EntriesSorted(enc, p);
  }

  lemma BelowEarlier(es: seq<Entry>, p: nat, q: nat, d: nat)
    requires p <= q <= |es|
    ensures Below(es, q, d) ==> Below(es, p, d)
  {
  }

  lemma BlockEdges(enc: Encoding, bs: seq<Block>, i: nat)
    requires Ordered(enc, bs) && i < |bs|
    ensures Filled(enc, bs[i])
    ensures i > 0 ==> bs[i - 1].lastId < bs[i].firstId
    ensures i + 1 < |bs| ==> bs[i].lastId < bs[i + 1].firstId
  {
    hide Filled;
  }

  lemma SeveralOrdered(enc: Encoding, bs: seq<Block>)
    requires WfBlocks(enc, bs) && |bs| > 1
    ensures Ordered(enc, bs)
  {
    hide Filled;
  }

  /** What the reader holds as last id before entry k. The raw layout does not need it, and its seeker lets it lag. */
  predicate LastRead(enc: Encoding, es: seq<Entry>, k: nat, lastId: nat)
    requires k <= |es|
  {
    es != [] ==> if enc.RawDocIds? then lastId <= Before(es, k) else lastId == Before(es, k)
  }

  /** A reader stands before entry k of a block: its byte offset and last id say so. */
  ghost predicate InBlock(enc: Encoding, b: Block, k: nat, pos: nat, lastId: nat) {
    var es := Contents(enc, b);
    && Chain(enc, es) && k <= |es| && pos == Offset(enc, es, k) <= |b.data|
    && (pos == |b.data| <==> k == |es|)
    && LastRead(enc, es, k, lastId)
  }

  lemma BlockWf(enc: Encoding, bs: seq<Block>, i: nat)
    requires WfBlocks(enc, bs) && i < |bs|
    ensures WellFormed(enc, bs[i])
  {
    hide Contents;
    EmptyIsNotFilled(enc);
  }

  lemma FirstInBlock(enc: Encoding, b: Block)
    requires WellFormed(enc, b)
    ensures InBlock(enc, b, 0, 0, b.firstId)
  {
    hide Parse, Code, Encoded, Follows, EntryOk, DecodeRecord;
    var es := Contents(enc, b);
    OffsetEnd(enc, es);
    if es != [] { DecodeAt(enc, es, 0); }
  }

  lemma BlockStart(enc: Encoding, bs: seq<Block>, i: nat)
    requires WfBlocks(enc, bs) && i < |bs|
    ensures InBlock(enc, bs[i], 0, 0, bs[i].firstId)
  {
    hide WellFormed, InBlock, WfBlocks;
    BlockWf(enc, bs, i);
    FirstInBlock(enc, bs[i]);
  }

  /** A last id that lags does not matter to the raw layout. */
  lemma NextFromLast(enc: Encoding, es: seq<Entry>, k: nat, lastId: nat, delta: nat)
    requires k <= |es| && es != [] && LastRead(enc, es, k, lastId)
    ensures NextId(enc, es[0].id, lastId, delta) == NextId(enc, es[0].id, Before(es, k), delta)
  {
  }

  /** One decoding step inside a block. */
  lemma DecodeInBlock(enc: Encoding, b: Block, k: nat, pos: nat, lastId: nat)
    requires WellFormed(enc, b) && InBlock(enc, b, k, pos, lastId) && pos < |b.data|
    ensures var es := Contents(enc, b);
            var d := DecodeRecord(enc, b.data[pos..]);
            && k < |es| && d.Decoded?
            && Entry(NextId(enc, b.firstId, lastId, d.delta), d.rec) == es[k]
            && InBlock(enc, b, k + 1, pos + d.used, es[k].id)
  {
    hide DecodeRecord, Parse, NextId, Code, DeltaOf;
    var es := Contents(enc, b);
    DecodeAt(enc, es, k);
    IdAt(enc, es, k);
    NextFromLast(enc, es, k, lastId, DeltaOf(enc, es, k));
    OffsetEnd(enc, es);
    if k + 1 < |es| { DecodeAt(enc, es, k + 1); }
  }

  lemma InBlockFacts(enc: Encoding, b: Block, k: nat, pos: nat, lastId: nat)
    requires InBlock(enc, b, k, pos, lastId)
    ensures var es := Contents(enc, b);
            Chain(enc, es) && k <= |es| && pos == Offset(enc, es, k) && (pos >= |b.data| <==> k == |es|)
            && LastRead(enc, es, k, lastId)
  {
    hide Contents;
  }

  lemma ModAdd(a: nat, last: nat, d: nat)
    requires last == a || last == a % TWO_32
    ensures (last + d) % TWO_32 == (a + d) % TWO_32
  {
  }

  /** The id the 32-bit seeker computes for the next entry is the entry's id modulo 2^32. */
  lemma SeekId(enc: Encoding, blk: Block, k: nat, pos: nat, exact: nat, last: nat)
    requires WellFormed(enc, blk) && InBlock(enc, blk, k, pos, exact) && pos < |blk.data| && enc.Full?
    requires last == exact || last == exact % TWO_32
    ensures var es := Contents(enc, blk);
            var r := DecodeRecord(enc, blk.data[pos..]);
            r.Decoded? && k < |es| && (pos == 0 ==> r.delta == 0) && (last + r.delta) % TWO_32 == es[k].id % TWO_32
  {
    hide DecodeRecord, Parse, Code, EntryOk;
    var es := Contents(enc, blk);
    DecodeAt(enc, es, k);
    if k > 0 {
      DecodeAt(enc, es, k - 1);
      assert Follows(enc, es, k);
    }
    var delta := DecodeRecord(enc, blk.data[pos..]).delta;
    assert es[k].id == exact + delta;
    ModAdd(exact, last, delta);
  }

  ghost predicate AllBelow(es: seq<Entry>, d: nat) {
    forall i :: 0 <= i < |es| ==> es[i].id < d
  }

  /** With nothing from d on there is nothing to find. */
  lemma NothingFrom(es: seq<Entry>, accept: Record -> bool, d: nat)
    requires AllBelow(es, d)
    ensures NextHit(es, 0, accept, 0, d) == |es|
  {
    hide NextHit;
  }

  /**
   * Reading on from a position with everything before it below d: the next delivered entry is either
   * still below d, and then so is everything up to it, or it is the entry the seek is after.
   */
  lemma ScanHit(es: seq<Entry>, p: nat, accept: Record -> bool, same: nat, d: nat)
    requires p <= |es| && Sorted(es) && Below(es, p, d) && (same == 0 || same < d) && d >= 1
    ensures var j := NextHit(es, p, accept, same, 0);
            && (j == |es| || es[j].id >= d ==> NextHit(es, p, accept, 0, d) == j)
            && (j < |es| && es[j].id < d ==> Below(es, j + 1, d))
  {
    hide NextHit;
    var j, t := NextHit(es, p, accept, same, 0), NextHit(es, p, accept, 0, d);
    assert t < |es| ==> Hit(es[t], accept, 0, d);
    assert t < |es| ==> Hit(es[t], accept, same, 0);
    assert j < |es| ==> Hit(es[j], accept, same, 0);
    assert j < |es| && es[j].id >= d ==> Hit(es[j], accept, 0, d);
  }

  lemma SkipOver(es: seq<Entry>, p: nat, q: nat, accept: Record -> bool, d: nat)
    requires p <= q <= |es| && forall i :: p <= i < q ==> !Hit(es[i], accept, 0, d)
    ensures NextHit(es, p, accept, 0, d) == NextHit(es, q, accept, 0, d)
  {
    hide NextHit;
    var i, j := NextHit(es, p, accept, 0, d), NextHit(es, q, accept, 0, d);
    assert i < |es| ==> Hit(es[i], accept, 0, d);
    assert j < |es| ==> Hit(es[j], accept, 0, d);
  }

  lemma InBlockAt(enc: Encoding, b: Block, k: nat, pos: nat, lastId: nat)
    requires WellFormed(enc, b) && k <= |Contents(enc, b)| && pos == Offset(enc, Contents(enc, b), k)
    requires LastRead(enc, Contents(enc, b), k, lastId)
    ensures InBlock(enc, b, k, pos, lastId)
  {
    hide Parse, Code, Encoded, Follows, EntryOk, DecodeRecord;
    var es := Contents(enc, b);
    OffsetEnd(enc, es);
    if k < |es| { DecodeAt(enc, es, k); }
  }

  /** Entries k0 to k were searched by their ids modulo 2^32: the last one is the first match, or there is none. */
  ghost predicate Sought(es: seq<Entry>, k0: nat, k: nat, accept: Record -> bool, d: nat, hit: bool)
    requires k0 <= k <= |es|
  {
    && (forall i :: k0 <= i < (if hit then k - 1 else k) ==> !(accept(es[i].rec) && d <= es[i].id % TWO_32))
    && (hit ==> k0 < k && accept(es[k - 1].rec) && d <= es[k - 1].id % TWO_32)
  }

  lemma SoughtNone(es: seq<Entry>, k0: nat, accept: Record -> bool, d: nat)
    requires k0 <= |es|
    ensures Sought(es, k0, k0, accept, d, false)
  {
  }

  lemma SoughtStep(es: seq<Entry>, k0: nat, k: nat, accept: Record -> bool, d: nat)
    requires k0 <= k < |es| && Sought(es, k0, k, accept, d, false)
    ensures Sought(es, k0, k + 1, accept, d, accept(es[k].rec) && d <= es[k].id % TWO_32)
  {
  }

  /**
   * A seek delivers the entry the scan finds, under its own id, if and only if that id fits 32 bits.
   * From there on the seeker compares and returns other ids.
   */
  lemma SeekExact(es: seq<Entry>, k0: nat, k: nat, accept: Record -> bool, d: nat, hit: bool)
    requires k0 <= k <= |es| && Sorted(es) && d >= 1 && Sought(es, k0, k, accept, d, hit) && (!hit ==> k == |es|)
    ensures var t := NextHit(es, k0, accept, 0, d);
            t < |es| && hit && Entry(es[k - 1].id % TWO_32, es[k - 1].rec) == es[t] <==> t < |es| && es[t].id < TWO_32
  {
    hide NextHit;
    var t := NextHit(es, k0, accept, 0, d);
    if t < |es| && es[t].id < TWO_32 {
      assert Hit(es[t], accept, 0, d);
      forall i | k0 <= i < t ensures !(accept(es[i].rec) && d <= es[i].id % TWO_32) {
        assert !Hit(es[i], accept, 0, d);
        assert es[i].id <= es[t].id;
      }
      assert es[t].id % TWO_32 == es[t].id;
    }
  }

  /** Entries k0 to k were searched: the last one is the first match, or there is none. */
  ghost predicate Scanned(es: seq<Entry>, k0: nat, k: nat, accept: Record -> bool, d: nat, hit: bool)
    requires k0 <= k <= |es|
  {
    && (forall i :: k0 <= i < (if hit then k - 1 else k) ==> !(accept(es[i].rec) && d <= es[i].id))
    && (hit ==> k0 < k && accept(es[k - 1].rec) && d <= es[k - 1].id)
  }

  lemma SoughtIsScanned(es: seq<Entry>, k0: nat, k: nat, accept: Record -> bool, d: nat, hit: bool)
    requires k0 <= k <= |es| && AllBelow(es, TWO_32) && Sought(es, k0, k, accept, d, hit)
    ensures Scanned(es, k0, k, accept, d, hit) && (k > 0 ==> es[k - 1].id % TWO_32 == es[k - 1].id)
  {
    assert forall i :: 0 <= i < |es| ==> es[i].id % TWO_32 == es[i].id;
  }

  lemma InIndex(enc: Encoding, bs: seq<Block>, c: nat)
    requires c < |bs|
    ensures var es, all, st := Contents(enc, bs[c]), Entries(enc, bs), Start(enc, bs, c);
            st + |es| <= |all| && forall i :: 0 <= i < |es| ==> es[i] == all[st + i]
  {
    hide Contents, Entries, Start;
    var es, all, st := Contents(enc, bs[c]), Entries(enc, bs), Start(enc, bs, c);
    BlockAt(enc, bs, c);
    assert forall i :: 0 <= i < |es| ==> es[i] == all[st..Start(enc, bs, c + 1)][i] == all[st + i];
  }

  /** A search of one block finds what the linear scan of the index finds. */
  lemma SearchLands(enc: Encoding, bs: seq<Block>, c: nat, k0: nat, k: nat, accept: Record -> bool, d: nat, hit: bool)
    requires c < |bs| && k0 <= k <= |Contents(enc, bs[c])| && d >= 1
    requires Scanned(Contents(enc, bs[c]), k0, k, accept, d, hit)
    ensures var es, all, p, q := Contents(enc, bs[c]), Entries(enc, bs), Start(enc, bs, c) + k0, Start(enc, bs, c) + k;
            && p <= q <= |all|
            && (k > 0 ==> es[k - 1] == all[q - 1])
            && NextHit(all, p, accept, 0, d) == if hit then q - 1 else NextHit(all, q, accept, 0, d)
  {
    hide Contents, Entries, NextHit, Start;
    var es, all, st := Contents(enc, bs[c]), Entries(enc, bs), Start(enc, bs, c);
    InIndex(enc, bs, c);
    var stop := if hit then k - 1 else k;
    forall i | st + k0 <= i < st + stop ensures !Hit(all[i], accept, 0, d) {
      assert all[i] == es[i - st];
    }
    SkipOver(all, st + k0, st + stop, accept, d);
    if hit {
      NextHitStep(all, st + stop, accept, 0, d);
    }
  }

  /** Inside the 32-bit id range a seek in one block finds what the linear scan finds. */
  lemma SeekLands(enc: Encoding, bs: seq<Block>, c: nat, k0: nat, k: nat, accept: Record -> bool, d: nat, hit: bool)
    requires c < |bs| && k0 <= k <= |Contents(enc, bs[c])|
    requires AllBelow(Entries(enc, bs), TWO_32) && d >= 1
    requires Sought(Contents(enc, bs[c]), k0, k, accept, d, hit)
    ensures var es, all, p, q := Contents(enc, bs[c]), Entries(enc, bs), Start(enc, bs, c) + k0, Start(enc, bs, c) + k;
            && p <= q <= |all|
            && (k > 0 ==> es[k - 1].id % TWO_32 == es[k - 1].id && es[k - 1] == all[q - 1])
            && NextHit(all, p, accept, 0, d) == if hit then q - 1 else NextHit(all, q, accept, 0, d)
  {
    hide Contents, Entries, NextHit, Start, Sought, Scanned;
    InIndex(enc, bs, c);
    SoughtIsScanned(Contents(enc, bs[c]), k0, k, accept, d, hit);
    SearchLands(enc, bs, c, k0, k, accept, d, hit);
  }

  /** After a seek in a block the reader stands behind an entry again. */
  lemma SeekLeaves(enc: Encoding, b: Block, k0: nat, pos0: nat, last0: nat, k: nat, pos: nat, last: nat)
    requires WellFormed(enc, b) && InBlock(enc, b, k0, pos0, last0)
    requires k0 <= k <= |Contents(enc, b)| && pos == Offset(enc, Contents(enc, b), k)
    requires last == if k == k0 then last0 else Contents(enc, b)[k - 1].id
    ensures InBlock(enc, b, k, pos, last)
  {
    hide InBlock, WellFormed, Parse, Offset, Chain;
    InBlockFacts(enc, b, k0, pos0, last0);
    InBlockAt(enc, b, k, pos, last);
  }

  /** A raw block as its search sees it: entry i is the number at index i, and carries nothing else. */
  lemma RawBlock(blk: Block, k: nat, pos: nat, lastId: nat)
    requires WellFormed(RawDocIds, blk) && InBlock(RawDocIds, blk, k, pos, lastId) && pos < |blk.data|
    ensures var es := Contents(RawDocIds, blk);
            && |blk.data| == 4 * |es| && pos == 4 * k && k < |es| && RawSeeker.Increases(blk.data)
            && blk.firstId == es[0].id && blk.lastId == es[|es| - 1].id
  {
    hide Parse, Encoded, RawSeeker.Increases, Chain, RawSeeker.WordAt;
    var es := Contents(RawDocIds, blk);
    RawSeeker.RawOffset(es, k);
    RawSeeker.RawIncreases(es);
  }

  lemma RawEntry(blk: Block, i: nat, behind: nat)
    requires WellFormed(RawDocIds, blk) && i < |Contents(RawDocIds, blk)|
    ensures var e := Contents(RawDocIds, blk)[i];
            e.id >= blk.firstId && e.rec == BLANK && RawSeeker.WordAt(blk.data, i, behind) == e.id - blk.firstId < TWO_32
  {
    hide Parse, Encoded, RawSeeker.WordAt;
    var es := Contents(RawDocIds, blk);
    RawSeeker.RawWord(es, i, behind);
    assert EntryOk(RawDocIds, es[i]);
    if i > 0 { assert Follows(RawDocIds, es, i); }
  }

  lemma RawOrder(blk: Block, i: nat, j: nat)
    requires WellFormed(RawDocIds, blk) && i <= j < |Contents(RawDocIds, blk)|
    ensures Contents(RawDocIds, blk)[i].id <= Contents(RawDocIds, blk)[j].id
  {
    hide Parse, Encoded;
    Increasing(RawDocIds, Contents(RawDocIds, blk), i, j);
  }

  /** Numbers below a distance stand for ids below the target. */
  lemma RawUnder(blk: Block, lo: nat, hi: nat, d: nat)
    requires WellFormed(RawDocIds, blk) && lo <= hi <= |Contents(RawDocIds, blk)| && blk.firstId <= d
    requires RawSeeker.Under(blk.data, lo, hi, d - blk.firstId)
    ensures forall i :: lo <= i < hi ==> Contents(RawDocIds, blk)[i].id < d
  {
    hide WellFormed, Contents, RawSeeker.WordAt;
    forall i | lo <= i < hi ensures Contents(RawDocIds, blk)[i].id < d {
      RawEntry(blk, i, 0);
    }
  }

  lemma NotPast(enc: Encoding, b: Block, k: nat, pos: nat, lastId: nat)
    ensures InBlock(enc, b, k, pos, lastId) ==> pos <= |b.data|
  {
    hide Contents;
  }

  lemma RangeInOrder(enc: Encoding, bs: seq<Block>, i: nat)
    requires WfBlocks(enc, bs) && i < |bs|
    ensures bs[i].firstId <= bs[i].lastId && (i > 0 ==> |bs[i].data| > 0)
  {
    hide Contents, Filled;
    if bs != [EMPTY_BLOCK] {
      FilledBlock(enc, bs[i]);
      StartsFilled(enc, bs[i]);
    }
  }

  lemma BlockSorted(enc: Encoding, bs: seq<Block>, i: nat)
    requires WfBlocks(enc, bs) && i < |bs|
    ensures Sorted(Contents(enc, bs[i]))
  {
    hide Contents, Filled, Sorted;
    if bs == [EMPTY_BLOCK] {
      EmptyIsNotFilled(enc);
      SortedEmpty();
    } else {
      ContentsSorted(enc, bs[i]);
    }
  }

  lemma StartsFilled(enc: Encoding, b: Block)
    requires Filled(enc, b)
    ensures |b.data| > 0
  {
    hide Parse;
  }

  /** The upper half of a 64-bit id. */
  function High(id: nat): nat {
    id - id % TWO_32
  }

  /** Moving on in a raw block, without touching the last id, leaves a reader in the block. */
  lemma RawStands(blk: Block, k: nat, pos: nat, lastId: nat, k0: nat)
    requires WellFormed(RawDocIds, blk) && InBlock(RawDocIds, blk, k0, 4 * k0, lastId)
    requires k0 <= k <= |Contents(RawDocIds, blk)| && pos == 4 * k
    ensures InBlock(RawDocIds, blk, k, pos, lastId)
  {
    hide Parse, Chain, InBlock, WellFormed;
    InBlockFacts(RawDocIds, blk, k0, 4 * k0, lastId);
    var es := Contents(RawDocIds, blk);
    RawSeeker.RawOffset(es, k);
    if es != [] && k > 0 {
      Increasing(RawDocIds, es, if k0 == 0 then 0 else k0 - 1, k - 1);
    }
    InBlockAt(RawDocIds, blk, k, pos, lastId);
  }

  /**
   * What a raw search of the entries from k on ends with, for any target and any upper half of the record's
   * id: the entry read first if it reaches d together with the upper half; else the number behind the
   * block if that entry was the last and the number reaches d; else the first entry from d on, or nothing.
   */
  ghost predicate RawOutcome(es: seq<Entry>, k: nat, d: nat, behind: nat, high: nat, hit: bool, pos: nat, id: nat, k': nat)
    requires k < |es|
  {
    if d <= high + es[k].id then
      hit && k' == k + 1 && pos == 4 * k' && id == high + es[k].id
    else if k + 1 == |es| && d <= es[0].id + behind then
      hit && pos == 4 * |es| + 4 && id == high + es[0].id + behind
    else
      && k < k' <= |es| && pos == 4 * k'
      && (forall i :: k <= i < (if hit then k' - 1 else k') ==> es[i].id < d)
      && (if hit then d <= es[k' - 1].id && id == high + es[k' - 1].id
          else es[|es| - 1].id < d && id == high + es[k].id - es[0].id && k' == k + 1)
  }

  lemma RawScanned(blk: Block, k: nat, k': nat, accept: Record -> bool, d: nat, hit: bool)
    requires WellFormed(RawDocIds, blk) && k < k' <= |Contents(RawDocIds, blk)| && accept(BLANK)
    requires var es := Contents(RawDocIds, blk);
             && (forall i :: k <= i < (if hit then k' - 1 else k') ==> es[i].id < d)
             && (hit ==> d <= es[k' - 1].id)
    ensures Scanned(Contents(RawDocIds, blk), k, k', accept, d, hit)
    ensures Contents(RawDocIds, blk)[k' - 1].rec == BLANK
  {
    hide WellFormed, Contents;
    RawEntry(blk, k' - 1, 0);
  }

  /** Nothing found: the whole rest of the block is below d. */
  lemma RawNothing(blk: Block, k: nat, d: nat, behind: nat, high: nat)
    requires WellFormed(RawDocIds, blk) && k < |Contents(RawDocIds, blk)|
    requires var es := Contents(RawDocIds, blk);
             high + es[k].id < d && es[|es| - 1].id < d && (k + 1 == |es| ==> es[0].id + behind < d)
    ensures var es := Contents(RawDocIds, blk);
            es[0].id <= es[k].id && RawOutcome(es, k, d, behind, high, false, 4 * k + 4, high + es[k].id - es[0].id, k + 1)
  {
    hide WellFormed, Contents;
    RawOrder(blk, 0, k);
  }

  /** Found by the search: everything before it is below d. */
  lemma RawThere(blk: Block, k: nat, cur: nat, d: nat, behind: nat, high: nat)
    requires WellFormed(RawDocIds, blk) && k < cur < |Contents(RawDocIds, blk)|
    requires high + Contents(RawDocIds, blk)[k].id < d <= Contents(RawDocIds, blk)[cur].id && blk.firstId <= d
    requires RawSeeker.Under(blk.data, k + 1, cur, d - blk.firstId)
    ensures RawOutcome(Contents(RawDocIds, blk), k, d, behind, high, true, 4 * cur + 4,
                       high + Contents(RawDocIds, blk)[cur].id, cur + 1)
  {
    hide WellFormed, Contents, RawSeeker.Under;
    RawUnder(blk, k + 1, cur, d);
  }

  /** One search in a raw block: what it finds, where it stands, and the id it returns. */
  method FindRaw(blk: Block, pos: nat, high: nat, d: nat, behind: nat, ghost k: nat, ghost lastId: nat)
    returns (hit: bool, pos': nat, id: nat, ghost k': nat)
    requires WellFormed(RawDocIds, blk) && InBlock(RawDocIds, blk, k, pos, lastId) && pos < |blk.data|
    ensures k < |Contents(RawDocIds, blk)|
    ensures RawOutcome(Contents(RawDocIds, blk), k, d, behind, high, hit, pos', id, k')
  {
    hide InBlock, WellFormed, Contents, RawSeeker.Increases, RawSeeker.WordAt, RawSeeker.Under;
    RawBlock(blk, k, pos, lastId);
    ghost var es := Contents(RawDocIds, blk);
    RawEntry(blk, k, 0);
    RawEntry(blk, k, behind);
    var word := RawSeeker.WordAt(blk.data, pos / 4, behind);
    pos', k' := pos + 4, k + 1;
    if d < blk.firstId || high + word >= d - blk.firstId {
      return true, pos', high + word + blk.firstId, k';
    }
    hide RawOutcome;
    var found, cur := RawSeeker.Search(blk.data, pos' / 4, d - blk.firstId, behind);
    if !found {
      if k + 1 < |es| { RawUnder(blk, k + 1, |es|, d); }
      RawNothing(blk, k, d, behind, high);
      return false, pos', high + word, k';
    }
    pos' := 4 * cur + 4;
    id := high + RawSeeker.WordAt(blk.data, cur, behind) + blk.firstId;
    k' := cur + 1;
    hit := true;
    if cur < |es| {
      RawEntry(blk, cur, behind);
      RawEntry(blk, cur, 0);
      RawThere(blk, k, cur, d, behind, high);
    } else {
      RawSeeker.BehindContents(blk.data, behind);
      RawBehind(es, k, d, behind, high, k');
    }
  }

  lemma RawBehind(es: seq<Entry>, k: nat, d: nat, behind: nat, high: nat, k': nat)
    requires k + 1 == |es| && high + es[k].id < d <= es[0].id + behind
    ensures RawOutcome(es, k, d, behind, high, true, 4 * |es| + 4, high + es[0].id + behind, k')
  {
  }

  /** A raw search that stays inside the block delivers an entry under its own id only without an upper half. */
  lemma RawOwnId(blk: Block, k: nat, d: nat, behind: nat, high: nat, hit: bool, pos: nat, id: nat, k': nat, accept: Record -> bool)
    requires WellFormed(RawDocIds, blk) && k < |Contents(RawDocIds, blk)| && accept(BLANK)
    requires var es := Contents(RawDocIds, blk);
             RawOutcome(es, k, d, behind, high, hit, pos, id, k') && pos <= 4 * |es|
    ensures var es := Contents(RawDocIds, blk);
            && k < k' <= |es| && pos == 4 * k' && es[k' - 1].rec == BLANK
            && (hit ==> id == high + es[k' - 1].id)
            && (high == 0 ==> Scanned(es, k, k', accept, d, hit) && if hit then d <= es[|es| - 1].id else id < TWO_32)
  {
    hide WellFormed, Contents, Scanned;
    var es := Contents(RawDocIds, blk);
    RawOrder(blk, k, |es| - 1);
    RawOrder(blk, k' - 1, |es| - 1);
    RawEntry(blk, k, 0);
    RawEntry(blk, k' - 1, 0);
    RawBounds(blk);
    if high == 0 { RawScanned(blk, k, k', accept, d, hit); }
  }

  lemma RawBounds(blk: Block)
    requires WellFormed(RawDocIds, blk) && Contents(RawDocIds, blk) != []
    ensures blk.firstId == Contents(RawDocIds, blk)[0].id
  {
    hide Parse, Encoded;
  }

  /** The last block from c on whose first id is not above d, or c itself. */
  ghost function Home(bs: seq<Block>, c: nat, d: nat): (h: nat)
    requires c < |bs|
    ensures c <= h < |bs| && (h == c || bs[h].firstId <= d) && (h + 1 < |bs| ==> d < bs[h + 1].firstId)
    decreases |bs| - c
  {
    if c + 1 < |bs| && bs[c + 1].firstId <= d then Home(bs, c + 1, d) else c
  }

  lemma HomeAgain(bs: seq<Block>, c: nat, d: nat)
    requires c < |bs|
    ensures Home(bs, Home(bs, c, d), d) == Home(bs, c, d)
  {
  }

  /** Seeking d from block c on stays inside the contents of the blocks. */
  ghost predicate CleanFrom(enc: Encoding, bs: seq<Block>, c: nat, d: nat, behind: nat)
    requires c < |bs|
  {
    var b := bs[Home(bs, c, d)];
    enc.RawDocIds? ==> d <= b.lastId || b.firstId + behind < d
  }

  lemma HomeIs(enc: Encoding, bs: seq<Block>, c: nat, d: nat, h: nat)
    requires Ordered(enc, bs) && c <= h < |bs|
    requires (h == c || bs[h].firstId <= d) && (h + 1 < |bs| ==> d < bs[h + 1].firstId)
    ensures h == Home(bs, c, d)
  {
    hide Home, Filled;
    var g := Home(bs, c, d);
    if g < h {
      if g + 1 < h { BlockOrder(enc, bs, g + 1, h); }
    } else if h < g {
      if h + 1 < g { BlockOrder(enc, bs, h + 1, g); }
    }
  }

  lemma HomeHere(enc: Encoding, bs: seq<Block>, c: nat, d: nat)
    requires WfBlocks(enc, bs) && c < |bs| && bs[c].firstId <= d <= bs[c].lastId
    ensures Home(bs, c, d) == c
  {
    hide Filled, Contents;
  }

  /** A block that was read to its end has its last id among the entries already behind. */
  lemma LastIsBelow(enc: Encoding, bs: seq<Block>, c: nat, d: nat)
    requires WfBlocks(enc, bs) && c < |bs| && 1 <= d <= bs[c].lastId
    ensures var p := Start(enc, bs, c) + |Contents(enc, bs[c])|;
            p <= |Entries(enc, bs)| && !Below(Entries(enc, bs), p, d)
  {
    hide Contents, Entries, Filled, Start, Chain, Encoded;
    var es, all, st := Contents(enc, bs[c]), Entries(enc, bs), Start(enc, bs, c);
    BlockAt(enc, bs, c);
    if bs != [EMPTY_BLOCK] {
      FilledBlock(enc, bs[c]);
      assert es[|es| - 1] == all[st..Start(enc, bs, c + 1)][|es| - 1] == all[st + |es| - 1];
    }
  }

  /** The ids a reader at position p has yet to deliver. */
  ghost function Remaining(es: seq<Entry>, p: nat, accept: Record -> bool, same: nat): set<nat>
    requires p <= |es|
  {
    set i | p <= i < |es| && Hit(es[i], accept, same, 0) :: es[i].id
  }

  /** Behind the hit j remain exactly the larger ids. */
  lemma RemainingAfter(es: seq<Entry>, p: nat, j: nat, accept: Record -> bool, same: nat, same': nat)
    requires p <= j < |es| && Sorted(es)
    requires same' == es[j].id || (same' == 0 && StrictlySorted(es))
    requires same == 0 || same < es[j].id
    requires forall i :: 0 <= i < |es| ==> es[i].id >= 1
    ensures Remaining(es, j + 1, accept, same') == From(Remaining(es, p, accept, same), es[j].id + 1)
  {
    var more, later := Remaining(es, j + 1, accept, same'), From(Remaining(es, p, accept, same), es[j].id + 1);
    forall x | x in more ensures x in later {
      var i :| j + 1 <= i < |es| && Hit(es[i], accept, same', 0) && es[i].id == x;
      assert es[j].id < es[i].id && Hit(es[i], accept, same, 0);
    }
    forall x | x in later ensures x in more {
      var i :| p <= i < |es| && Hit(es[i], accept, same, 0) && es[i].id == x;
      assert i > j && Hit(es[i], accept, same', 0);
    }
  }

  /** A read delivers the least remaining id. */
  lemma ReadMeetsContract(es: seq<Entry>, p: nat, accept: Record -> bool, same: nat, same': nat)
    requires p <= |es| && Sorted(es) && forall i :: 0 <= i < |es| ==> es[i].id >= 1
    requires forall i :: p <= i < |es| ==> same <= es[i].id
    ensures var j := NextHit(es, p, accept, same, 0);
            var rem := Remaining(es, p, accept, same);
            if j == |es| then rem == {}
            else (same' == es[j].id || (same' == 0 && StrictlySorted(es)))
                 ==> ReadSpec(rem, Ok, es[j].id, Remaining(es, j + 1, accept, same'))
  {
    hide NextHit;
    var j := NextHit(es, p, accept, same, 0);
    if j < |es| {
      assert Hit(es[j], accept, same, 0);
      assert es[j].id in Remaining(es, p, accept, same);
      if same' == es[j].id || (same' == 0 && StrictlySorted(es)) {
        RemainingAfter(es, p, j, accept, same, same');
      }
    }
  }

  /** A seek delivers the least remaining id from d on. */
  lemma SkipMeetsContract(es: seq<Entry>, p: nat, accept: Record -> bool, same: nat, same': nat, d: nat)
    requires p <= |es| && Sorted(es) && forall i :: 0 <= i < |es| ==> es[i].id >= 1
    requires Below(es, p, d) && (same == 0 || same < d)
    ensures var j := NextHit(es, 0, accept, 0, d);
            var rem := Remaining(es, p, accept, same);
            if j == |es| then From(rem, d) == {}
            else (same' == es[j].id || (same' == 0 && StrictlySorted(es)))
                 ==> SkipSpec(rem, d, if es[j].id == d then Ok else NotFound, es[j].id, Remaining(es, j + 1, accept, same'))
  {
    hide NextHit;
    var j := NextHit(es, 0, accept, 0, d);
    var rem := Remaining(es, p, accept, same);
    if j == |es| {
      assert forall i :: p <= i < |es| && Hit(es[i], accept, same, 0) ==> !Hit(es[i], accept, 0, d);
    } else {
      assert Hit(es[j], accept, 0, d);
      assert Hit(es[j], accept, same, 0);
      assert es[j].id in From(rem, d);
      forall x | x in From(rem, d) ensures es[j].id <= x {
        var i :| p <= i < |es| && Hit(es[i], accept, same, 0) && es[i].id == x;
        assert Hit(es[i], accept, 0, d);
      }
      if same' == es[j].id || (same' == 0 && StrictlySorted(es)) {
        RemainingAfter(es, p, j, accept, same, same');
      }
    }
  }

  lemma NoneRemain(es: seq<Entry>, accept: Record -> bool, same: nat)
    ensures Remaining(es, |es|, accept, same) == {}
  {
  }

  /** An index that only took writes: full blocks stay, the last one may have grown, others may follow. */
  ghost predicate Grown(enc: Encoding, bs: seq<Block>, bs': seq<Block>) {
    && bs != [] && |bs| <= |bs'| && bs'[..|bs| - 1] == bs[..|bs| - 1]
    && Contents(enc, bs[|bs| - 1]) <= Contents(enc, bs'[|bs| - 1])
  }

  lemma GrownOnce(enc: Encoding, bs: seq<Block>, mid: seq<Block>, bs': seq<Block>, e: Entry)
    requires Grown(enc, bs, mid) && Appended(enc, mid, bs', e)
    ensures Grown(enc, bs, bs')
  {
    hide Contents;
    assert |bs| < |mid| ==> mid[..|mid| - 1][..|bs|] == bs'[..|mid| - 1][..|bs|];
  }

  /** Growing keeps what was there, at the same places. */
  lemma GrownEntries(enc: Encoding, bs: seq<Block>, bs': seq<Block>, c: nat)
    requires Grown(enc, bs, bs') && c < |bs|
    ensures Entries(enc, bs) <= Entries(enc, bs')
    ensures Start(enc, bs, c) == Start(enc, bs', c)
  {
    hide Contents;
    var n := |bs| - 1;
    assert bs[..n][..c] == bs[..c] && bs'[..n][..c] == bs'[..c];
    EntriesPrefix(enc, bs', n + 1);
    assert bs'[..n + 1][..n] == bs'[..n];
  }

  lemma OffsetPrefix(enc: Encoding, es: seq<Entry>, more: seq<Entry>, k: nat)
    requires Chain(enc, es) && Chain(enc, more) && es <= more && k <= |es|
    ensures Offset(enc, es, k) == Offset(enc, more, k)
  {
    hide EncodeRecord, EntryOk, Follows;
    assert Codes(enc, es)[..k] == Codes(enc, more)[..k];
  }

  /** A reader inside a block is still inside it, at the same entry, after the block has grown. */
  lemma GrownInBlock(enc: Encoding, b: Block, b': Block, k: nat, pos: nat, lastId: nat)
    requires Filled(enc, b) && WellFormed(enc, b') && Contents(enc, b) <= Contents(enc, b')
    requires InBlock(enc, b, k, pos, lastId)
    ensures InBlock(enc, b', k, pos, lastId)
  {
    hide Parse, Offset, Chain, WellFormed;
    FilledBlock(enc, b);
    InBlockFacts(enc, b, k, pos, lastId);
    var es, more := Contents(enc, b), Contents(enc, b');
    assert Chain(enc, more) by { ChainOf(enc, b'); }
    OffsetPrefix(enc, es, more, k);
    InBlockAt(enc, b', k, pos, lastId);
  }

  lemma GrownAt(enc: Encoding, bs: seq<Block>, bs': seq<Block>, c: nat)
    requires Grown(enc, bs, bs') && c < |bs|
    ensures Contents(enc, bs[c]) <= Contents(enc, bs'[c])
  {
    hide Contents;
    assert c < |bs| - 1 ==> bs[..|bs| - 1][c] == bs'[..|bs| - 1][c];
  }

  lemma ChainOf(enc: Encoding, b: Block)
    requires WellFormed(enc, b)
    ensures Chain(enc, Contents(enc, b))
  {
  }

  ghost function Ids(es: seq<Entry>): set<nat> {
    set e | e in es :: e.id
  }

  /** The ids that have another one, from last on, below them: what seeking to last leaves. */
  ghost function Beyond(ids: set<nat>, last: nat): set<nat> {
    set x | x in ids && HasBetween(ids, last, x)
  }

  ghost predicate HasBetween(ids: set<nat>, last: nat, x: nat) {
    exists y :: y in ids && last <= y < x
  }

  /** Nothing from last on is left, or exactly one id from last up to the one passed last. */
  ghost predicate Resumes(ids: set<nat>, last: nat, passed: nat) {
    From(ids, last) == {} || exists x :: OnlyOne(ids, last, passed, x)
  }

  ghost predicate OnlyOne(ids: set<nat>, last: nat, passed: nat, x: nat) {
    x in ids && last <= x <= passed && forall y :: y in ids && last <= y <= passed ==> y == x
  }

  /**
   * Seeking to last leaves exactly what is above the id passed last if and only if exactly one id from
   * last up to that one is still there, or nothing from last on is. Otherwise the seek passes one more
   * document, which is never delivered, or goes back behind documents that were.
   */
  lemma ResumeExact(ids: set<nat>, last: nat, passed: nat)
    requires forall x :: x in ids ==> x <= passed || last <= x
    ensures Beyond(ids, last) == From(ids, passed + 1) <==> Resumes(ids, last, passed)
  {
    var left, due := Beyond(ids, last), From(ids, passed + 1);
    if From(ids, last) == {} {
      assert left == {} by { assert forall y :: y in ids && last <= y ==> y in From(ids, last); }
      assert due == {} by { assert forall y :: y in due ==> y in From(ids, last); }
    } else {
      var h := LeastOf(From(ids, last));
      assert h in ids && last <= h;
      assert forall x :: x in left <==> x in ids && h < x by {
        forall x | x in ids && h < x ensures HasBetween(ids, last, x) { }
        assert forall y :: y in ids && last <= y ==> y in From(ids, last);
      }
      if OnlyOne(ids, last, passed, h) {
        assert left == due;
      } else if h > passed {
        assert h in due && h !in left;
        assert forall x :: OnlyOne(ids, last, passed, x) ==> x in From(ids, last);
      } else {
        var y :| y in ids && last <= y <= passed && y != h;
        assert y in From(ids, last);
        assert y in left && y !in due;
      }
    }
  }

  /**
   * A reader whose last id is the one it passed last resumes exactly if that document is still there or
   * nothing from it on is; one that has passed nothing, only if nothing is left at all.
   */
  lemma ResumesWhen(ids: set<nat>, last: nat)
    ensures Resumes(ids, last, last) <==> last in ids || From(ids, last) == {}
    ensures last >= 1 ==> (Resumes(ids, last, 0) <==> From(ids, last) == {})
  {
    if last in ids { assert OnlyOne(ids, last, last, last); }
  }

  /** The ids beyond last are those above the least one from last on. */
  lemma AboveLeast(ids: set<nat>, last: nat, least: nat)
    requires least in ids && last <= least && forall y :: y in ids && last <= y ==> least <= y
    ensures forall x :: x in Beyond(ids, last) <==> x in ids && least < x
  {
  }

  lemma RemainingHit(es: seq<Entry>, accept: Record -> bool, x: nat) returns (i: nat)
    requires x in Remaining(es, 0, accept, 0)
    ensures i < |es| && es[i].id == x && forall d: nat :: d <= x ==> Hit(es[i], accept, 0, d)
  {
    i :| 0 <= i < |es| && Hit(es[i], accept, 0, 0) && es[i].id == x;
  }

  /** Right behind the first hit from last on, or at the end, exactly the ids beyond last remain. */
  lemma SeekLeavesBeyond(es: seq<Entry>, accept: Record -> bool, last: nat)
    requires StrictlySorted(es) && forall i :: 0 <= i < |es| ==> es[i].id >= 1
    ensures var j := NextHit(es, 0, accept, 0, last);
            Remaining(es, if j < |es| then j + 1 else |es|, accept, 0) == Beyond(Remaining(es, 0, accept, 0), last)
    ensures Remaining(es, |es|, accept, 0) == {}
  {
    hide NextHit, Remaining, Beyond;
    var j, all := NextHit(es, 0, accept, 0, last), Remaining(es, 0, accept, 0);
    NoneRemain(es, accept, 0);
    forall y | y in all && last <= y ensures j < |es| && es[j].id <= y {
      var i := RemainingHit(es, accept, y);
      assert Hit(es[i], accept, 0, last);
    }
    if j == |es| {
      NothingBeyond(all, last);
    } else {
      HitRemains(es, accept, j, last);
      AboveLeast(all, last, es[j].id);
      RemainingAfter(es, 0, j, accept, 0, 0);
    }
  }

  lemma NothingBeyond(ids: set<nat>, last: nat)
    requires forall y :: y in ids ==> y < last
    ensures Beyond(ids, last) == {}
  {
  }

  lemma HitRemains(es: seq<Entry>, accept: Record -> bool, j: nat, d: nat)
    requires j < |es| && Hit(es[j], accept, 0, d) && es[j].id >= 1
    ensures es[j].id in Remaining(es, 0, accept, 0) && d <= es[j].id
    ensures Hit(es[j], accept, 0, 0)
  {
    assert Hit(es[j], accept, 0, 0);
  }

  lemma AcceptedIds(es: seq<Entry>, accept: Record -> bool)
    ensures forall x :: x in Remaining(es, 0, accept, 0) ==> x in Ids(es)
  {
  }

  /** The greatest id behind position p. */
  ghost function Passed(es: seq<Entry>, p: nat): nat
    requires p <= |es|
  {
    if p == 0 then 0 else es[p - 1].id
  }

  /** New ids come from above. */
  ghost predicate OnlyAbove(es: seq<Entry>, es': seq<Entry>, bound: nat) {
    forall x :: x in Ids(es') ==> x in Ids(es) || x > bound
  }

  /** What became of an index: entries are gone, and others came behind them. */
  ghost predicate Succeeds(es: seq<Entry>, es': seq<Entry>) {
    OnlyAbove(es, es', Passed(es, |es|))
  }

  /** A reader's last id is that of a passed entry, or the next one's, or lags behind. */
  lemma LastIdAt(enc: Encoding, was: seq<Block>, c: nat, k: nat, pos: nat, last: nat)
    requires Ordered(enc, was) && c < |was| && InBlock(enc, was[c], k, pos, last)
    ensures var es, p := Entries(enc, was), Start(enc, was, c) + k;
            p <= |es| && es != [] && if k == 0 then p < |es| && last <= es[p].id else last <= es[p - 1].id
  {
    hide InBlock, Entries, Contents, Chain, Start, Filled;
    InBlockFacts(enc, was[c], k, pos, last);
    InIndex(enc, was, c);
    FilledBlock(enc, was[c]);
  }

  lemma BetweenIds(es: seq<Entry>, p: nat, last: nat, es': seq<Entry>, x: nat)
    requires Sorted(es) && p <= |es| && es != [] && Succeeds(es, es') && x in Ids(es')
    requires last <= es[if p == |es| then p - 1 else p].id
    ensures x <= Passed(es, p) || last <= x
  {
    if x in Ids(es) {
      var i :| 0 <= i < |es| && es[i].id == x;
    }
  }

  /** No id lies between the one passed last and a last id ahead of it. */
  lemma NothingBetween(enc: Encoding, was: seq<Block>, c: nat, k: nat, pos: nat, last: nat, es': seq<Entry>)
    requires Ordered(enc, was) && c < |was| && InBlock(enc, was[c], k, pos, last) && Succeeds(Entries(enc, was), es')
    ensures var es, p := Entries(enc, was), Start(enc, was, c) + k;
            p <= |es| && forall x :: x in Ids(es') ==> x <= Passed(es, p) || last <= x
  {
    hide InBlock, Entries, Start, Ordered, Succeeds, Ids;
    var es, p := Entries(enc, was), Start(enc, was, c) + k;
    LastIdAt(enc, was, c, k, pos, last);
    EntriesSorted(enc, was);
    forall x | x in Ids(es') ensures x <= Passed(es, p) || last <= x {
      BetweenIds(es, p, last, es', x);
    }
  }

  /**
   * A rewound reader that delivers each document once starts with the same entry as a new one if and
   * only if the first document it would deliver is not the one it delivered last.
   */
  lemma RewindExact(es: seq<Entry>, accept: Record -> bool, same: nat)
    requires forall i :: 0 <= i < |es| ==> es[i].id >= 1
    ensures var first := NextHit(es, 0, accept, 0, 0);
            NextHit(es, 0, accept, same, 0) == first <==> first == |es| || es[first].id != same
  {
    hide NextHit;
    var f, g := NextHit(es, 0, accept, 0, 0), NextHit(es, 0, accept, same, 0);
    assert f < |es| ==> Hit(es[f], accept, 0, 0);
    assert g < |es| ==> Hit(es[g], accept, same, 0);
    assert g < |es| ==> Hit(es[g], accept, 0, 0);
    assert f < |es| && es[f].id != same ==> Hit(es[f], accept, same, 0);
  }

  class Reader {
    const idx: InvertedIndex
    /** The decoder's filter: a field mask test, a numeric range test, or nothing. */
    const accept: Record -> bool
    /** Deliver each document once, although it may have several entries. */
    const skipMulti: bool
    var currentBlock: nat
    var pos: nat
    var lastId: nat
    var sameId: nat
    var atEnd: bool
    var gcMarker: nat
    var record: Entry
    /** How many entries of the current block are behind pos. */
    ghost var k: nat

    ghost predicate Valid()
      reads this, idx
    {
      && WfBlocks(idx.enc, idx.blocks) && currentBlock < |idx.blocks|
      && InBlock(idx.enc, idx.blocks[currentBlock], k, pos, lastId)
    }

    ghost function All(): seq<Entry>
      reads this, idx
    {
      Entries(idx.enc, idx.blocks)
    }

    /** How many entries of the index are behind the reader. */
    ghost function Position(): nat
      requires Valid()
      reads this, idx
      ensures Position() <= |All()|
    {
      BlockAt(idx.enc, idx.blocks, currentBlock);
      Start(idx.enc, idx.blocks, currentBlock) + k
    }

    function Skipped(): nat
      reads this
    {
      if skipMulti then sameId else 0
    }

    constructor (idx: InvertedIndex, accept: Record -> bool, skipMulti: bool)
      requires idx.Valid()
      ensures Valid() && this.idx == idx && this.accept == accept && this.skipMulti == skipMulti
      ensures Position() == 0 && !atEnd && sameId == 0 && gcMarker == idx.gcMarker && record == Entry(0, BLANK)
      ensures lastId == idx.blocks[0].firstId && pos == 0
    {
      hide Contents, Filled, InBlock, Entries;
      this.idx, this.accept, this.skipMulti := idx, accept, skipMulti;
      currentBlock, pos, k := 0, 0, 0;
      lastId, sameId, atEnd, gcMarker := idx.blocks[0].firstId, 0, false, idx.gcMarker;
      record := Entry(0, BLANK);
      new;
      BlockStart(idx.enc, idx.blocks, 0);
      StartEnds(idx.enc, idx.blocks);
    }

    method AtBlockEnd() returns (b: bool)
      requires Valid()
      ensures b == (k == |Contents(idx.enc, idx.blocks[currentBlock])|)
      ensures b == (pos >= |idx.blocks[currentBlock].data|)
    {
      hide WfBlocks, Contents;
      b := pos >= |idx.blocks[currentBlock].data|;
    }

    /** Move to the start of block b. */
    method OpenBlock(b: nat)
      requires WfBlocks(idx.enc, idx.blocks) && b < |idx.blocks|
      modifies this`currentBlock, this`pos, this`lastId, this`k
      ensures Valid() && currentBlock == b && k == 0 && pos == 0 && Position() == Start(idx.enc, idx.blocks, b)
      ensures lastId == idx.blocks[b].firstId
    {
      hide Contents, Filled, WfBlocks, InBlock;
      currentBlock, pos, k := b, 0, 0;
      lastId := idx.blocks[b].firstId;
      BlockStart(idx.enc, idx.blocks, b);
    }

    /** Decode the entry at the reader's position. */
    method DecodeNext()
      requires Valid() && pos < |idx.blocks[currentBlock].data|
      modifies this`pos, this`lastId, this`record, this`k
      ensures Valid() && old(Position()) < |All()| && Position() == old(Position()) + 1
      ensures record == All()[old(Position())] && lastId == record.id
    {
      hide DecodeRecord, Contents, NextId, Encoded, WfBlocks, Entries, InBlock;
      ghost var p := Position();
      var blk := idx.blocks[currentBlock];
      BlockWf(idx.enc, idx.blocks, currentBlock);
      DecodeInBlock(idx.enc, blk, k, pos, lastId);
      BlockAt(idx.enc, idx.blocks, currentBlock);
      var d := DecodeRecord(idx.enc, blk.data[pos..]);
      pos := pos + d.used;
      lastId := NextId(idx.enc, blk.firstId, lastId, d.delta);
      record := Entry(lastId, d.rec);
      k := k + 1;
      assert All()[p] == All()[Start(idx.enc, idx.blocks, currentBlock)..][k - 1];
    }

    /** Step over block ends; false when the last block is used up. */
    method FindBlock() returns (found: bool)
      requires Valid()
      modifies this`currentBlock, this`pos, this`lastId, this`k
      ensures Valid() && Position() == old(Position())
      ensures found ==> pos < |idx.blocks[currentBlock].data|
      ensures !found ==> Position() == |All()|
      ensures old(pos) < |idx.blocks[old(currentBlock)].data| ==> found && unchanged(this)
      ensures old(pos) >= |idx.blocks[old(currentBlock)].data| && old(currentBlock) + 1 == |idx.blocks| ==> !found
    {
      hide InBlock, WfBlocks, Contents, Entries;
      ghost var p := Position();
      var done := AtBlockEnd();
      while done
        invariant Valid() && Position() == p
        invariant done == (k == |Contents(idx.enc, idx.blocks[currentBlock])|)
        invariant done == (pos >= |idx.blocks[currentBlock].data|)
        invariant old(pos) < |idx.blocks[old(currentBlock)].data| ==> !done && unchanged(this)
        decreases |idx.blocks| - currentBlock
      {
        BlockAt(idx.enc, idx.blocks, currentBlock);
        if currentBlock + 1 == |idx.blocks| {
          StartEnds(idx.enc, idx.blocks);
          return false;
        }
        OpenBlock(currentBlock + 1);
        done := AtBlockEnd();
      }
      return true;
    }

    /** Deliver the next entry that passes the filter (and is of a new document, if so configured). */
    method Read() returns (rc: Status)
      requires atEnd || Valid()
      modifies this
      ensures gcMarker == old(gcMarker)
      ensures old(atEnd) ==> rc == Eof && unchanged(this)
      ensures !old(atEnd) ==> Valid() && (record == old(record) || record in All())
      ensures !old(atEnd) ==>
                var j := NextHit(All(), old(Position()), accept, old(Skipped()), 0);
                if j < |All()| then
                  && rc == Ok && !atEnd && Position() == j + 1 && record == All()[j] && lastId == record.id
                  && sameId == if skipMulti then record.id else old(sameId)
                else rc == Eof && atEnd && Position() == |All()| && sameId == old(sameId)
    {
      hide InBlock, WfBlocks, Contents, Entries, NextHit, Start, Sorted, StrictlySorted;
      if atEnd {
        return Eof;
      }
      while true
        invariant Valid() && !atEnd && sameId == old(sameId) && gcMarker == old(gcMarker)
        invariant record == old(record) || record in All()
        invariant NextHit(All(), Position(), accept, Skipped(), 0)
                  == NextHit(All(), old(Position()), accept, old(Skipped()), 0)
        decreases |All()| - Position()
      {
        var found := FindBlock();
        NextHitStep(All(), Position(), accept, Skipped(), 0);
        if !found {
          atEnd := true;
          return Eof;
        }
        WfEntriesSorted(idx.enc, idx.blocks);
        DecodeNext();
        if !accept(record.rec) {
          continue;
        }
        if skipMulti {
          if sameId == lastId {
            continue;
          }
          sameId := lastId;
        }
        return Ok;
      }
    }

    /**
     * Binary search, from the current block on, for the last block that does not start above d. It may
     * fall back to the start of the current block, but never passes an entry that is not below d.
     */
    method SkipToBlock(d: nat)
      requires Valid()
      modifies this`currentBlock, this`pos, this`lastId, this`k
      ensures Valid() && currentBlock == Home(idx.blocks, old(currentBlock), d)
      ensures currentBlock == Home(idx.blocks, currentBlock, d)
      ensures old(currentBlock) + 1 == |idx.blocks| ==> unchanged(this)
      ensures old(currentBlock) + 1 < |idx.blocks| ==> pos < |idx.blocks[currentBlock].data|
      ensures old(Below(All(), Position(), d)) ==> Below(All(), Position(), d)
    {
      hide InBlock, Contents, Entries, Filled, Start, Home, Below, WfBlocks, Ordered;
      HomeAgain(idx.blocks, currentBlock, d);
      if currentBlock + 1 == |idx.blocks| {
        return;
      }
      ghost var bs, c, p := idx.blocks, currentBlock, Position();
      SeveralOrdered(idx.enc, bs);
      var top: int, bottom: int := |idx.blocks| - 1, currentBlock + 1;
      var i := bottom;
      while bottom <= top
        invariant c == currentBlock && c < bottom <= top + 1 && c <= top < |bs|
        invariant if bottom <= top then bottom <= i <= top else i == top
        invariant forall b :: c < b < bottom ==> bs[b].lastId < d
        invariant top + 1 < |bs| ==> d < bs[top + 1].firstId
        decreases top + 1 - bottom
      {
        var blk := idx.blocks[i];
        if blk.firstId <= d <= blk.lastId {
          BlockEdges(idx.enc, bs, i);
          BelowBlock(idx.enc, bs, i, d);
          HomeIs(idx.enc, bs, c, d, i);
          OpenBlock(i);
          StartsFilled(idx.enc, bs[i]);
          return;
        }
        if d < blk.firstId {
          top := i - 1;
        } else {
          forall b | bottom <= b < i ensures bs[b].lastId < d { BlockOrder(idx.enc, bs, b, i); }
          bottom := i + 1;
        }
        i := (bottom + top) / 2;
      }
      assert top == c || bs[top].lastId < d;
      BlockEdges(idx.enc, bs, top);
      if top == c {
        BelowEarlier(All(), Start(idx.enc, bs, c), p, d);
      } else {
        FilledBlock(idx.enc, bs[top]);
        BelowBlock(idx.enc, bs, top, d);
      }
      HomeIs(idx.enc, bs, c, d, top);
      OpenBlock(i);
      StartsFilled(idx.enc, bs[i]);
    }

    /**
     * The dedicated seeker for full records: decode to the first entry of the block that passes the
     * filter and is not below d. It computes ids in 32 bits, so what it compares and returns are the
     * ids modulo 2^32.
     */
    method Seek(d: nat) returns (hit: bool)
      requires Valid() && idx.enc.Full?
      modifies this`pos, this`lastId, this`record, this`k
      ensures WfBlocks(idx.enc, idx.blocks) && currentBlock < |idx.blocks|
      ensures var es := Contents(idx.enc, idx.blocks[currentBlock]);
              && old(k) <= k <= |es| && Chain(idx.enc, es) && pos == Offset(idx.enc, es, k)
              && Sought(es, old(k), k, accept, d, hit)
              && (hit ==> k > 0 && record == Entry(es[k - 1].id % TWO_32, es[k - 1].rec))
              && (!hit ==> k == |es|)
              && (var t := NextHit(es, old(k), accept, 0, d);
                  d >= 1 ==> (t < |es| && hit && record == es[t] <==> t < |es| && es[t].id < TWO_32))
              && lastId == (if k == old(k) then old(lastId) else es[k - 1].id % TWO_32)
    {
      hide DecodeRecord, WfBlocks, Parse, InBlock, Chain, Encoded, Offset, NextId, Code, Sorted, NextHit, Sought;
      var blk := idx.blocks[currentBlock];
      BlockWf(idx.enc, idx.blocks, currentBlock);
      ghost var es, k0 := Contents(idx.enc, blk), k;
      var last := lastId;
      hit := false;
      SoughtNone(es, k0, accept, d) by { InBlockFacts(idx.enc, blk, k, pos, lastId); }
      InBlockFacts(idx.enc, blk, k, pos, lastId);
      ghost var exact := lastId;
      while pos < |blk.data| && !hit
        invariant k0 <= k <= |es| && InBlock(idx.enc, blk, k, pos, exact)
        invariant if k == k0 then last == exact == old(lastId) && !hit else last == es[k - 1].id % TWO_32 && exact == es[k - 1].id
        invariant Sought(es, k0, k, accept, d, hit) && (hit ==> k0 < k && record == Entry(last, es[k - 1].rec))
        decreases |es| - k, !hit
      {
        DecodeInBlock(idx.enc, blk, k, pos, exact);
        var r := DecodeRecord(idx.enc, blk.data[pos..]);
        SeekId(idx.enc, blk, k, pos, exact, last);
        SoughtStep(es, k0, k, accept, d);
        var delta := r.delta;
        // in old snapshots the first entry holds the id itself instead of a delta
        last := if pos == 0 && delta != 0 then delta else (last + delta) % TWO_32;
        pos, k, exact := pos + r.used, k + 1, es[k].id;
        record := Entry(last, r.rec);
        hit := accept(r.rec) && d <= last;
      }
      InBlockFacts(idx.enc, blk, k, pos, exact);
      lastId := last;
      if d >= 1 {
        BlockSorted(idx.enc, idx.blocks, currentBlock);
        SeekExact(es, k0, k, accept, d, hit);
      }
    }

    /**
     * The dedicated seeker of the raw layout: read one entry, and if it is below d search the rest of
     * the block. It overwrites the low half of the record's id and never writes lastId. If the entry it
     * reads first is the block's last, it goes by the number stored behind the contents.
     */
    method RawSeek(d: nat, behind: nat) returns (hit: bool)
      requires Valid() && idx.enc.RawDocIds? && accept(BLANK) && pos < |idx.blocks[currentBlock].data|
      modifies this`pos, this`record, this`k
      ensures WfBlocks(idx.enc, idx.blocks) && currentBlock < |idx.blocks|
      ensures var b := idx.blocks[currentBlock];
              var es := Contents(idx.enc, b);
              && old(k) < |es|
              && RawOutcome(es, old(k), d, behind, High(old(record.id)), hit, pos, record.id, k)
              && (pos <= |b.data| ==> Valid() && k > 0)
              && (pos <= |b.data| && hit ==> (record == es[k - 1] <==> old(record.id) < TWO_32))
              && (old(record.id) < TWO_32 ==>
                    if b.lastId < d && old(k) + 1 == |es| && d <= b.firstId + behind then
                      hit && pos > |b.data| && record.id == b.firstId + behind
                    else
                      && pos <= |b.data| && old(k) < k <= |es| && Scanned(es, old(k), k, accept, d, hit)
                      && (hit ==> d <= b.lastId)
                      && (!hit ==> b.lastId < d && record.id < TWO_32 && k == old(k) + 1))
    {
      hide WfBlocks, InBlock, WellFormed, Contents, LastRead;
      var blk := idx.blocks[currentBlock];
      BlockWf(idx.enc, idx.blocks, currentBlock);
      RawBlock(blk, k, pos, lastId);
      ghost var n, high := k, High(record.id);
      var id;
      hit, pos, id, k := FindRaw(blk, pos, High(record.id), d, behind, k, lastId);
      record := Entry(id, if hit then BLANK else record.rec);
      if pos <= |blk.data| {
        RawOwnId(blk, n, d, behind, high, hit, pos, id, k, accept);
        RawStands(blk, k, pos, lastId, n);
      }
    }

    /** Where a seek to d must end: right behind the first entry from d on that passes the filter. */
    ghost predicate Landed(rc: Status, d: nat)
      requires Valid()
      reads this, idx
    {
      var j := NextHit(All(), 0, accept, 0, d);
      if j < |All()| then
        && rc == (if All()[j].id == d then Ok else NotFound)
        && !atEnd && Position() == j + 1 && record == All()[j] && (!idx.enc.RawDocIds? ==> lastId == record.id)
        && (skipMulti ==> sameId == record.id)
      else rc == Eof && (atEnd || (Position() == |All()| && !skipMulti))
    }

    /** The reader stands right behind entry j, or is at the end. */
    ghost predicate Stopped(j: nat)
      requires Valid()
      reads this, idx
    {
      if j < |All()| then !atEnd && Position() == j + 1 else atEnd || Position() == |All()|
    }

    /** d is above everything passed so far. */
    ghost predicate Ahead(d: nat)
      requires Valid()
      reads this, idx
    {
      Below(All(), Position(), d) && (skipMulti ==> sameId < d) && d >= 1
    }

    /** Whatever the target, only an entry of the index that passes the filter and is not below d is delivered. */
    ghost predicate Delivered(rc: Status, d: nat)
      requires Valid()
      reads this, idx
    {
      if rc == Eof then
        atEnd || Position() == |All()|
      else
        && !atEnd && Position() > 0 && record == All()[Position() - 1] && (!idx.enc.RawDocIds? ==> lastId == record.id)
        && d <= record.id && accept(record.rec)
    }

    /** What the dedicated seekers rely on: ids of 32 bits, no multi-value filter, and no filter at all for the raw one. */
    ghost predicate Seekable()
      reads this, idx
    {
      && (idx.enc.Full? ==> !skipMulti && AllBelow(All(), TWO_32))
      && (idx.enc.RawDocIds? ==> !skipMulti && record.id < TWO_32 && accept(BLANK))
    }

    /**
     * The raw seeker does not have to go by what is stored behind a block: the block it starts in
     * reaches d, or has nothing left, or the number behind it happens to be small enough.
     */
    ghost predicate Clean(d: nat, behind: nat)
      requires Valid()
      reads this, idx
    {
      CleanFrom(idx.enc, idx.blocks, currentBlock, d, behind)
      || (currentBlock + 1 == |idx.blocks| && pos >= |idx.blocks[currentBlock].data|)
    }

    /** d lies in the range of the current block, which is not used up. */
    predicate Within(d: nat)
      requires currentBlock < |idx.blocks|
      reads this, idx
    {
      var b := idx.blocks[currentBlock];
      1 <= d && b.firstId <= d <= b.lastId && pos < |b.data|
    }

    /** The outcome of a seek, and for the raw seeker that its next one can rely on the record. */
    ghost predicate Reached(rc: Status, d: nat, ahead: bool)
      reads this, idx
    {
      && Valid() && Delivered(rc, d) && (ahead ==> Landed(rc, d))
      && (idx.enc.RawDocIds? && AllBelow(All(), TWO_32) ==> record.id < TWO_32)
    }

    /** Seek by reading, for the layouts without a seeker of their own. */
    method SkipScan(d: nat) returns (rc: Status)
      requires Valid() && !atEnd
      modifies this
      ensures Valid() && gcMarker == old(gcMarker) && Delivered(rc, d)
      ensures old(Ahead(d)) ==> Landed(rc, d)
    {
      hide InBlock, WfBlocks, Contents, Entries, NextHit, Start;
      WfEntriesSorted(idx.enc, idx.blocks);
      while true
        invariant Valid() && !atEnd && gcMarker == old(gcMarker)
        invariant old(Ahead(d)) ==> Ahead(d)
        decreases |All()| - Position()
      {
        ghost var p := Position();
        if Ahead(d) {
          SameHit(All(), 0, p, accept, d);
          ScanHit(All(), p, accept, Skipped(), d);
        }
        rc := Read();
        if rc == Eof {
          return;
        }
        var rid := lastId;
        if rid >= d {
          rc := if rid == d then Ok else NotFound;
          return;
        }
      }
    }

    /** One block of a seek, while ids fit 32 bits. */
    method SeekBlock(d: nat) returns (hit: bool)
      requires Valid() && d >= 1 && idx.enc.Full? && AllBelow(All(), TWO_32)
      modifies this`pos, this`lastId, this`record, this`k
      ensures Valid() && old(Position()) <= Position()
      ensures NextHit(All(), old(Position()), accept, 0, d)
              == if hit then Position() - 1 else NextHit(All(), Position(), accept, 0, d)
      ensures hit ==> Position() > 0 && record == All()[Position() - 1] && lastId == record.id
      ensures !hit ==> k == |Contents(idx.enc, idx.blocks[currentBlock])|
    {
      hide InBlock, WfBlocks, Contents, Entries, NextHit, Start, Chain, Offset, Sought, AllBelow, WellFormed;
      ghost var k0, pos0, last0 := k, pos, lastId;
      BlockWf(idx.enc, idx.blocks, currentBlock);
      hit := Seek(d);
      SeekLands(idx.enc, idx.blocks, currentBlock, k0, k, accept, d, hit);
      SeekLeaves(idx.enc, idx.blocks[currentBlock], k0, pos0, last0, k, pos, lastId);
    }

    /** Seek with the dedicated seeker, block after block. */
    method SkipSeek(d: nat) returns (rc: Status)
      requires Valid() && !atEnd && d >= 1 && idx.enc.Full? && !skipMulti && AllBelow(All(), TWO_32)
      modifies this
      ensures gcMarker == old(gcMarker) && Reached(rc, d, old(Ahead(d)))
    {
      hide InBlock, WfBlocks, Contents, Entries, NextHit, Start, Reached, Ahead, Hit, Below, AllBelow;
      ghost var p, ahead := Position(), Ahead(d);
      if ahead { AheadHit(d); }
      var found := FindBlock();
      if !found {
        NextHitStep(All(), p, accept, 0, d);
        atEnd := true;
        EndReached(d, p, ahead);
        return Eof;
      }
      while true
        invariant Valid() && !atEnd && gcMarker == old(gcMarker)
        invariant NextHit(All(), Position(), accept, 0, d) == NextHit(All(), p, accept, 0, d)
        decreases |idx.blocks| - currentBlock
      {
        var hit := SeekBlock(d);
        if hit {
          HitReached(d, p, ahead);
          return if record.id == d then Ok else NotFound;
        }
        BlockEnds();
        if currentBlock + 1 == |idx.blocks| {
          NextHitStep(All(), Position(), accept, 0, d);
          EndReached(d, p, ahead);
          return Eof;
        }
        OpenBlock(currentBlock + 1);
      }
    }

    /** The raw seeker, about to read the block's last entry, will go by the number behind it. */
    ghost predicate Strays(d: nat, behind: nat)
      requires Valid()
      reads this, idx
    {
      var b := idx.blocks[currentBlock];
      k + 1 == |Contents(idx.enc, b)| && b.lastId < d <= b.firstId + behind
    }

    lemma StraysHere(d: nat, behind: nat)
      requires Valid() && Strays(d, behind)
      ensures idx.blocks[currentBlock].lastId < d <= idx.blocks[currentBlock].firstId + behind
    {
    }

    /** One block of a raw seek. */
    method RawSeekBlock(d: nat, behind: nat) returns (hit: bool)
      requires Valid() && idx.enc.RawDocIds? && accept(BLANK) && record.id < TWO_32 && d >= 1
      requires pos < |idx.blocks[currentBlock].data|
      modifies this`pos, this`record, this`k
      ensures old(Strays(d, behind)) ==>
                hit && !Valid() && record.id == idx.blocks[currentBlock].firstId + behind
      ensures !old(Strays(d, behind)) ==>
                && Valid() && old(Position()) < Position()
                && NextHit(All(), old(Position()), accept, 0, d)
                   == (if hit then Position() - 1 else NextHit(All(), Position(), accept, 0, d))
                && (hit ==> record == All()[Position() - 1] && d <= idx.blocks[currentBlock].lastId)
                && (!hit ==> idx.blocks[currentBlock].lastId < d && record.id < TWO_32)
                && (!hit && pos >= |idx.blocks[currentBlock].data| ==> idx.blocks[currentBlock].firstId + behind < d)
    {
      hide InBlock, WfBlocks, Contents, Entries, NextHit, Start, Scanned;
      ghost var k0, strays := k, Strays(d, behind);
      hit := RawSeek(d, behind);
      if strays {
        NotPast(idx.enc, idx.blocks[currentBlock], k, pos, lastId);
      } else {
        SearchLands(idx.enc, idx.blocks, currentBlock, k0, k, accept, d, hit);
        InBlockFacts(idx.enc, idx.blocks[currentBlock], k, pos, lastId);
      }
    }

    /** With everything passed below d, scanning on from here is scanning from the start. */
    lemma AheadHit(d: nat)
      requires Valid() && Ahead(d)
      ensures NextHit(All(), 0, accept, 0, d) == NextHit(All(), Position(), accept, 0, d)
    {
      hide InBlock, WfBlocks, Contents, Entries, NextHit, Start;
      SameHit(All(), 0, Position(), accept, d);
    }

    /** A block that is used up ends where the next one starts. */
    lemma BlockEnds()
      requires Valid()
      requires pos >= |idx.blocks[currentBlock].data| || k == |Contents(idx.enc, idx.blocks[currentBlock])|
      ensures Position() == Start(idx.enc, idx.blocks, currentBlock + 1)
      ensures currentBlock + 1 == |idx.blocks| ==> Position() == |All()|
    {
      hide InBlock, WfBlocks, Contents, Entries, Start, Chain, LastRead;
      InBlockFacts(idx.enc, idx.blocks[currentBlock], k, pos, lastId);
      BlockAt(idx.enc, idx.blocks, currentBlock);
      StartEnds(idx.enc, idx.blocks);
    }

    lemma HitReached(d: nat, p: nat, ahead: bool)
      requires Valid() && !atEnd && !skipMulti && p <= |All()| && (idx.enc.RawDocIds? || lastId == record.id)
      requires Position() > 0 && Position() - 1 == NextHit(All(), p, accept, 0, d) && record == All()[Position() - 1]
      requires ahead ==> NextHit(All(), 0, accept, 0, d) == NextHit(All(), p, accept, 0, d)
      ensures Reached(if record.id == d then Ok else NotFound, d, ahead)
    {
      hide InBlock, WfBlocks, Contents, Entries, NextHit, Start;
      assert Hit(record, accept, 0, d);
    }

    lemma EndReached(d: nat, p: nat, ahead: bool)
      requires Valid() && !skipMulti && p <= |All()| && (idx.enc.RawDocIds? ==> record.id < TWO_32)
      requires Position() == |All()| == NextHit(All(), p, accept, 0, d)
      requires ahead ==> NextHit(All(), 0, accept, 0, d) == NextHit(All(), p, accept, 0, d)
      ensures Reached(Eof, d, ahead)
    {
      hide InBlock, WfBlocks, Contents, Entries, NextHit, Start;
    }

    /** Call the raw seeker until it finds something or the block is used up. */
    method RawSeekOn(d: nat, behind: nat) returns (hit: bool)
      requires Valid() && idx.enc.RawDocIds? && accept(BLANK) && record.id < TWO_32 && d >= 1
      requires pos < |idx.blocks[currentBlock].data|
      modifies this`pos, this`record, this`k
      ensures var b := idx.blocks[currentBlock];
              if b.lastId < d <= b.firstId + behind then
                hit && !Valid() && record.id == b.firstId + behind
              else
                && Valid() && (hit <==> d <= b.lastId)
                && NextHit(All(), old(Position()), accept, 0, d)
                   == (if hit then Position() - 1 else NextHit(All(), Position(), accept, 0, d))
                && (if hit then Position() > 0 && record == All()[Position() - 1] else record.id < TWO_32 && pos >= |b.data|)
    {
      hide InBlock, WfBlocks, Contents, Entries, NextHit, Start, Strays, Position, Hit;
      ghost var p := Position();
      hit := false;
      while !hit && pos < |idx.blocks[currentBlock].data|
        invariant !hit ==> Valid() && record.id < TWO_32
        invariant !hit ==> NextHit(All(), Position(), accept, 0, d) == NextHit(All(), p, accept, 0, d)
        invariant var b := idx.blocks[currentBlock];
                  hit ==>
                    if b.lastId < d <= b.firstId + behind then
                      !Valid() && record.id == b.firstId + behind
                    else
                      && Valid() && d <= b.lastId && NextHit(All(), p, accept, 0, d) == Position() - 1
                      && Position() > 0 && record == All()[Position() - 1]
        invariant var b := idx.blocks[currentBlock];
                  !hit && pos >= |b.data| ==> b.lastId < d && b.firstId + behind < d
        decreases !hit, if hit then 0 else |All()| - Position()
      {
        if Strays(d, behind) { StraysHere(d, behind); }
        hit := RawSeekBlock(d, behind);
      }
    }

    /** Block after block until the raw seeker finds something: at most one block more. */
    method SkipRawBlocks(d: nat, behind: nat) returns (rc: Status)
      requires Valid() && !atEnd && d >= 1 && idx.enc.RawDocIds? && Seekable() && pos < |idx.blocks[currentBlock].data|
      requires currentBlock + 1 < |idx.blocks| ==> d < idx.blocks[currentBlock + 1].firstId
      modifies this`currentBlock, this`pos, this`lastId, this`k, this`record
      ensures var b := idx.blocks[old(currentBlock)];
              if d <= b.lastId || b.firstId + behind < d then
                Reached(rc, d, old(Ahead(d))) && (d <= b.lastId ==> lastId == old(lastId))
              else
                !Valid() && rc != Eof && record.id == b.firstId + behind
    {
      hide InBlock, WfBlocks, Contents, Entries, NextHit, Start, Reached, Position, Ahead, Hit, Below, AllBelow;
      ghost var p, ahead, c, blk := Position(), Ahead(d), currentBlock, idx.blocks[currentBlock];
      if ahead { AheadHit(d); }
      while true
        invariant Valid() && !atEnd && record.id < TWO_32 && pos < |idx.blocks[currentBlock].data|
        invariant NextHit(All(), Position(), accept, 0, d) == NextHit(All(), p, accept, 0, d)
        invariant currentBlock == c ==> lastId == old(lastId)
        invariant currentBlock != c ==>
                    currentBlock == c + 1 && blk.lastId < d < idx.blocks[c + 1].firstId && blk.firstId + behind < d
        decreases |idx.blocks| - currentBlock
      {
        RangeInOrder(idx.enc, idx.blocks, currentBlock);
        var hit := RawSeekOn(d, behind);
        if hit {
          if Valid() { HitReached(d, p, ahead); }
          return if record.id == d then Ok else NotFound;
        }
        BlockEnds();
        if currentBlock + 1 == |idx.blocks| {
          NextHitStep(All(), Position(), accept, 0, d);
          EndReached(d, p, ahead);
          return Eof;
        }
        RangeInOrder(idx.enc, idx.blocks, currentBlock + 1);
        OpenBlock(currentBlock + 1);
      }
    }

    /** Seek with the raw seeker, from the block d belongs to on. */
    method SkipRaw(d: nat, behind: nat) returns (rc: Status)
      requires Valid() && !atEnd && d >= 1 && idx.enc.RawDocIds? && Seekable()
      requires pos < |idx.blocks[currentBlock].data| || currentBlock + 1 == |idx.blocks|
      requires currentBlock + 1 < |idx.blocks| ==> d < idx.blocks[currentBlock + 1].firstId
      modifies this
      ensures gcMarker == old(gcMarker)
      ensures var b := idx.blocks[old(currentBlock)];
              if d <= b.lastId || b.firstId + behind < d || old(pos) >= |b.data| then
                && Reached(rc, d, old(Ahead(d)))
                && (d <= b.lastId && old(pos) < |b.data| ==> lastId == old(lastId))
              else
                !Valid() && rc != Eof && record.id == b.firstId + behind
    {
      hide InBlock, WfBlocks, Contents, Entries, NextHit, Start, Reached, Ahead, Hit, Below, AllBelow;
      ghost var p, ahead := Position(), Ahead(d);
      if ahead { AheadHit(d); }
      var found := FindBlock();
      if found {
        rc := SkipRawBlocks(d, behind);
      } else {
        NextHitStep(All(), p, accept, 0, d);
        atEnd := true;
        EndReached(d, p, ahead);
        rc := Eof;
      }
    }

    /** Seek from the block d belongs to on, as the layout does it. */
    method SkipFrom(d: nat, behind: nat) returns (rc: Status)
      requires Valid() && !atEnd && d >= 1 && Seekable() && currentBlock == Home(idx.blocks, currentBlock, d)
      requires pos < |idx.blocks[currentBlock].data| || currentBlock + 1 == |idx.blocks|
      modifies this
      ensures gcMarker == old(gcMarker)
      ensures old(Clean(d, behind)) ==> Reached(rc, d, old(Ahead(d)))
      ensures !old(Clean(d, behind)) ==>
                !Valid() && rc != Eof && record.id == idx.blocks[old(currentBlock)].firstId + behind
      ensures idx.enc.RawDocIds? && old(Within(d)) ==> lastId == old(lastId)
    {
      hide InBlock, WfBlocks, Contents, Entries, NextHit, Start, Landed, Delivered, Ahead, Home;
      if idx.enc.Full? {
        rc := SkipSeek(d);
      } else if idx.enc.RawDocIds? {
        rc := SkipRaw(d, behind);
      } else {
        rc := SkipScan(d);
      }
    }

    /** Seek an id that is not above the last one. */
    method SkipInside(d: nat, behind: nat) returns (rc: Status)
      requires Valid() && !atEnd && 1 <= d <= idx.lastId && Seekable()
      modifies this
      ensures gcMarker == old(gcMarker)
      ensures old(Clean(d, behind)) ==> Reached(rc, d, old(Ahead(d)))
      ensures !old(Clean(d, behind)) ==>
                && !Valid() && rc != Eof
                && record.id == idx.blocks[Home(idx.blocks, old(currentBlock), d)].firstId + behind
      ensures idx.enc.RawDocIds? && old(Within(d)) ==> lastId == old(lastId)
    {
      hide InBlock, Contents, Entries, NextHit, Start, Filled, Home, WfBlocks, Landed, Delivered;
      var blk := idx.blocks[currentBlock];
      if !(blk.firstId <= d <= blk.lastId) {
        SkipToBlock(d);
      } else {
        HomeHere(idx.enc, idx.blocks, currentBlock, d);
        var done := AtBlockEnd();
        if done {
          // d is among the entries already passed
          rc := ReadPast(d);
          return;
        }
      }
      rc := SkipFrom(d, behind);
    }

    /** A target in the range of a block that is used up: the next entry is delivered instead. */
    method ReadPast(d: nat) returns (rc: Status)
      requires Valid() && !atEnd && d >= 1 && pos >= |idx.blocks[currentBlock].data|
      requires idx.blocks[currentBlock].firstId <= d <= idx.blocks[currentBlock].lastId && Seekable()
      modifies this
      ensures gcMarker == old(gcMarker) && Reached(rc, d, old(Ahead(d)))
    {
      hide InBlock, Contents, Entries, NextHit, Start, Filled, LastRead, Chain;
      InBlockFacts(idx.enc, idx.blocks[currentBlock], k, pos, lastId);
      LastIsBelow(idx.enc, idx.blocks, currentBlock, d);
      WfEntriesSorted(idx.enc, idx.blocks);
      rc := Read();
      return if rc == Eof then Eof else NotFound;
    }

    /** Move to the first entry from d on. */
    method SkipTo(d: nat, behind: nat) returns (rc: Status)
      requires atEnd || (Valid() && idx.Valid() && Seekable())
      modifies this
      ensures gcMarker == old(gcMarker)
      ensures old(atEnd) ==> rc == Eof && unchanged(this)
      ensures !old(atEnd) && old(Clean(d, behind)) ==>
                Valid() && Delivered(rc, d) && (old(Ahead(d)) ==> Landed(rc, d))
      ensures !old(atEnd) && !old(Clean(d, behind)) && d <= idx.lastId ==>
                && !Valid() && rc != Eof
                && record.id == idx.blocks[Home(idx.blocks, old(currentBlock), d)].firstId + behind
      ensures !old(atEnd) && d == 0 ==> Valid() && Stopped(NextHit(All(), old(Position()), accept, old(Skipped()), 0))
      ensures !old(atEnd) && idx.enc.RawDocIds? && old(Within(d)) ==> lastId == old(lastId)
      ensures !old(atEnd) && old(Clean(d, behind)) && idx.enc.RawDocIds? && AllBelow(All(), TWO_32) ==> record.id < TWO_32
    {
      hide InBlock, Contents, Entries, NextHit, Start, Filled, Home;
      if d == 0 {
        rc := Read();
        return;
      }
      if atEnd {
        return Eof;
      }
      if d > idx.lastId {
        WfEntriesSorted(idx.enc, idx.blocks);
        NothingFrom(All(), accept, d);
        atEnd := true;
        return Eof;
      }
      rc := SkipInside(d, behind);
    }

    /** The ids this iterator has yet to deliver. */
    ghost function Rem(): set<nat>
      requires Valid()
      reads this, idx
    {
      if atEnd then {} else Remaining(All(), Position(), accept, Skipped())
    }

    /** Each document is delivered once, and the one being skipped is behind the reader. */
    ghost predicate DocValid()
      reads this, idx
    {
      && Valid() && idx.Valid() && (skipMulti || !idx.enc.Numeric?)
      && (atEnd || Skipped() == 0 || (Position() > 0 && Skipped() <= All()[Position() - 1].id))
      && Seekable() && (idx.enc.RawDocIds? ==> AllBelow(All(), TWO_32))
    }

    /** Read as an iterator: the next document id. */
    method ReadDoc() returns (rc: Status)
      requires DocValid()
      modifies this
      ensures DocValid() && ReadSpec(old(Rem()), rc, record.id, Rem())
      ensures rc != Eof ==> Ahead(record.id + 1)
    {
      hide InBlock, WfBlocks, Contents, Entries, NextHit, Start, Remaining, Filled, ReadSpec;
      WfEntriesSorted(idx.enc, idx.blocks);
      ghost var es, p, same, ended := All(), Position(), Skipped(), atEnd;
      rc := Read();
      if ended {
        EndOfRead();
      } else {
        ReadMeetsContract(es, p, accept, same, Skipped());
        if rc == Eof { EndOfRead(); }
      }
    }

    /** A seek that landed met the contract. */
    lemma LandedDoc(p: nat, same: nat, d: nat, rc: Status)
      requires Valid() && idx.Valid() && (skipMulti || !idx.enc.Numeric?) && Landed(rc, d) && p <= |All()|
      requires Seekable() && (idx.enc.RawDocIds? ==> AllBelow(All(), TWO_32))
      requires Below(All(), p, d) && (same == 0 || same < d)
      ensures DocValid() && SkipSpec(Remaining(All(), p, accept, same), d, rc, record.id, Rem())
      ensures rc != Eof ==> Ahead(record.id + 1)
    {
      hide InBlock, WfBlocks, Contents, Entries, NextHit, Start, Filled, SkipSpec, Remaining, Hit;
      WfEntriesSorted(idx.enc, idx.blocks);
      SkipMeetsContract(All(), p, accept, same, Skipped(), d);
      if rc == Eof {
        EndOfSkip(d, Remaining(All(), p, accept, same));
        NoneRemain(All(), accept, Skipped());
      }
    }

    /** SkipTo as an iterator: the first document id from d on. */
    method SkipToDoc(d: nat, behind: nat) returns (rc: Status)
      requires DocValid() && Ahead(d)
      modifies this
      ensures old(Clean(d, behind)) ==> DocValid() && SkipSpec(old(Rem()), d, rc, record.id, Rem())
      ensures old(Clean(d, behind)) && rc != Eof ==> Ahead(record.id + 1)
    {
      hide InBlock, WfBlocks, Contents, Entries, NextHit, Start, Filled, SkipSpec, Remaining, Hit, Landed, Delivered, Below,
        AllBelow, CleanFrom;
      ghost var p, same, ended, clean := Position(), Skipped(), atEnd, Clean(d, behind);
      rc := SkipTo(d, behind);
      if ended {
        EndOfSkip(d, {});
      } else if clean {
        LandedDoc(p, same, d, rc);
      }
    }

    /** The last id is not behind what the reader passed. Only the raw seeker can make it lag. */
    ghost predicate Settled()
      reads this, idx
    {
      Valid() && (Position() > 0 ==> All()[Position() - 1].id <= lastId)
    }

    /** In the other layouts everything behind the reader is at most its last id. */
    lemma BehindLast()
      requires Valid() && !idx.enc.RawDocIds?
      ensures Settled()
    {
      hide Contents, Entries, Filled, Start, Chain, Parse;
      var enc, bs, c := idx.enc, idx.blocks, currentBlock;
      BlockAt(enc, bs, c);
      WfEntriesSorted(enc, bs);
      InBlockFacts(enc, bs[c], k, pos, lastId);
      if k > 0 {
        assert Contents(enc, bs[c])[k - 1] == All()[Start(enc, bs, c)..Start(enc, bs, c + 1)][k - 1] == All()[Position() - 1];
      } else if bs == [EMPTY_BLOCK] {
        StartEnds(enc, bs);
      } else {
        FilledBlock(enc, bs[c]);
        BelowBlock(enc, bs, c, if c == 0 then 1 else bs[c - 1].lastId + 1);
        StartEnds(enc, bs);
      }
    }

    /** The reader stands at a valid place of a non-empty index with these blocks. */
    ghost predicate ValidOn(bs: seq<Block>)
      reads this
    {
      Ordered(idx.enc, bs) && currentBlock < |bs| && InBlock(idx.enc, bs[currentBlock], k, pos, lastId)
    }

    /** Where the reader stood in an index with these blocks. */
    ghost function PositionOn(bs: seq<Block>): nat
      requires ValidOn(bs)
      reads this
      ensures PositionOn(bs) <= |Entries(idx.enc, bs)|
    {
      BlockAt(idx.enc, bs, currentBlock);
      Start(idx.enc, bs, currentBlock) + k
    }

    /** The ids of the index that pass the filter. */
    ghost function Accepted(): set<nat>
      reads this, idx
    {
      Remaining(All(), 0, accept, 0)
    }

    /** Standing where a seek from the start stops, what remains is what lies beyond its target. */
    lemma AfterSeek(last: nat)
      requires Valid() && Stopped(NextHit(All(), 0, accept, 0, last)) && !skipMulti && !idx.enc.Numeric?
      ensures Rem() == Beyond(Accepted(), last)
    {
      hide InBlock, Contents, Entries, NextHit, Start, Remaining, Beyond, StrictlySorted, Sorted, Filled;
      WfEntriesSorted(idx.enc, idx.blocks);
      SeekLeavesBeyond(All(), accept, last);
    }

    /** What a term reader on a collected index needs to know of the time before. */
    ghost predicate Comparable(was: seq<Block>)
      reads this, idx
    {
      !skipMulti && !idx.enc.Numeric? && ValidOn(was) && Succeeds(Entries(idx.enc, was), All())
    }

    /** The collected index may hold ids between the reader's last id and the one it passed last, but none ahead of it. */
    lemma NoneSkipped(was: seq<Block>)
      requires Comparable(was)
      ensures forall x :: x in Accepted() ==> x <= Passed(Entries(idx.enc, was), PositionOn(was)) || lastId <= x
    {
      hide InBlock, Contents, Entries, Start, Remaining, Ids, Passed, Succeeds, Ordered;
      NothingBetween(idx.enc, was, currentBlock, k, pos, lastId, All());
      AcceptedIds(All(), accept);
    }

    /** After a collection: seek to the last id from the start. */
    method SeekBack(behind: nat, ghost was: seq<Block>) returns (ghost rc: Status)
      requires idx.Valid() && Seekable()
      modifies this
      ensures gcMarker == old(gcMarker) && (old(atEnd) ==> atEnd && record == old(record))
      ensures !old(atEnd) && CleanFrom(idx.enc, idx.blocks, 0, old(lastId), behind) ==>
                && Valid() && Delivered(rc, old(lastId))
                && (!skipMulti && !idx.enc.Numeric? ==> Rem() == Beyond(Accepted(), old(lastId)))
                && (idx.enc.RawDocIds? && AllBelow(All(), TWO_32) ==> record.id < TWO_32)
      ensures !old(atEnd) && CleanFrom(idx.enc, idx.blocks, 0, old(lastId), behind) && old(Comparable(was)) ==>
                var passed := Passed(Entries(idx.enc, was), old(PositionOn(was)));
                Rem() == From(Accepted(), passed + 1) <==> Resumes(Accepted(), old(lastId), passed)
    {
      hide InBlock, Contents, Entries, NextHit, Filled, Start, Passed, Succeeds, Home, Remaining, Beyond, Resumes, Ids;
      var last := lastId;
      if Comparable(was) {
        NoneSkipped(was);
        ResumeExact(Accepted(), last, Passed(Entries(idx.enc, was), PositionOn(was)));
      }
      OpenBlock(0);
      StartEnds(idx.enc, idx.blocks);
      rc := SkipTo(last, behind);
      if !old(atEnd) && CleanFrom(idx.enc, idx.blocks, 0, last, behind) && !skipMulti && !idx.enc.Numeric? {
        AfterSeek(last);
      }
    }

    /**
     * Called when the reader gets the index back. If it was not collected meanwhile the reader stays
     * where it was; otherwise it seeks to the last id from the start, which resumes exactly under the
     * condition Resumes. A reader whose index is gone ends.
     */
    method Reopen(sameIndex: bool, behind: nat, ghost was: seq<Block>) returns (ghost rc: Status)
      requires idx.Valid() && Seekable()
      requires !atEnd && gcMarker == idx.gcMarker ==> ValidOn(was) && Grown(idx.enc, was, idx.blocks)
      modifies this
      ensures gcMarker == old(gcMarker)
      ensures old(atEnd) || !sameIndex ==> atEnd && record == old(record)
      ensures sameIndex && !old(atEnd) && gcMarker == idx.gcMarker ==>
                && Valid() && unchanged(this) && Entries(idx.enc, was) <= All()
                && Position() == PositionOn(was)
      ensures sameIndex && !old(atEnd) && gcMarker != idx.gcMarker && CleanFrom(idx.enc, idx.blocks, 0, old(lastId), behind) ==>
                && Valid() && Delivered(rc, old(lastId))
                && (!skipMulti && !idx.enc.Numeric? ==> Rem() == Beyond(Accepted(), old(lastId)))
                && (idx.enc.RawDocIds? && AllBelow(All(), TWO_32) ==> record.id < TWO_32)
                && (old(Comparable(was)) ==>
                      var passed := Passed(Entries(idx.enc, was), old(PositionOn(was)));
                      Rem() == From(Accepted(), passed + 1) <==> Resumes(Accepted(), old(lastId), passed))
    {
      hide InBlock, Contents, Entries, Filled, WellFormed, Start, Comparable, Beyond, Resumes, Accepted, Delivered, CleanFrom, Rem;
      rc := Eof;
      if !sameIndex {
        atEnd := true;
      } else if gcMarker == idx.gcMarker {
        if !atEnd {
          ghost var c := currentBlock;
          assert Filled(idx.enc, was[c]);
          GrownEntries(idx.enc, was, idx.blocks, c);
          BlockWf(idx.enc, idx.blocks, c);
          GrownAt(idx.enc, was, idx.blocks, c);
          GrownInBlock(idx.enc, was[c], idx.blocks[c], k, pos, lastId);
        }
      } else {
        rc := SeekBack(behind, was);
      }
    }

    /** Start over. The document to skip is not forgotten. */
    method Rewind()
      requires idx.Valid()
      modifies this
      ensures Valid() && Position() == 0 && !atEnd && gcMarker == idx.gcMarker && sameId == old(sameId)
    {
      hide Contents, Filled, InBlock;
      atEnd, gcMarker := false, idx.gcMarker;
      OpenBlock(0);
      StartEnds(idx.enc, idx.blocks);
    }
  }
}
