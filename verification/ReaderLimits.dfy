/** Inputs at which reading and writing an index part from what they promise, one for each exact condition. */
module ReaderLimits {
  import opened Bytes
  import opened RecordCodec
  import opened Blocks
  import opened Index
  import opened IteratorContract
  import opened IndexReader
  import opened ReaderRuns

  /** Documents 1 to n, with nothing but their ids. */
  function Docs(n: nat): seq<Entry> {
    seq(n, i requires i >= 0 => Entry(i + 1, BLANK))
  }

  /** A single block holds the entries, with their first and last id. */
  lemma OneBlock(enc: Encoding, bs: seq<Block>)
    requires WfBlocks(enc, bs) && |bs| == 1 && Entries(enc, bs) != []
    ensures var es := Entries(enc, bs);
            && Ordered(enc, bs) && Contents(enc, bs[0]) == es && bs[0].numEntries == |es|
            && bs[0].firstId == es[0].id && bs[0].lastId == es[|es| - 1].id
  {
    hide Contents, Filled, Chain, Make;
    assert bs[..0] == [];
    assert Entries(enc, bs[..0]) == [];
    EmptyIsNotFilled(enc);
    FilledBlock(enc, bs[0]);
    hide Entries;
  }

  lemma OrderedAt(enc: Encoding, bs: seq<Block>)
    requires Ordered(enc, bs) && |bs| == 1
    ensures Filled(enc, bs[0])
  {
    hide Filled;
  }

  /** An index of the documents 1 to n, in one block. */
  method FirstDocs(enc: Encoding, n: nat) returns (idx: InvertedIndex)
    requires 1 <= n <= 3 && (enc.DocIdsOnly? || enc.RawDocIds?)
    ensures fresh(idx) && idx.Valid() && idx.enc == enc && idx.lastId == n && |idx.blocks| == 1
    ensures Entries(enc, idx.blocks) == Docs(n)
  {
    hide Entries, Contents, Filled, Appended, Ordered, Project;
    idx := new InvertedIndex(enc);
    for i := 0 to n
      invariant fresh(idx) && idx.Valid() && idx.enc == enc && idx.lastId == i && |idx.blocks| == 1
      invariant Entries(enc, idx.blocks) == Docs(i)
      invariant i == 0 ==> idx.blocks == [EMPTY_BLOCK]
    {
      ghost var was := idx.blocks;
      if i > 0 { OneBlock(enc, was); }
      BlankStays(enc);
      var written := idx.WriteEntry(i + 1, BLANK);
      AppendedEntries(enc, was, idx.blocks, Stored(enc, i + 1, BLANK));
      assert Docs(i + 1) == Docs(i) + [Entry(i + 1, BLANK)];
    }
  }

  lemma BlankStays(enc: Encoding)
    requires enc.DocIdsOnly? || enc.RawDocIds?
    ensures ValidRecord(BLANK) && Project(enc, BLANK) == BLANK
  {
  }

  const ANY: Record -> bool := _ => true

  /** Reading on from position p delivers document p + 1. */
  lemma NextDoc(n: nat, p: nat, d: nat)
    requires p <= n
    ensures d <= p + 1 ==> NextHit(Docs(n), p, ANY, 0, d) == p
    ensures forall x :: x in Remaining(Docs(n), p, ANY, 0) <==> p < x <= n
  {
    hide NextHit;
    NextHitStep(Docs(n), p, ANY, 0, d);
    forall x | p < x <= n ensures x in Remaining(Docs(n), p, ANY, 0) {
      assert Docs(n)[x - 1].id == x && Hit(Docs(n)[x - 1], ANY, 0, 0);
    }
  }

  /** What seeking back to 1 leaves of n documents: a reader there stands behind the first one. */
  lemma SecondNext(n: nat, p: nat)
    requires p <= n && n >= 2 && Remaining(Docs(n), p, ANY, 0) == Beyond(Remaining(Docs(n), 0, ANY, 0), 1)
    ensures p == 1
  {
    hide NextHit, Remaining;
    NextDoc(n, 0, 0);
    NextDoc(n, p, 0);
    var all := Remaining(Docs(n), 0, ANY, 0);
    assert 1 in all && 2 in all && HasBetween(all, 1, 2) && 2 in Beyond(all, 1);
    assert 1 !in Beyond(all, 1);
    assert 2 in Remaining(Docs(n), p, ANY, 0) && 1 !in Remaining(Docs(n), p, ANY, 0);
  }

  /**
   * A reader that has delivered nothing loses the first document when the index was collected, although
   * the collection removed nothing.
   */
  method FreshReopen() returns (first: Entry)
    ensures first == Entry(2, BLANK)
  {
    hide Entries, Contents, Filled, Ordered, InBlock, WfBlocks, NextHit, Start, Remaining, Beyond, Home;
    var idx := FirstDocs(DocIdsOnly, 2);
    OneBlock(DocIdsOnly, idx.blocks);
    var r := new Reader(idx, ANY, false);
    idx.gcMarker := idx.gcMarker + 1;
    ghost var rc := r.Reopen(true, 0, []);
    NoneRemain(Docs(2), ANY, 0);
    SecondNext(2, if r.atEnd then 2 else r.Position());
    NextDoc(2, 1, 0);
    var rc' := r.Read();
    first := r.record;
  }

  /** Deliver document 1 and seek 3 in the raw layout: the last id stays 1. */
  method SeekThird() returns (r: Reader, out: seq<Entry>)
    ensures fresh(r) && fresh(r.idx) && r.idx.Valid() && r.Valid() && r.idx.enc.RawDocIds? && r.All() == Docs(3)
    ensures r.accept == ANY && !r.skipMulti && !r.atEnd && r.lastId == 1 && r.gcMarker == r.idx.gcMarker
    ensures out == [Entry(1, BLANK), Entry(3, BLANK)] && r.record == out[1]
  {
    hide Entries, Contents, Filled, Ordered, InBlock, WfBlocks, NextHit, Start, Home, CleanFrom, LastRead, Chain;
    var idx := FirstDocs(RawDocIds, 3);
    OneBlock(RawDocIds, idx.blocks);
    r := new Reader(idx, ANY, false);
    NextDoc(3, 0, 0);
    var rc := r.Read();
    out := [r.record];
    ZeroIsClean(RawDocIds, idx.blocks, 0, 3, 0);
    StartEnds(RawDocIds, idx.blocks);
    InBlockFacts(RawDocIds, idx.blocks[0], r.k, r.pos, r.lastId);
    NextDoc(3, 2, 3);
    SameHit(Docs(3), 0, 2, ANY, 3);
    rc := r.SkipTo(3, 0);
    out := out + [r.record];
  }

  /**
   * The raw seeker leaves the last id behind: a reader delivers document 1, seeks 3, and after a
   * collection that removed nothing delivers document 2.
   */
  method LaggingReopen() returns (out: seq<Entry>)
    ensures out == [Entry(1, BLANK), Entry(3, BLANK), Entry(2, BLANK)]
  {
    hide Entries, InBlock, WfBlocks, NextHit, Start, Remaining, Beyond, CleanFrom;
    var r;
    r, out := SeekThird();
    r.idx.gcMarker := r.idx.gcMarker + 1;
    ZeroIsClean(RawDocIds, r.idx.blocks, 0, 1, 0);
    ghost var back := r.Reopen(true, 0, []);
    NoneRemain(Docs(3), ANY, 0);
    SecondNext(3, if r.atEnd then 3 else r.Position());
    NextDoc(3, 1, 0);
    var rc := r.Read();
    out := out + [r.record];
  }

  /**
   * After a collection removed document 3 the raw seeker, sent to it, goes by the number behind the
   * block: it delivers a document the index never had.
   */
  method StraySeek() returns (rc: Status, stray: Entry)
    ensures rc != Eof && stray.id == 8
  {
    hide Entries, Contents, Filled, Ordered, InBlock, WfBlocks, NextHit, Start, Home;
    var idx := FirstDocs(RawDocIds, 2);
    OneBlock(RawDocIds, idx.blocks);
    idx.lastId := 3;
    assert Filled(RawDocIds, idx.blocks[0]) by { OrderedAt(RawDocIds, idx.blocks); }
    StartsFilled(RawDocIds, idx.blocks[0]);
    var r := new Reader(idx, ANY, false);
    rc := r.SkipTo(3, 7);
    stray := r.record;
  }

  /** A full record under an id above 32 bits cannot be found by its id. */
  method WideSeek() returns (hit: bool, idx: InvertedIndex)
    ensures !hit && idx.enc.Full? && Entries(Full, idx.blocks) == [Entry(TWO_32 + 1, BLANK.(freq := 1))]
  {
    hide Entries, Contents, Filled, Appended, Ordered, InBlock, WfBlocks, NextHit, Start;
    idx := new InvertedIndex(Full);
    ghost var was := idx.blocks;
    var written := idx.WriteEntry(TWO_32 + 1, BLANK);
    AppendedEntries(Full, was, idx.blocks, Stored(Full, TWO_32 + 1, BLANK));
    OneBlock(Full, idx.blocks);
    var r := new Reader(idx, ANY, false);
    hit := r.Seek(TWO_32);
  }

  /** Documents 2^32 + 1 and 2^32 + 2 in one raw block. */
  method WideDocs() returns (idx: InvertedIndex)
    ensures fresh(idx) && idx.Valid() && idx.enc.RawDocIds? && |idx.blocks| == 1
    ensures Entries(RawDocIds, idx.blocks) == [Entry(TWO_32 + 1, BLANK), Entry(TWO_32 + 2, BLANK)]
  {
    hide Entries, Contents, Filled, Appended, Ordered, Project;
    BlankStays(RawDocIds);
    idx := new InvertedIndex(RawDocIds);
    ghost var was := idx.blocks;
    var written := idx.WriteEntry(TWO_32 + 1, BLANK);
    OneMore(was, idx, TWO_32 + 1);
    OneBlock(RawDocIds, idx.blocks);
    was := idx.blocks;
    written := idx.WriteEntry(TWO_32 + 2, BLANK);
    OneMore(was, idx, TWO_32 + 2);
  }

  lemma OneMore(was: seq<Block>, idx: InvertedIndex, id: nat)
    requires idx.enc.RawDocIds? && Appended(RawDocIds, was, idx.blocks, Stored(RawDocIds, id, BLANK))
    ensures Entries(RawDocIds, idx.blocks) == Entries(RawDocIds, was) + [Entry(id, BLANK)]
  {
    hide Entries, Appended;
    AppendedEntries(RawDocIds, was, idx.blocks, Stored(RawDocIds, id, BLANK));
  }

  /** After delivering document 2^32 + 1 the raw seeker, sent to 2^32 + 2, delivers it as 2^33 + 2. */
  method WideRecord() returns (first: nat, hit: bool, second: nat)
    ensures first == TWO_32 + 1 && hit && second == 2 * TWO_32 + 2
  {
    hide Entries, Filled, Ordered, InBlock, WfBlocks, NextHit, Start, Contents, Chain, LastRead, Scanned;
    var idx := WideDocs();
    OneBlock(RawDocIds, idx.blocks);
    var r := new Reader(idx, ANY, false);
    NextHitStep(r.All(), 0, ANY, 0, 0);
    var rc := r.Read();
    first := r.record.id;
    StartEnds(RawDocIds, idx.blocks);
    InBlockFacts(RawDocIds, idx.blocks[0], r.k, r.pos, r.lastId);
    hit := r.RawSeek(TWO_32 + 2, 0);
    second := r.record.id;
  }

  /** A rewound reader that delivers each document once does not deliver the only one again. */
  method RewindOnce() returns (first: Status, again: Status)
    ensures first == Ok && again == Eof
  {
    hide Entries, Contents, Filled, Appended, Ordered, InBlock, WfBlocks, NextHit, Start;
    var idx := new InvertedIndex(Numeric);
    ghost var was := idx.blocks;
    var written := idx.WriteEntry(1, BLANK);
    AppendedEntries(Numeric, was, idx.blocks, Stored(Numeric, 1, BLANK));
    var r := new Reader(idx, ANY, true);
    NextHitStep(r.All(), 0, ANY, 0, 0);
    first := r.Read();
    r.Rewind();
    NextHitStep(r.All(), 0, ANY, 1, 0);
    NextHitStep(r.All(), 1, ANY, 1, 0);
    again := r.Read();
  }

  /** A numeric value of document 2^32 + 1, written after one of document 1, is stored under document 1. */
  method WideGap() returns (idx: InvertedIndex)
    ensures Entries(Numeric, idx.blocks) == [Entry(1, BLANK), Entry(1, BLANK)] && idx.lastId == TWO_32 + 1
  {
    hide Entries, Contents, Filled, Appended, Ordered, WfBlocks;
    idx := new InvertedIndex(Numeric);
    ghost var was := idx.blocks;
    var written := idx.WriteEntry(1, BLANK);
    AppendedEntries(Numeric, was, idx.blocks, Entry(1, BLANK));
    OneBlock(Numeric, idx.blocks);
    ghost var one := idx.blocks;
    written := idx.WriteEntry(TWO_32 + 1, BLANK);
    AppendedEntries(Numeric, one, idx.blocks, Entry(1, BLANK));
  }
}
