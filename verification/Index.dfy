/** The inverted index: a list of blocks that is appended to, and the sequence of entries it stands for. */
module Index {
  import opened Bytes
  import opened RecordCodec
  import opened Blocks
  import opened BlockRepair
  import Qint
  import Varint
  import NumericCodec

  /** All entries, block after block. */
  ghost function Entries(enc: Encoding, bs: seq<Block>): seq<Entry> {
    if bs == [] then [] else Entries(enc, bs[..|bs| - 1]) + Contents(enc, bs[|bs| - 1])
  }

  /** How many different documents a sorted list of entries has. */
  ghost function DocCount(es: seq<Entry>): nat {
    if es == [] then 0 else DocCount(es[..|es| - 1]) + if Starts(es, |es| - 1) then 1 else 0
  }

  ghost function NumDocs(enc: Encoding, bs: seq<Block>): nat {
    if bs == [] then 0 else NumDocs(enc, bs[..|bs| - 1]) + DocCount(Contents(enc, bs[|bs| - 1]))
  }

  /** The block of an index that holds nothing yet. */
  const EMPTY_BLOCK := Block(0, 0, 0, [])

  ghost predicate Filled(enc: Encoding, b: Block) {
    WellFormed(enc, b) && Contents(enc, b) != []
  }

  /** Filled blocks with strictly increasing id ranges: no document spans two of them. */
  ghost predicate Ordered(enc: Encoding, bs: seq<Block>) {
    && (forall i :: 0 <= i < |bs| ==> Filled(enc, bs[i]))
    && (forall i :: 1 <= i < |bs| ==> bs[i - 1].lastId < bs[i].firstId)
  }

  /** A single empty block, or ordered filled ones. */
  ghost predicate WfBlocks(enc: Encoding, bs: seq<Block>) {
    bs == [EMPTY_BLOCK] || (bs != [] && Ordered(enc, bs))
  }

  /** What one write does: the last block grows by the entry, or a block with just the entry is added. */
  ghost predicate Appended(enc: Encoding, bs: seq<Block>, bs': seq<Block>, e: Entry) {
    && bs != [] && |bs| <= |bs'| <= |bs| + 1
    && bs'[..|bs| - 1] == bs[..|bs| - 1]
    && if |bs'| == |bs| then
         Contents(enc, bs'[|bs| - 1]) == Contents(enc, bs[|bs| - 1]) + [e]
       else
         bs'[|bs| - 1] == bs[|bs| - 1] && Contents(enc, bs'[|bs|]) == [e]
  }

  lemma AppendedEntries(enc: Encoding, bs: seq<Block>, bs': seq<Block>, e: Entry)
    requires Appended(enc, bs, bs', e)
    ensures Entries(enc, bs') == Entries(enc, bs) + [e]
  {
    hide Contents;
    var n := |bs| - 1;
    if |bs'| > |bs| {
      assert bs'[..|bs|] == bs'[..n] + [bs'[n]] && bs == bs[..n] + [bs[n]];
    }
  }

  lemma NewBlock(enc: Encoding, e: Entry)
    requires EntryOk(enc, e)
    ensures Chain(enc, [e]) && Make(enc, [e]) == Block(e.id, e.id, 1, EncodeRecord(enc, 0, e.rec))
    ensures Contents(enc, Make(enc, [e])) == [e] && Filled(enc, Make(enc, [e]))
  {
    hide EncodeRecord, Parse;
    ChainSnoc(enc, [], e);
    assert [] + [e] == [e];
    assert Encoded(enc, []) == [];
    MakeRoundTrip(enc, [e]);
  }

  lemma GrownBlock(enc: Encoding, b: Block, e: Entry)
    requires Filled(enc, b) && EntryOk(enc, e)
    requires Follows(enc, Contents(enc, b) + [e], |Contents(enc, b)|)
    ensures var d := if enc.RawDocIds? then e.id - b.firstId else e.id - b.lastId;
            var b' := Block(b.firstId, e.id, b.numEntries + 1, b.data + EncodeRecord(enc, d, e.rec));
            Contents(enc, b') == Contents(enc, b) + [e] && Filled(enc, b')
  {
    hide EncodeRecord, Parse, EntryOk;
    var es := Contents(enc, b);
    ChainSnoc(enc, es, e);
    assert (es + [e])[|es|] == e;
    MakeRoundTrip(enc, es + [e]);
  }

  lemma EncodeProject(enc: Encoding, delta: nat, r: Record)
    requires delta < TWO_32 && ValidRecord(r)
    ensures EntryParts(enc, r)
    ensures EncodeRecord(enc, delta, Project(enc, r)) == EncodeRecord(enc, delta, r)
  {
    hide Qint.Encode, Varint.Encode, NumericCodec.Encode;
  }

  predicate EntryParts(enc: Encoding, r: Record) {
    ValidRecord(Project(enc, r)) && Project(enc, Project(enc, r)) == Project(enc, r)
  }

  lemma {:induction false} DocCountSnoc(es: seq<Entry>, e: Entry)
    ensures DocCount(es + [e]) == DocCount(es) + if es != [] && es[|es| - 1].id == e.id then 0 else 1
  {
    assert (es + [e])[..|es|] == es;
  }

  /** A write adds one document exactly when the last stored entry is of another document. */
  lemma AppendedNumDocs(enc: Encoding, bs: seq<Block>, bs': seq<Block>, e: Entry)
    requires Appended(enc, bs, bs', e)
    ensures var last := Contents(enc, bs[|bs| - 1]);
            NumDocs(enc, bs') == NumDocs(enc, bs)
                                 + if |bs'| == |bs| && last != [] && last[|last| - 1].id == e.id then 0 else 1
  {
    hide Contents;
    var n := |bs| - 1;
    if |bs'| > |bs| {
      assert bs'[..|bs|] == bs'[..n] + [bs'[n]] && bs == bs[..n] + [bs[n]];
      DocCountSnoc([], e);
      assert [] + [e] == [e];
    } else {
      DocCountSnoc(Contents(enc, bs[n]), e);
    }
  }

  /** Blocks stay ordered when the last one grows or a later one is added. */
  lemma ReplaceLast(enc: Encoding, bs: seq<Block>, b: Block)
    requires WfBlocks(enc, bs) && Filled(enc, b)
    requires bs != [EMPTY_BLOCK] ==> b.firstId == bs[|bs| - 1].firstId
    ensures WfBlocks(enc, bs[|bs| - 1 := b]) && Ordered(enc, bs[|bs| - 1 := b])
  {
    hide Filled, WellFormed, Contents;
    EmptyIsNotFilled(enc);
  }

  lemma EmptyIsNotFilled(enc: Encoding)
    ensures !Filled(enc, EMPTY_BLOCK) && Contents(enc, EMPTY_BLOCK) == []
  {
  }

  lemma AddLast(enc: Encoding, bs: seq<Block>, b: Block)
    requires bs != [] && Ordered(enc, bs) && Filled(enc, b) && bs[|bs| - 1].lastId < b.firstId
    ensures WfBlocks(enc, bs + [b]) && Ordered(enc, bs + [b])
  {
    hide Filled;
  }

  const BLOCK_SIZE: nat := 100
  const BLOCK_SIZE_DOCID_ONLY: nat := 1000

  function BlockSize(enc: Encoding): nat {
    if enc.DocIdsOnly? || enc.RawDocIds? then BLOCK_SIZE_DOCID_ONLY else BLOCK_SIZE
  }

  /**
   * The one write the index cannot represent: the numeric encoder takes its delta as a 32-bit
   * number, and unlike the other layouts it does not open a new block for a wider gap.
   */
  predicate DeltaOverflows(enc: Encoding, bs: seq<Block>, lastId: nat, docId: nat)
    requires bs != []
  {
    var b := bs[|bs| - 1];
    && enc.Numeric? && b.numEntries > 0 && (b.numEntries < BlockSize(enc) || docId == lastId)
    && docId - b.lastId > UINT32_MAX
  }

  /** The id an entry gets when the distance to the last one is cut to 32 bits. */
  function Truncated(bs: seq<Block>, docId: nat): nat
    requires bs != []
  {
    var last := bs[|bs| - 1].lastId;
    last + (docId - last) % TWO_32
  }

  /** The entry a write stores: the id and the parts of the record the layout keeps. */
  function Stored(enc: Encoding, docId: nat, rec: Record): Entry {
    Entry(docId, Project(enc, rec))
  }

  ghost predicate Opens(enc: Encoding, bs: seq<Block>, lastId: nat, docId: nat)
    requires bs != []
  {
    var b := bs[|bs| - 1];
    || (b.numEntries >= BlockSize(enc) && docId != lastId)
    || (b.numEntries > 0 && !enc.Numeric?
        && (if enc.RawDocIds? then docId - b.firstId else docId - b.lastId) > UINT32_MAX)
  }

  /** The block list after a write: a new block, a filled first block, or a grown last block. */
  ghost function Written(enc: Encoding, bs: seq<Block>, lastId: nat, docId: nat, rec: Record): seq<Block>
    requires bs != [] && ValidRecord(rec) && bs[|bs| - 1].firstId <= docId && bs[|bs| - 1].lastId <= docId
  {
    var b := bs[|bs| - 1];
    if Opens(enc, bs, lastId, docId) then bs + [Block(docId, docId, 1, EncodeRecord(enc, 0, rec))]
    else if b.numEntries == 0 then bs[|bs| - 1 := Block(docId, docId, 1, b.data + EncodeRecord(enc, 0, rec))]
    else
      var d := if enc.RawDocIds? then docId - b.firstId else docId - b.lastId;
      bs[|bs| - 1 := Block(b.firstId, docId, b.numEntries + 1, b.data + EncodeRecord(enc, d % TWO_32, rec))]
  }

  ghost predicate IsWritten(enc: Encoding, bs: seq<Block>, lastId: nat, docId: nat, rec: Record, bs': seq<Block>) {
    && bs != [] && ValidRecord(rec) && bs[|bs| - 1].firstId <= docId && bs[|bs| - 1].lastId <= docId
    && bs' == Written(enc, bs, lastId, docId, rec)
  }

  lemma FilledBlock(enc: Encoding, b: Block)
    requires Filled(enc, b)
    ensures var es := Contents(enc, b);
            es != [] && Chain(enc, es) && b == Make(enc, es) && b.numEntries == |es| > 0
            && 1 <= b.firstId == es[0].id <= b.lastId == es[|es| - 1].id
  {
    hide Encoded, Parse;
    var es := Contents(enc, b);
    assert EntryOk(enc, es[0]);
    Increasing(enc, es, 0, |es| - 1);
  }

  /** The last block's last id is that of the entry just written. */
  lemma AppendedLast(enc: Encoding, bs: seq<Block>, bs': seq<Block>, e: Entry)
    requires Appended(enc, bs, bs', e) && WfBlocks(enc, bs')
    ensures bs'[|bs'| - 1].lastId == e.id
  {
    hide Contents, Filled;
    EmptyIsNotFilled(enc);
    var b' := bs'[|bs'| - 1];
    assert Contents(enc, b') != [] && Contents(enc, b')[|Contents(enc, b')| - 1] == e;
    assert bs' != [EMPTY_BLOCK];
    FilledBlock(enc, b');
  }

  lemma LastBlock(enc: Encoding, bs: seq<Block>)
    requires WfBlocks(enc, bs)
    ensures var b := bs[|bs| - 1];
            && b.firstId <= b.lastId
            && (b.numEntries == 0 <==> bs == [EMPTY_BLOCK])
            && (b.numEntries > 0 ==> Ordered(enc, bs) && Filled(enc, b))
  {
    hide Filled;
    if bs != [EMPTY_BLOCK] { FilledBlock(enc, bs[|bs| - 1]); }
  }

  lemma OpenResult(enc: Encoding, bs: seq<Block>, docId: nat, rec: Record)
    requires bs != [] && Ordered(enc, bs) && bs[|bs| - 1].lastId < docId && ValidRecord(rec)
    ensures var bs' := bs + [Block(docId, docId, 1, EncodeRecord(enc, 0, rec))];
            WfBlocks(enc, bs') && Appended(enc, bs, bs', Stored(enc, docId, rec))
  {
    hide EncodeRecord, Filled, Project, ValidRecord, Contents;
    var e := Stored(enc, docId, rec);
    EncodeProject(enc, 0, rec);
    assert EntryOk(enc, e);
    NewBlock(enc, e);
    AddLast(enc, bs, Make(enc, [e]));
    assert (bs + [Make(enc, [e])])[..|bs| - 1] == bs[..|bs| - 1];
  }

  lemma FirstResult(enc: Encoding, docId: nat, rec: Record)
    requires docId >= 1 && ValidRecord(rec)
    ensures var bs' := [Block(docId, docId, 1, EncodeRecord(enc, 0, rec))];
            WfBlocks(enc, bs') && Appended(enc, [EMPTY_BLOCK], bs', Stored(enc, docId, rec))
  {
    hide EncodeRecord, Filled, Project, ValidRecord, Contents;
    var e := Stored(enc, docId, rec);
    EncodeProject(enc, 0, rec);
    assert EntryOk(enc, e);
    NewBlock(enc, e);
    EmptyIsNotFilled(enc);
    assert [] + [e] == [e];
  }

  /** The last block with one more record whose encoded gap is d, whatever its header says as last id. */
  lemma GrownResult(enc: Encoding, bs: seq<Block>, d: nat, docId: nat, rec: Record, last: nat)
    requires bs != [] && Ordered(enc, bs) && ValidRecord(rec) && d < TWO_32
    requires var b := bs[|bs| - 1];
             && docId == (if enc.RawDocIds? then b.firstId else b.lastId) + d
             && (if enc.Numeric? then b.lastId <= docId else b.lastId < docId)
    ensures var b := bs[|bs| - 1];
            var data := b.data + EncodeRecord(enc, d, rec);
            && WfBlocks(enc, bs[|bs| - 1 := Block(b.firstId, docId, b.numEntries + 1, data)])
            && Appended(enc, bs, bs[|bs| - 1 := Block(b.firstId, last, b.numEntries + 1, data)], Stored(enc, docId, rec))
  {
    hide EncodeRecord, Filled, Project, ValidRecord, Parse, Chain;
    var b, e := bs[|bs| - 1], Stored(enc, docId, rec);
    var es := Contents(enc, b);
    FilledBlock(enc, b);
    EncodeProject(enc, d, rec);
    assert EntryOk(enc, e);
    assert (es + [e])[|es|] == e && (es + [e])[0] == es[0] && (es + [e])[|es| - 1] == es[|es| - 1];
    GrownBlock(enc, b, e);
    ReplaceLast(enc, bs, Block(b.firstId, docId, b.numEntries + 1, b.data + EncodeRecord(enc, d, e.rec)));
  }

  /** What a write leaves behind, case by case. */
  lemma WriteResult(enc: Encoding, bs: seq<Block>, lastId: nat, docId: nat, rec: Record)
    requires WfBlocks(enc, bs) && bs[|bs| - 1].lastId <= lastId <= docId && docId >= 1 && ValidRecord(rec)
    requires docId != lastId || enc.Numeric?
    ensures bs[|bs| - 1].firstId <= docId
    ensures var bs' := Written(enc, bs, lastId, docId, rec);
            var b := bs[|bs| - 1];
            if !DeltaOverflows(enc, bs, lastId, docId) then
              WfBlocks(enc, bs') && Appended(enc, bs, bs', Stored(enc, docId, rec)) && bs'[|bs'| - 1].lastId == docId
            else
              var wrong := Truncated(bs, docId);
              wrong < docId && Appended(enc, bs, bs', Stored(enc, wrong, rec))
  {
    hide EncodeRecord, Filled, Project, ValidRecord, Contents, Appended, Ordered;
    LastBlock(enc, bs);
    var b := bs[|bs| - 1];
    if Opens(enc, bs, lastId, docId) {
      assert !DeltaOverflows(enc, bs, lastId, docId);
      OpenResult(enc, bs, docId, rec);
      assert Written(enc, bs, lastId, docId, rec) == bs + [Block(docId, docId, 1, EncodeRecord(enc, 0, rec))];
    } else if b.numEntries == 0 {
      FirstResult(enc, docId, rec);
      var data := EncodeRecord(enc, 0, rec);
      assert b.data + data == data;
      assert bs[|bs| - 1 := Block(docId, docId, 1, data)] == [Block(docId, docId, 1, data)];
    } else {
      var d := (if enc.RawDocIds? then docId - b.firstId else docId - b.lastId) % TWO_32;
      GrownResult(enc, bs, d, (if enc.RawDocIds? then b.firstId else b.lastId) + d, rec, docId);
    }
  }

  class InvertedIndex {
    const enc: Encoding
    var blocks: seq<Block>
    var lastId: nat
    var numDocs: nat
    var gcMarker: nat
    /** Kept for numeric indexes only. */
    var numEntries: nat

    ghost predicate Valid()
      reads this
    {
      WfBlocks(enc, blocks) && blocks[|blocks| - 1].lastId <= lastId
    }

    constructor (enc: Encoding)
      ensures Valid() && blocks == [EMPTY_BLOCK] && Entries(enc, blocks) == [] && this.enc == enc
      ensures lastId == 0 && numDocs == 0 == NumDocs(enc, blocks) && gcMarker == 0
    {
      this.enc := enc;
      blocks := [EMPTY_BLOCK];
      lastId, numDocs, gcMarker, numEntries := 0, 0, 0, 0;
      EmptyIsNotFilled(enc);
    }

    /** Put the encoded record at the end of the last block, whose ids the caller has prepared. */
    method Extend(b: Block, delta: nat, docId: nat, rec: Record, sameDoc: bool)
      requires blocks != [] && ValidRecord(rec)
      modifies this
      ensures blocks == old(blocks)[|old(blocks)| - 1 :=
                Block(b.firstId, docId, b.numEntries + 1, b.data + EncodeRecord(enc, delta % TWO_32, rec))]
      ensures lastId == docId && gcMarker == old(gcMarker)
      ensures numDocs == old(numDocs) + if sameDoc then 0 else 1
      ensures numEntries == old(numEntries) + if enc.Numeric? then 1 else 0
    {
      hide EncodeRecord;
      var data := b.data + EncodeRecord(enc, delta % TWO_32, rec);
      blocks := blocks[|blocks| - 1 := Block(b.firstId, docId, b.numEntries + 1, data)];
      lastId := docId;
      if !sameDoc { numDocs := numDocs + 1; }
      if enc.Numeric? { numEntries := numEntries + 1; }
    }

    method AddBlock(firstId: nat)
      modifies this`blocks
      ensures blocks == old(blocks) + [Block(firstId, firstId, 0, [])]
    {
      blocks := blocks + [Block(firstId, firstId, 0, [])];
    }

    /**
     * Append one entry. A second entry for the last document is dropped, except in numeric indexes.
     * Everything else ends up as the last entry, unless the numeric delta overflows: then the entry
     * is stored under another id.
     */
    method WriteEntry(docId: nat, rec: Record) returns (written: bool)
      requires Valid() && docId >= 1 && docId >= lastId && ValidRecord(rec)
      modifies this
      ensures written <==> docId != old(lastId) || enc.Numeric?
      ensures !written ==> unchanged(this)
      ensures written ==> lastId == docId && gcMarker == old(gcMarker)
      ensures written ==> numDocs == old(numDocs) + if docId == old(lastId) then 0 else 1
      ensures written ==> numEntries == old(numEntries) + if enc.Numeric? then 1 else 0
      ensures written ==> IsWritten(enc, old(blocks), old(lastId), docId, rec, blocks)
      ensures written && !DeltaOverflows(enc, old(blocks), old(lastId), docId) ==>
                Valid() && Appended(enc, old(blocks), blocks, Stored(enc, docId, rec))
      ensures DeltaOverflows(enc, old(blocks), old(lastId), docId) ==>
                var wrong := Truncated(old(blocks), docId);
                wrong < docId && Appended(enc, old(blocks), blocks, Stored(enc, wrong, rec))
    {
      hide EncodeRecord, Project, ValidRecord, Appended, Ordered, Stored, Filled, WellFormed, Contents, NumDocs, Entries;
      var sameDoc := lastId != 0 && lastId == docId;
      if sameDoc && !enc.Numeric? {
        return false;
      }
      ghost var bs := blocks;
      LastBlock(enc, bs);
      var blk := blocks[|blocks| - 1];
      if blk.numEntries >= BlockSize(enc) && !sameDoc {
        AddBlock(docId);
        blk := blocks[|blocks| - 1];
      } else if blk.numEntries == 0 {
        blk := blk.(firstId := docId, lastId := docId);
      }
      var delta := if enc.RawDocIds? then docId - blk.firstId else docId - blk.lastId;
      if delta > UINT32_MAX && !enc.Numeric? {
        AddBlock(docId);
        blk, delta := blocks[|blocks| - 1], 0;
      }
      Extend(blk, delta, docId, rec, sameDoc);
      WriteResult(enc, bs, old(lastId), docId, rec);
      assert [] + EncodeRecord(enc, 0, rec) == EncodeRecord(enc, 0, rec);
      assert blocks == Written(enc, bs, old(lastId), docId, rec);
      return true;
    }
  }
}
