/** Whole runs of writing and reading: the round trip, and a reader beside writers and the collector. */
module ReaderRuns {
  import opened Bytes
  import opened RecordCodec
  import opened Blocks
  import opened Index
  import opened IteratorContract
  import opened IndexReader

  /** What a reader delivers from position p on, entry by entry. */
  ghost function Delivery(es: seq<Entry>, p: nat, accept: Record -> bool, skipMulti: bool, same: nat): seq<Entry>
    requires p <= |es|
    decreases |es| - p
  {
    if p == |es| then []
    else if Hit(es[p], accept, if skipMulti then same else 0, 0) then
      [es[p]] + Delivery(es, p + 1, accept, skipMulti, es[p].id)
    else Delivery(es, p + 1, accept, skipMulti, same)
  }

  lemma {:induction false} DeliveryNext(es: seq<Entry>, p: nat, accept: Record -> bool, skipMulti: bool, same: nat)
    requires p <= |es|
    ensures var j := NextHit(es, p, accept, if skipMulti then same else 0, 0);
            Delivery(es, p, accept, skipMulti, same)
            == if j == |es| then [] else [es[j]] + Delivery(es, j + 1, accept, skipMulti, es[j].id)
    decreases |es| - p
  {
    hide NextHit;
    NextHitStep(es, p, accept, if skipMulti then same else 0, 0);
    if p < |es| && !Hit(es[p], accept, if skipMulti then same else 0, 0) {
      DeliveryNext(es, p + 1, accept, skipMulti, same);
    }
  }

  /** Without a multi-value filter the document delivered last does not matter. */
  lemma {:induction false} SameIsIrrelevant(es: seq<Entry>, p: nat, accept: Record -> bool, a: nat, b: nat)
    requires p <= |es|
    ensures Delivery(es, p, accept, false, a) == Delivery(es, p, accept, false, b)
    decreases |es| - p
  {
    if p < |es| && !Hit(es[p], accept, 0, 0) { SameIsIrrelevant(es, p + 1, accept, a, b); }
  }

  /** Read to the end. */
  method ReadAll(r: Reader) returns (out: seq<Entry>)
    requires r.Valid() && !r.atEnd
    modifies r
    ensures out == old(Delivery(r.All(), r.Position(), r.accept, r.skipMulti, r.sameId))
  {
    hide InBlock, WfBlocks, Entries, Delivery, NextHit;
    out := [];
    ghost var all := r.All();
    ghost var want := Delivery(all, r.Position(), r.accept, r.skipMulti, r.sameId);
    while true
      invariant r.Valid() && !r.atEnd && r.All() == all
      invariant want == out + Delivery(all, r.Position(), r.accept, r.skipMulti, r.sameId)
      decreases |all| - r.Position()
    {
      ghost var p, same := r.Position(), r.sameId;
      DeliveryNext(all, p, r.accept, r.skipMulti, same);
      var rc := r.Read();
      if rc == Eof {
        return;
      }
      out := out + [r.record];
      if !r.skipMulti { SameIsIrrelevant(all, r.Position(), r.accept, r.record.id, r.sameId); }
    }
  }

  /** What the index keeps of a list of writes: a repeated document only in numeric indexes. */
  ghost function Kept(enc: Encoding, items: seq<Entry>): seq<Entry> {
    if items == [] then []
    else
      var n := |items| - 1;
      Kept(enc, items[..n])
      + if !enc.Numeric? && n > 0 && items[n - 1].id == items[n].id then [] else [Stored(enc, items[n].id, items[n].rec)]
  }

  /** Writes in id order; numeric ids do not jump by more than 32 bits. */
  ghost predicate Writable(enc: Encoding, items: seq<Entry>) {
    && (forall i :: 0 <= i < |items| ==> items[i].id >= 1 && ValidRecord(items[i].rec))
    && (forall i :: 1 <= i < |items| ==> items[i - 1].id <= items[i].id)
    && (enc.Numeric? ==> forall i :: 1 <= i < |items| ==> items[i].id - items[i - 1].id <= UINT32_MAX)
  }

  method WriteAll(enc: Encoding, items: seq<Entry>) returns (idx: InvertedIndex)
    requires Writable(enc, items)
    ensures fresh(idx) && idx.Valid() && idx.enc == enc && Entries(enc, idx.blocks) == Kept(enc, items)
  {
    hide Entries, Filled, Contents, Project, ValidRecord, Appended, IsWritten;
    idx := new InvertedIndex(enc);
    for i := 0 to |items|
      invariant idx.Valid() && idx.enc == enc && Entries(enc, idx.blocks) == Kept(enc, items[..i])
      invariant fresh(idx) && idx.blocks[|idx.blocks| - 1].lastId == idx.lastId == if i == 0 then 0 else items[i - 1].id
      invariant i == 0 ==> idx.blocks == [EMPTY_BLOCK]
    {
      ghost var was := idx.blocks;
      LastBlock(enc, was);
      assert !DeltaOverflows(enc, was, idx.lastId, items[i].id);
      var written := idx.WriteEntry(items[i].id, items[i].rec);
      assert items[..i + 1][..i] == items[..i];
      if written {
        AppendedEntries(enc, was, idx.blocks, Stored(enc, items[i].id, items[i].rec));
        AppendedLast(enc, was, idx.blocks, Stored(enc, items[i].id, items[i].rec));
      }
    }
    assert items[..|items|] == items;
  }

  lemma {:induction false} DeliverEverything(es: seq<Entry>, p: nat)
    requires p <= |es| && forall i :: 0 <= i < |es| ==> es[i].id >= 1
    ensures Delivery(es, p, _ => true, false, 0) == es[p..]
    decreases |es| - p
  {
    if p < |es| {
      DeliverEverything(es, p + 1);
      SameIsIrrelevant(es, p + 1, _ => true, es[p].id, 0);
    }
  }

  /** The round trip through blocks, deltas and block boundaries: a new unfiltered reader returns what was accepted. */
  method WriteThenRead(enc: Encoding, items: seq<Entry>) returns (out: seq<Entry>)
    requires Writable(enc, items)
    ensures out == Kept(enc, items)
  {
    hide Entries, Filled, Contents, WfBlocks, Delivery, InBlock;
    var idx := WriteAll(enc, items);
    var accept: Record -> bool := _ => true;
    var r := new Reader(idx, accept, false);
    WfEntriesSorted(enc, idx.blocks);
    DeliverEverything(r.All(), 0);
    out := ReadAll(r);
  }

  /** What can happen to an index while a reader does not hold it. */
  datatype Change = Write(docId: nat, rec: Record) | Collect(blocks: seq<Block>)

  /**
   * One turn of a reader. A seek goes a distance beyond the last delivered id; behind is the number a
   * raw seek finds behind a block.
   */
  datatype Turn = Read | Skip(ahead: nat, behind: nat) | Yield(changes: seq<Change>, sameIndex: bool, behind: nat)

  /** The last id and the ids in an index. */
  datatype Outline = Outline(last: nat, ids: set<nat>)

  ghost function OutlineOf(idx: InvertedIndex): Outline
    reads idx
  {
    Outline(idx.lastId, Ids(Entries(idx.enc, idx.blocks)))
  }

  /** The layouts with a seeker of their own, which handles ids of 32 bits. */
  predicate Seeks(enc: Encoding) {
    enc.Full? || enc.RawDocIds?
  }

  /** Writes come in id order; a collection only removes entries. */
  ghost predicate Legal(enc: Encoding, o: Outline, c: Change) {
    match c
    case Write(docId, rec) => docId >= 1 && o.last <= docId && ValidRecord(rec) && (Seeks(enc) ==> docId < TWO_32)
    case Collect(bs) => WfBlocks(enc, bs) && bs[|bs| - 1].lastId <= o.last && Ids(Entries(enc, bs)) <= o.ids
  }

  ghost function After(enc: Encoding, o: Outline, c: Change): Outline {
    match c
    case Write(docId, rec) => Outline(docId, if docId == o.last then o.ids else o.ids + {docId})
    case Collect(bs) => Outline(o.last, Ids(Entries(enc, bs)))
  }

  ghost function AfterAll(enc: Encoding, o: Outline, cs: seq<Change>): Outline
    decreases |cs|
  {
    if cs == [] then o else AfterAll(enc, After(enc, o, cs[0]), cs[1..])
  }

  ghost predicate LegalAll(enc: Encoding, o: Outline, cs: seq<Change>)
    decreases |cs|
  {
    cs == [] || (Legal(enc, o, cs[0]) && LegalAll(enc, After(enc, o, cs[0]), cs[1..]))
  }

  ghost predicate LegalTurns(enc: Encoding, o: Outline, ts: seq<Turn>)
    decreases |ts|
  {
    if ts == [] then true
    else if ts[0].Yield? then
      LegalAll(enc, o, ts[0].changes) && LegalTurns(enc, AfterAll(enc, o, ts[0].changes), ts[1..])
    else LegalTurns(enc, o, ts[1..])
  }

  lemma IdsSnoc(es: seq<Entry>, e: Entry)
    ensures Ids(es + [e]) == Ids(es) + {e.id}
  {
    assert forall x :: x in es + [e] <==> x in es || x == e;
  }

  method ApplyOne(idx: InvertedIndex, c: Change)
    requires idx.Valid() && !idx.enc.Numeric? && Legal(idx.enc, OutlineOf(idx), c)
    requires Seeks(idx.enc) ==> idx.lastId < TWO_32
    modifies idx
    ensures idx.Valid() && OutlineOf(idx) == After(idx.enc, old(OutlineOf(idx)), c)
    ensures Seeks(idx.enc) ==> idx.lastId < TWO_32
    ensures c.Collect? ==> idx.gcMarker == old(idx.gcMarker) + 1
    ensures c.Write? ==> idx.gcMarker == old(idx.gcMarker)
    ensures c.Write? ==> Grown(idx.enc, old(idx.blocks), idx.blocks)
  {
    hide Entries, Filled, Contents, Project, ValidRecord, Ids, EntryOk, IsWritten;
    match c
    case Write(docId, rec) =>
      ghost var was := idx.blocks;
      var written := idx.WriteEntry(docId, rec);
      if written {
        ghost var e := Stored(idx.enc, docId, rec);
        AppendedEntries(idx.enc, was, idx.blocks, e);
        IdsSnoc(Entries(idx.enc, was), e);
        GrownOnce(idx.enc, was, was, idx.blocks, e);
      }
    case Collect(bs) =>
      idx.blocks := bs;
      idx.gcMarker := idx.gcMarker + 1;
  }

  /** The ids afterwards are old ones, or above the last id there was. */
  lemma {:induction false} IdsAfter(enc: Encoding, o: Outline, cs: seq<Change>)
    requires LegalAll(enc, o, cs)
    ensures var a := AfterAll(enc, o, cs);
            o.last <= a.last && forall x :: x in a.ids ==> x in o.ids || x > o.last
    decreases |cs|
  {
    hide Ids, Entries, WfBlocks, ValidRecord;
    if cs != [] { IdsAfter(enc, After(enc, o, cs[0]), cs[1..]); }
  }

  ghost predicate HasCollection(cs: seq<Change>) {
    exists i :: 0 <= i < |cs| && cs[i].Collect?
  }

  method ApplyAll(idx: InvertedIndex, cs: seq<Change>)
    requires idx.Valid() && !idx.enc.Numeric? && LegalAll(idx.enc, OutlineOf(idx), cs)
    requires Seeks(idx.enc) ==> idx.lastId < TWO_32
    modifies idx
    ensures idx.Valid() && OutlineOf(idx) == AfterAll(idx.enc, old(OutlineOf(idx)), cs)
    ensures Seeks(idx.enc) ==> idx.lastId < TWO_32
    ensures old(idx.gcMarker) <= idx.gcMarker && (!HasCollection(cs) ==> idx.gcMarker == old(idx.gcMarker))
    ensures idx.gcMarker == old(idx.gcMarker) ==> Grown(idx.enc, old(idx.blocks), idx.blocks)
  {
    hide Entries, Filled, Contents, Ids, WfBlocks, Legal, After;
    GrownSelf(idx.enc, idx.blocks);
    ghost var o := OutlineOf(idx);
    for i := 0 to |cs|
      invariant idx.Valid() && (Seeks(idx.enc) ==> idx.lastId < TWO_32)
      invariant LegalAll(idx.enc, OutlineOf(idx), cs[i..])
      invariant AfterAll(idx.enc, OutlineOf(idx), cs[i..]) == AfterAll(idx.enc, o, cs)
      invariant old(idx.gcMarker) <= idx.gcMarker && (!HasCollection(cs) ==> idx.gcMarker == old(idx.gcMarker))
      invariant idx.gcMarker == old(idx.gcMarker) ==> Grown(idx.enc, old(idx.blocks), idx.blocks)
    {
      assert cs[i..][0] == cs[i] && cs[i..][1..] == cs[i + 1..];
      ghost var mid := idx.blocks;
      ApplyOne(idx, cs[i]);
      if idx.gcMarker == old(idx.gcMarker) { GrownTwice(idx.enc, old(idx.blocks), mid, idx.blocks); }
    }
  }

  lemma GrownSelf(enc: Encoding, bs: seq<Block>)
    requires WfBlocks(enc, bs)
    ensures Grown(enc, bs, bs)
  {
  }

  lemma GrownTwice(enc: Encoding, a: seq<Block>, b: seq<Block>, c: seq<Block>)
    requires Grown(enc, a, b) && Grown(enc, b, c)
    ensures Grown(enc, a, c)
  {
    hide Contents;
    GrownAt(enc, b, c, |a| - 1);
    assert |a| - 1 <= |b| - 1 && c[..|b| - 1][..|a| - 1] == b[..|b| - 1][..|a| - 1];
  }

  /** A non-empty index that only grew is non-empty. */
  lemma StaysFilled(enc: Encoding, bs: seq<Block>, bs': seq<Block>)
    requires Ordered(enc, bs) && Grown(enc, bs, bs') && WfBlocks(enc, bs')
    ensures Ordered(enc, bs')
  {
    hide Contents, WellFormed;
    EmptyIsNotFilled(enc);
    assert Filled(enc, bs[|bs| - 1]);
  }

  /** A term reader that no longer can deliver an id up to last. */
  ghost predicate Clear(r: Reader, last: nat)
    reads r, r.idx
  {
    !r.atEnd ==> r.Valid() && AboveFrom(r.All(), r.Position(), last)
  }

  /** The reader may be used: it was not outrun by a collection, or it knows. */
  ghost predicate Usable(r: Reader)
    reads r, r.idx
  {
    Fit(r) && (!r.atEnd && r.gcMarker == r.idx.gcMarker ==> r.ValidOn(r.idx.blocks))
  }

  /** What a change of the index does not touch. */
  ghost predicate Fit(r: Reader)
    reads r, r.idx
  {
    && r.idx.Valid() && !r.idx.enc.Numeric? && !r.skipMulti && r.gcMarker <= r.idx.gcMarker
    && (Seeks(r.idx.enc) ==> r.idx.lastId < TWO_32)
    && (r.idx.enc.RawDocIds? ==> r.record.id < TWO_32 && r.accept(BLANK))
  }

  /** Seeking the reader's last id does not go back behind what it passed. */
  ghost predicate Anchored(r: Reader)
    reads r, r.idx
  {
    !r.atEnd ==> r.Settled()
  }

  /** An entry was delivered: it is in the index, passes the filter, and is above everything before it. */
  ghost predicate Fresh(r: Reader, last: nat)
    reads r, r.idx
  {
    && r.record in r.All() && r.accept(r.record.rec) && last < r.record.id <= r.idx.lastId
    && Clear(r, r.record.id)
  }

  /** Behind the entry just read there are only larger ids. */
  lemma ClearBehind(r: Reader)
    requires r.Valid() && r.idx.Valid() && !r.idx.enc.Numeric? && r.Position() > 0
    ensures var e := r.All()[r.Position() - 1];
            e in r.All() && e.id <= r.idx.lastId && Clear(r, e.id)
  {
    hide InBlock, Entries, WfBlocks, Contents;
    WfEntriesSorted(r.idx.enc, r.idx.blocks);
  }

  method TakeRead(r: Reader, ghost last: nat) returns (rc: Status)
    requires Usable(r) && Clear(r, last)
    modifies r
    ensures Usable(r) && Anchored(r) && if rc == Eof then Clear(r, last) else Fresh(r, last)
    ensures r.gcMarker == old(r.gcMarker)
  {
    hide InBlock, Entries, Contents, NextHit, Filled, WellFormed, Ordered;
    ghost var ended := r.atEnd;
    if Seeks(r.idx.enc) { SmallIds(r.idx); }
    rc := r.Read();
    if !ended && rc != Eof { ClearBehind(r); }
  }

  lemma SmallIds(idx: InvertedIndex)
    requires idx.Valid() && idx.lastId < TWO_32
    ensures AllBelow(Entries(idx.enc, idx.blocks), TWO_32)
  {
    hide Entries, WfBlocks, Contents;
    WfEntriesSorted(idx.enc, idx.blocks);
  }

  /** With a zero behind the blocks a raw seek stays inside them. */
  lemma ZeroIsClean(enc: Encoding, bs: seq<Block>, c: nat, d: nat, behind: nat)
    requires WfBlocks(enc, bs) && c < |bs| && (enc.RawDocIds? ==> behind == 0)
    ensures CleanFrom(enc, bs, c, d, behind)
  {
    hide Home, WfBlocks;
    RangeInOrder(enc, bs, Home(bs, c, d));
  }

  method TakeSkip(r: Reader, last: nat, d: nat, behind: nat) returns (rc: Status)
    requires Usable(r) && Clear(r, last) && last < d
    modifies r
    ensures old(!r.atEnd ==> r.Clean(d, behind)) ==>
              Usable(r) && if rc == Eof then Clear(r, last) else Fresh(r, last)
    ensures r.gcMarker == old(r.gcMarker)
  {
    hide InBlock, Entries, Contents, NextHit, Filled, WellFormed, Ordered, AllBelow, CleanFrom;
    ghost var ended := r.atEnd;
    ghost var clean := ended || r.Clean(d, behind);
    if Seeks(r.idx.enc) { SmallIds(r.idx); }
    rc := r.SkipTo(d, behind);
    if !ended && rc != Eof && clean { ClearBehind(r); }
  }

  /** What is above the reader's last id is above last. */
  lemma AboveLast(r: Reader, last: nat)
    requires !r.atEnd && Clear(r, last) && Anchored(r)
    ensures AllAbove(r.All(), r.lastId, last)
  {
    hide InBlock, Entries, Contents, Filled;
    WfEntriesSorted(r.idx.enc, r.idx.blocks);
    forall e | e in r.All() && e.id > r.lastId ensures e.id > last {
      var i :| 0 <= i < |r.All()| && r.All()[i] == e;
    }
  }

  /** Standing behind an entry that is not below lastId, or at the end, leaves only what is above last. */
  lemma ClearAfterSeek(r: Reader, rc: Status, lastId: nat, last: nat)
    requires r.Valid() && !r.idx.enc.Numeric? && r.Delivered(rc, lastId)
    requires AllAbove(r.All(), lastId, last)
    ensures Clear(r, last)
  {
    hide InBlock, Entries, WfBlocks, Contents;
    WfEntriesSorted(r.idx.enc, r.idx.blocks);
    forall i | r.Position() <= i < |r.All()| ensures !r.atEnd ==> r.All()[i].id > last {
      assert r.All()[i] in r.All();
    }
  }

  lemma ClearGrown(es: seq<Entry>, es': seq<Entry>, p: nat, last: nat, bound: nat)
    requires es <= es' && StrictlySorted(es') && OnlyAbove(es, es', bound) && last <= bound
    requires AboveFrom(es, p, last)
    ensures AboveFrom(es', p, last)
  {
    forall i | p <= i < |es'| ensures es'[i].id > last {
      assert es'[i].id in Ids(es');
      assert i < |es| ==> es[i] == es'[i];
    }
  }

  lemma AboveStays(es: seq<Entry>, es': seq<Entry>, at: nat, last: nat, bound: nat)
    requires OnlyAbove(es, es', bound) && last <= bound
    requires AllAbove(es, at, last)
    ensures AllAbove(es', at, last)
  {
    forall e | e in es' && e.id > at ensures e.id > last {
      assert e.id in Ids(es');
    }
  }

  /** After these changes the reader will have to seek. */
  ghost predicate MustSeek(r: Reader, cs: seq<Change>)
    reads r, r.idx
  {
    r.gcMarker != r.idx.gcMarker || HasCollection(cs)
  }

  /** The ids above at are above last. */
  ghost predicate AllAbove(es: seq<Entry>, at: nat, last: nat) {
    forall e :: e in es && e.id > at ==> e.id > last
  }

  ghost predicate AboveFrom(es: seq<Entry>, p: nat, last: nat) {
    forall i :: p <= i < |es| ==> es[i].id > last
  }

  /** The same of a reader on an index with these blocks. */
  ghost predicate ClearOn(r: Reader, was: seq<Block>, last: nat)
    reads r
  {
    r.ValidOn(was) && AboveFrom(Entries(r.idx.enc, was), r.PositionOn(was), last)
  }

  ghost predicate SettledOn(r: Reader, was: seq<Block>)
    reads r
  {
    && r.ValidOn(was)
    && var es, p := Entries(r.idx.enc, was), r.PositionOn(was);
       p > 0 ==> es[p - 1].id <= r.lastId
  }

  /** Take a changed index back: still nothing up to last can be delivered. */
  method TakeBack(r: Reader, last: nat, sameIndex: bool, behind: nat, ghost was: seq<Block>, ghost bound: nat)
    requires Fit(r) && (r.idx.enc.RawDocIds? ==> behind == 0)
    requires last <= bound && OnlyAbove(Entries(r.idx.enc, was), r.All(), bound)
    requires !r.atEnd && r.gcMarker == r.idx.gcMarker ==> Grown(r.idx.enc, was, r.idx.blocks) && ClearOn(r, was, last)
    requires !r.atEnd && r.gcMarker != r.idx.gcMarker ==> AllAbove(Entries(r.idx.enc, was), r.lastId, last)
    modifies r
    ensures Usable(r) && Clear(r, last) && r.gcMarker == old(r.gcMarker)
    ensures r.gcMarker == r.idx.gcMarker && old(r.atEnd || SettledOn(r, was)) ==> Anchored(r)
  {
    hide InBlock, Entries, Contents, Filled, WellFormed, Ordered, AllBelow, Ids, Start, CleanFrom, Beyond, Resumes,
      Remaining, StrictlySorted, Sorted, r.Rem, r.Delivered, r.Comparable;
    ghost var at, ended := r.lastId, r.atEnd;
    ghost var p := if r.ValidOn(was) then r.PositionOn(was) else 0;
    if Seeks(r.idx.enc) { SmallIds(r.idx); }
    ZeroIsClean(r.idx.enc, r.idx.blocks, 0, at, behind);
    ghost var rc := r.Reopen(sameIndex, behind, was);
    if sameIndex && !ended {
      if r.gcMarker == r.idx.gcMarker {
        StaysFilled(r.idx.enc, was, r.idx.blocks);
        WfEntriesSorted(r.idx.enc, r.idx.blocks);
        ClearGrown(Entries(r.idx.enc, was), r.All(), p, last, bound);
      } else {
        AboveStays(Entries(r.idx.enc, was), r.All(), at, last, bound);
        ClearAfterSeek(r, rc, at, last);
      }
    }
  }

  /** Release the index, let it change, and take it back. */
  method TakeYield(r: Reader, last: nat, cs: seq<Change>, sameIndex: bool, behind: nat)
    requires Usable(r) && Clear(r, last) && last <= r.idx.lastId && LegalAll(r.idx.enc, OutlineOf(r.idx), cs)
    requires MustSeek(r, cs) ==> Anchored(r)
    requires r.idx.enc.RawDocIds? ==> behind == 0
    modifies r, r.idx
    ensures Usable(r) && Clear(r, last) && last <= r.idx.lastId && r.gcMarker == old(r.gcMarker)
    ensures OutlineOf(r.idx) == AfterAll(r.idx.enc, old(OutlineOf(r.idx)), cs)
    ensures !old(MustSeek(r, cs)) ==> r.gcMarker == r.idx.gcMarker && (old(Anchored(r)) ==> Anchored(r))
  {
    hide InBlock, Entries, Contents, Filled, WellFormed, Ordered, AllBelow, Ids, LegalAll, AfterAll, Start,
      HasCollection;
    ghost var was, o, seeks := r.idx.blocks, OutlineOf(r.idx), MustSeek(r, cs);
    if !r.atEnd && seeks { AboveLast(r, last); }
    IdsAfter(r.idx.enc, o, cs);
    ApplyAll(r.idx, cs);
    TakeBack(r, last, sameIndex, behind, was, o.last);
  }

  /** Whether the reader's last id is up to date, and whether there was a collection. */
  datatype Pace = Pace(settled: bool, collected: bool)

  ghost function PaceAfter(t: Turn, p: Pace): Pace {
    match t
    case Read => Pace(true, p.collected)
    case Skip(_, _) => Pace(false, p.collected)
    case Yield(cs, _, _) => var c := p.collected || HasCollection(cs); Pace(p.settled && !c, c)
  }

  /**
   * What a reader of the raw layout needs: once there was a collection, it reads an entry between a seek
   * and giving up the index, and between two times of giving it up; and seeks find a zero behind a block.
   */
  ghost predicate Steady(ts: seq<Turn>, p: Pace)
    decreases |ts|
  {
    ts != [] ==>
    && (ts[0].Skip? || ts[0].Yield? ==> ts[0].behind == 0)
    && (ts[0].Yield? && (p.collected || HasCollection(ts[0].changes)) ==> p.settled)
    && Steady(ts[1..], PaceAfter(ts[0], p))
  }

  ghost predicate Rising(es: seq<Entry>) {
    forall i :: 1 <= i < |es| ==> es[i - 1].id < es[i].id
  }

  function LastOf(es: seq<Entry>): nat {
    if es == [] then 0 else es[|es| - 1].id
  }

  /** Where a run stands: what the next turn may rely on. */
  ghost predicate OnTrack(r: Reader, last: nat, turns: seq<Turn>, p: Pace)
    reads r, r.idx
  {
    && Usable(r) && Clear(r, last) && last <= r.idx.lastId && LegalTurns(r.idx.enc, OutlineOf(r.idx), turns)
    && (p.settled ==> Anchored(r)) && (!p.collected ==> r.gcMarker == r.idx.gcMarker)
    && (r.idx.enc.RawDocIds? ==> Steady(turns, p))
  }

  /** One turn; what it delivers is fresh, and the run stays on track. */
  method Take(r: Reader, last: nat, turns: seq<Turn>, ghost p: Pace) returns (rc: Status)
    requires turns != [] && OnTrack(r, last, turns, p)
    modifies r, r.idx
    ensures rc == Eof ==> OnTrack(r, last, turns[1..], PaceAfter(turns[0], p))
    ensures rc != Eof ==> Fresh(r, last) && OnTrack(r, r.record.id, turns[1..], PaceAfter(turns[0], p))
  {
    hide InBlock, Entries, Contents, Ordered, OutlineOf, AfterAll, LegalAll, HasCollection, CleanFrom, WfBlocks;
    rc := Eof;
    if !r.atEnd && !r.idx.enc.RawDocIds? { r.BehindLast(); }
    match turns[0] {
      case Read => rc := TakeRead(r, last);
      case Skip(ahead, behind) =>
        if !r.atEnd { ZeroIsClean(r.idx.enc, r.idx.blocks, r.currentBlock, last + 1 + ahead, behind); }
        rc := TakeSkip(r, last, last + 1 + ahead, behind);
      case Yield(changes, sameIndex, behind) => TakeYield(r, last, changes, sameIndex, behind);
    }
    if !r.atEnd && !r.idx.enc.RawDocIds? { r.BehindLast(); }
  }

  /**
   * Any interleaving of reads, seeks, writes, collections and reopenings: the ids a term reader delivers
   * strictly increase, and each entry was in the index (views[i]) when it was delivered.
   */
  method Drive(r: Reader, turns: seq<Turn>) returns (out: seq<Entry>, ghost views: seq<seq<Entry>>)
    requires OnTrack(r, 0, turns, Pace(true, false))
    modifies r, r.idx
    ensures Rising(out) && |views| == |out|
    ensures forall i :: 0 <= i < |out| ==> out[i] in views[i] && r.accept(out[i].rec)
  {
    hide OnTrack, Clear, Entries, PaceAfter, Contents;
    out, views := [], [];
    ghost var p := Pace(true, false);
    for n := 0 to |turns|
      invariant OnTrack(r, LastOf(out), turns[n..], p)
      invariant Rising(out) && |views| == |out|
      invariant forall i :: 0 <= i < |out| ==> out[i] in views[i] && r.accept(out[i].rec)
    {
      assert turns[n..][0] == turns[n] && turns[n..][1..] == turns[n + 1..];
      var rc := Take(r, LastOf(out), turns[n..], p);
      p := PaceAfter(turns[n], p);
      if rc != Eof {
        out, views := out + [r.record], views + [r.All()];
      }
    }
  }

  /** A term reader's whole life, from opening a non-empty index on. */
  method Session(idx: InvertedIndex, accept: Record -> bool, turns: seq<Turn>) returns (out: seq<Entry>, ghost views: seq<seq<Entry>>)
    requires idx.Valid() && Ordered(idx.enc, idx.blocks) && !idx.enc.Numeric? && (Seeks(idx.enc) ==> idx.lastId < TWO_32)
    requires LegalTurns(idx.enc, OutlineOf(idx), turns)
    requires idx.enc.RawDocIds? ==> accept(BLANK) && Steady(turns, Pace(true, false))
    modifies idx
    ensures Rising(out) && |views| == |out|
    ensures forall i :: 0 <= i < |out| ==> out[i] in views[i] && accept(out[i].rec)
  {
    hide InBlock, Entries, Contents, Filled, WellFormed, LegalTurns, OutlineOf, Start, Steady;
    var r := new Reader(idx, accept, false);
    WfEntriesSorted(idx.enc, idx.blocks);
    out, views := Drive(r, turns);
  }
}
