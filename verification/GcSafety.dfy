/**
 * Runs of the collector beside indexing: in every reachable state the index holds, for the documents
 * that are alive, exactly the entries that were added for them.
 */
module GcSafety {
  import opened RecordCodec
  import opened Blocks
  import opened BlockRepair
  import opened Index
  import IndexReader
  import opened ForkGc
  import opened GcApply
  import opened GcMemory
  import opened GcMeaning
  import opened GcParent
  import opened GcRuns

  /** The collector between rounds, or with a child at work on a snapshot taken when forkMax was the largest id. */
  datatype Collector = Idle | Forked(snap: Snapshot, forkMax: nat)

  /** One inverted index, the document table's ids, the collector, and the history of added entries. */
  datatype State = State(enc: Encoding, maxDocId: nat, live: set<nat>,
                         hdrs: seq<Hdr>, mem: Mem, lastId: nat, numDocs: int, gcMarker: nat,
                         gc: Collector, added: seq<Entry>)

  ghost predicate Init(s: State) {
    && s.maxDocId == 0 && s.live == {} && s.lastId == 0 && s.numDocs == 0 && s.gc == Idle && s.added == []
    && |s.hdrs| == 1 && s.hdrs[0] == EmptyHdr(s.hdrs[0].ptr) && s.mem == map[s.hdrs[0].ptr := []]
  }

  /** A new document gets the next id. */
  ghost predicate PutStep(s: State, t: State) {
    t == s.(maxDocId := s.maxDocId + 1, live := s.live + {s.maxDocId + 1})
  }

  ghost predicate PopStep(s: State, t: State) {
    exists id :: id in s.live && t == s.(live := s.live - {id})
  }

  /** The block array and the memory of an index that only grew by one entry. */
  ghost predicate GrewBy(enc: Encoding, hdrs: seq<Hdr>, mem: Mem, hdrs': seq<Hdr>, mem': Mem, e: Entry) {
    && hdrs != [] && AllBacked(mem, hdrs) && |hdrs| <= |hdrs'| && AllBacked(mem', hdrs') && Disjoint(hdrs')
    && WfBlocks(enc, Views(mem', hdrs'))
    && Appended(enc, Views(mem, hdrs), Views(mem', hdrs'), e)
    && (forall i :: 0 <= i < (if |hdrs'| == |hdrs| then |hdrs| - 1 else |hdrs|) ==>
          hdrs'[i] == hdrs[i] && mem'[hdrs[i].ptr] == mem[hdrs[i].ptr])
  }

  /** A live document's entry is appended; ids never go back, and only numeric indexes take a second one. */
  ghost predicate AppendOf(s: State, t: State, e: Entry) {
    && e.id in s.live && s.lastId <= e.id && (e.id != s.lastId || s.enc.Numeric?)
    && GrewBy(s.enc, s.hdrs, s.mem, t.hdrs, t.mem, e)
    && t == s.(hdrs := t.hdrs, mem := t.mem, lastId := e.id, added := s.added + [e],
               numDocs := s.numDocs + if e.id == s.lastId then 0 else 1)
  }

  ghost predicate AppendStep(s: State, t: State) {
    exists e: Entry :: AppendOf(s, t, e)
  }

  ghost predicate ForkStep(s: State, t: State) {
    exists childPtr: nat -> nat ::
      s.gc.Idle? && t == s.(gc := Forked(Snapshot(s.enc, s.hdrs, s.mem, s.live, childPtr), s.maxDocId))
  }

  /** The parent takes over the child's report, with these buffers for what it receives. */
  ghost predicate ApplyWith(s: State, t: State, alloc: nat -> nat, emptyPtr: nat) {
    && s.gc.Forked? && MovedOn(s.gc.snap, s.hdrs, s.mem)
    && var m := Taken(s.gc.snap, s.hdrs);
       && m <= |s.gc.snap.hdrs| && FreshBuffers(s.mem, FixedList(s.gc.snap, m), alloc) && emptyPtr !in s.mem
       && t == s.(hdrs := NewHdrs(s.gc.snap, s.hdrs, alloc, emptyPtr),
                  mem := NewMem(s.gc.snap, s.hdrs, s.mem, alloc, emptyPtr),
                  numDocs := s.numDocs - DeadUpTo(s.gc.snap, m), gcMarker := s.gcMarker + 1, gc := Idle)
  }

  ghost predicate ApplyStep(s: State, t: State) {
    exists alloc: nat -> nat, emptyPtr: nat :: ApplyWith(s, t, alloc, emptyPtr)
  }

  /** The child dies or has nothing to report. */
  ghost predicate AbandonStep(s: State, t: State) {
    t == s.(gc := Idle)
  }

  /** A term whose index holds no document any more is given up; the next write of the term starts a new index. */
  ghost predicate DropStep(s: State, t: State) {
    exists ptr: nat :: DropTo(s, t, ptr)
  }

  ghost predicate DropTo(s: State, t: State, ptr: nat) {
    s.gc.Idle? && s.numDocs == 0 && t == s.(hdrs := [EmptyHdr(ptr)], mem := map[ptr := []], lastId := 0, gcMarker := 0)
  }

  ghost predicate Next(s: State, t: State) {
    || PutStep(s, t) || PopStep(s, t) || AppendStep(s, t) || ForkStep(s, t) || ApplyStep(s, t) || AbandonStep(s, t)
    || DropStep(s, t)
  }

  ghost predicate Stored(s: State) {
    s.hdrs != [] && AllBacked(s.mem, s.hdrs) && Disjoint(s.hdrs) && WfBlocks(s.enc, Views(s.mem, s.hdrs))
  }

  ghost function EntriesOf(s: State): seq<Entry>
    requires Stored(s)
  {
    Entries(s.enc, Views(s.mem, s.hdrs))
  }

  /** Ids are bounded: by the last written id, and that by the last assigned one. */
  ghost predicate Bounded(s: State)
    requires Stored(s)
  {
    && s.lastId <= s.maxDocId && (forall x :: x in s.live ==> 1 <= x <= s.maxDocId)
    && Views(s.mem, s.hdrs)[|s.hdrs| - 1].lastId <= s.lastId
    && (forall i :: 0 <= i < |s.added| ==> 1 <= s.added[i].id <= s.maxDocId)
    && (s.lastId > 0 ==> s.added != [] && s.added[|s.added| - 1].id == s.lastId)
  }

  /** What the collector's child knows is still true: what was dead at the fork is dead now. */
  ghost predicate ChildCurrent(s: State) {
    s.gc.Forked? ==>
      && s.gc.snap.enc == s.enc && MovedOn(s.gc.snap, s.hdrs, s.mem) && s.gc.forkMax <= s.maxDocId
      && Views(s.gc.snap.mem, s.gc.snap.hdrs)[|s.gc.snap.hdrs| - 1].lastId <= s.gc.forkMax
      && (forall x :: x in s.live && x <= s.gc.forkMax ==> x in s.gc.snap.live)
  }

  /** No entry of a live document is missing, repeated or out of order, and the counts are right. */
  ghost predicate Faithful(s: State)
    requires Stored(s)
  {
    Survivors(EntriesOf(s), s.live) == Survivors(s.added, s.live)
  }

  ghost predicate Inv(s: State) {
    && Stored(s) && Bounded(s) && ChildCurrent(s) && Faithful(s)
    && s.numDocs == NumDocs(s.enc, Views(s.mem, s.hdrs))
  }

  lemma InitInv(s: State)
    requires Init(s)
    ensures Inv(s)
  {
    hide Contents, Filled;
    EmptyIndex(s.enc, s.mem, s.hdrs[0].ptr);
    assert s.hdrs == [EmptyHdr(s.hdrs[0].ptr)];
  }

  lemma EntryBounds(s: State)
    requires Stored(s) && Bounded(s)
    ensures forall i :: 0 <= i < |EntriesOf(s)| ==> 1 <= EntriesOf(s)[i].id <= s.lastId
  {
    hide Contents, Filled, Entries, WfBlocks;
    IndexReader.WfEntriesSorted(s.enc, Views(s.mem, s.hdrs));
  }

  lemma PutKeeps(s: State, t: State)
    requires Inv(s) && PutStep(s, t)
    ensures Inv(t)
  {
    hide Contents, Filled, Entries, WfBlocks, Survivors, NumDocs, MovedOn;
    EntryBounds(s);
    SurvivorsAgree(EntriesOf(s), s.live, t.live);
    SurvivorsAgree(s.added, s.live, t.live);
  }

  lemma PopKeeps(s: State, t: State)
    requires Inv(s) && PopStep(s, t)
    ensures Inv(t)
  {
    hide Contents, Filled, Entries, WfBlocks, Survivors, NumDocs, MovedOn;
    SurvivorsTwice(EntriesOf(s), s.live, t.live);
    SurvivorsTwice(s.added, s.live, t.live);
  }

  lemma ForkKeeps(s: State, t: State)
    requires Inv(s) && ForkStep(s, t)
    ensures Inv(t)
  {
    hide Filled, Entries, WfBlocks, Survivors, NumDocs, Contents;
  }

  lemma AbandonKeeps(s: State, t: State)
    requires Inv(s) && AbandonStep(s, t)
    ensures Inv(t)
  {
    hide Contents, Filled, Entries, WfBlocks, Survivors, NumDocs, MovedOn;
  }

  /** Entries the child saw were written before the fork. */
  lemma TakenIds(s: State)
    requires Inv(s) && s.gc.Forked?
    ensures var snap, l := s.gc.snap, Views(s.mem, s.hdrs);
            var m := Taken(snap, s.hdrs);
            && m <= |l| && Views(snap.mem, snap.hdrs)[..m] == l[..m]
            && forall i :: 0 <= i < |Entries(s.enc, l[..m])| ==> Entries(s.enc, l[..m])[i].id <= s.gc.forkMax
  {
    hide Contents, Filled, Entries, Survivors, NumDocs, VerdictAt, Taken;
    var snap, l := s.gc.snap, Views(s.mem, s.hdrs);
    var m, b := Taken(snap, s.hdrs), Views(snap.mem, snap.hdrs);
    TakenBound(snap, s.hdrs);
    TakenBlocks(snap, s.hdrs, s.mem);
    IndexReader.WfEntriesSorted(s.enc, b);
    IndexReader.EntriesPrefix(s.enc, b, m);
  }

  /** Taking over the report keeps every entry of a live document. */
  lemma ApplyFaithful(s: State, l': seq<Block>)
    requires Inv(s) && s.gc.Forked?
    requires var snap, l := s.gc.snap, Views(s.mem, s.hdrs);
             var m := Taken(snap, s.hdrs);
             && m <= |l| && Entries(s.enc, l') == Remnants(s.enc, l[..m], snap.live) + Entries(s.enc, l[m..])
             && Entries(s.enc, l) == Entries(s.enc, l[..m]) + Entries(s.enc, l[m..])
    ensures Survivors(Entries(s.enc, l'), s.live) == Survivors(s.added, s.live)
  {
    hide Contents, Filled, Entries, Survivors, NumDocs, VerdictAt, Taken, Remnants, WfBlocks, WfSnapshot;
    var snap, l := s.gc.snap, Views(s.mem, s.hdrs);
    var m := Taken(snap, s.hdrs);
    TakenIds(s);
    RemnantsKeepLive(s.enc, l[..m], snap.live, s.live);
    SurvivorsConcat(Remnants(s.enc, l[..m], snap.live), Entries(s.enc, l[m..]), s.live);
    SurvivorsConcat(Entries(s.enc, l[..m]), Entries(s.enc, l[m..]), s.live);
  }

  /** The entries, the header ids and the counts after the report was taken over. */
  lemma ApplyResult(s: State, t: State, alloc: nat -> nat, emptyPtr: nat)
    requires Inv(s) && ApplyWith(s, t, alloc, emptyPtr)
    ensures Stored(t) && Faithful(t)
    ensures Views(t.mem, t.hdrs)[|t.hdrs| - 1].lastId <= s.lastId
    ensures t.numDocs == NumDocs(t.enc, Views(t.mem, t.hdrs))
  {
    hide Contents, Filled, Entries, Survivors, NumDocs, VerdictAt, Taken, Remnants, WfBlocks, NewHdrs, NewMem, DeadUpTo,
      FixedList, FreshBuffers, WfSnapshot;
    SpliceMeaning(s.gc.snap, s.hdrs, s.mem, alloc, emptyPtr);
    ApplyFaithful(s, Views(t.mem, t.hdrs));
  }

  lemma ApplyKeeps(s: State, t: State)
    requires Inv(s) && ApplyStep(s, t)
    ensures Inv(t)
  {
    hide Entries, Survivors, NumDocs, Taken, WfBlocks, NewHdrs, NewMem, DeadUpTo, FixedList, FreshBuffers, MovedOn;
    var alloc: nat -> nat, emptyPtr: nat :| ApplyWith(s, t, alloc, emptyPtr);
    ApplyResult(s, t, alloc, emptyPtr);
  }

  /** The last stored entry, seen from the last block's header. */
  lemma LastEntryId(enc: Encoding, l: seq<Block>)
    requires WfBlocks(enc, l)
    ensures var b := l[|l| - 1];
            var es := Contents(enc, b);
            if es == [] then b.lastId == 0 else es[|es| - 1].id == b.lastId
  {
    hide Contents, Filled;
    EmptyIsNotFilled(enc);
    if l != [EMPTY_BLOCK] { FilledBlock(enc, l[|l| - 1]); }
  }

  /** A second entry for the last document goes to the same block. */
  lemma SameDocSameBlock(enc: Encoding, l: seq<Block>, l': seq<Block>, e: Entry)
    requires Appended(enc, l, l', e) && WfBlocks(enc, l') && l[|l| - 1].lastId == e.id
    ensures |l'| == |l|
  {
    hide Contents, Filled;
    if |l'| > |l| {
      FilledBlock(enc, l'[|l|]);
    }
  }

  /** What a write does to the entries, the ids and the document count. */
  lemma GrewFacts(enc: Encoding, l: seq<Block>, l': seq<Block>, e: Entry)
    requires Appended(enc, l, l', e) && WfBlocks(enc, l) && WfBlocks(enc, l') && e.id >= 1
    ensures Entries(enc, l') == Entries(enc, l) + [e]
    ensures l'[|l'| - 1].lastId == e.id
    ensures NumDocs(enc, l') == NumDocs(enc, l) + if l[|l| - 1].lastId == e.id then 0 else 1
  {
    hide Contents, Filled, Entries, NumDocs, WfBlocks;
    AppendedEntries(enc, l, l', e);
    AppendedNumDocs(enc, l, l', e);
    AppendedLast(enc, l, l', e);
    LastEntryId(enc, l);
    if l[|l| - 1].lastId == e.id { SameDocSameBlock(enc, l, l', e); }
  }

  /** The live index has still only been appended to. */
  lemma MovesOn(snap: Snapshot, hdrs: seq<Hdr>, mem: Mem, hdrs': seq<Hdr>, mem': Mem, e: Entry)
    requires MovedOn(snap, hdrs, mem) && GrewBy(snap.enc, hdrs, mem, hdrs', mem', e)
    ensures MovedOn(snap, hdrs', mem')
  {
    hide Contents, Filled;
    var n := |snap.hdrs|;
    var l, l' := Views(mem, hdrs), Views(mem', hdrs');
    if |hdrs'| == |hdrs| && |hdrs| == n {
      assert Contents(snap.enc, l'[n - 1]) == Contents(snap.enc, l[n - 1]) + [e];
      CountIsLength(snap.enc, l', n - 1);
      CountIsLength(snap.enc, Views(snap.mem, snap.hdrs), n - 1);
    }
  }

  lemma CountIsLength(enc: Encoding, bs: seq<Block>, i: nat)
    requires WfBlocks(enc, bs) && i < |bs|
    ensures bs[i].numEntries == |Contents(enc, bs[i])|
  {
    hide Contents, Filled;
    if bs == [EMPTY_BLOCK] { EmptyIsNotFilled(enc); } else { FilledBlock(enc, bs[i]); }
  }

  /** A document that is alive and was written last is still the last one in the index. */
  lemma LastStillThere(s: State)
    requires Inv(s) && s.lastId > 0 && s.lastId in s.live
    ensures Views(s.mem, s.hdrs)[|s.hdrs| - 1].lastId == s.lastId
  {
    hide Contents, Filled, Entries, WfBlocks, NumDocs, MovedOn, Survivors;
    var es, a := EntriesOf(s), s.added;
    IndexReader.WfEntriesSorted(s.enc, Views(s.mem, s.hdrs));
    var p, e := a[..|a| - 1], a[|a| - 1];
    assert a == p + [e];
    SurvivorsSnoc(p, e, s.live);
    SurvivorIsEntry(es, s.live, |Survivors(es, s.live)| - 1);
  }

  lemma {:induction false} SurvivorIsEntry(es: seq<Entry>, live: set<nat>, i: nat)
    requires i < |Survivors(es, live)|
    ensures Survivors(es, live)[i] in es
  {
    var n := |es| - 1;
    if i < |Survivors(es[..n], live)| {
      SurvivorIsEntry(es[..n], live, i);
    }
  }

  lemma AppendKeeps(s: State, t: State)
    requires Inv(s) && AppendStep(s, t)
    ensures Inv(t)
  {
    hide Contents, Filled, Entries, WfBlocks, NumDocs, MovedOn, Survivors;
    var e: Entry :| AppendOf(s, t, e);
    GrewFacts(s.enc, Views(s.mem, s.hdrs), Views(t.mem, t.hdrs), e);
    if s.gc.Forked? { MovesOn(s.gc.snap, s.hdrs, s.mem, t.hdrs, t.mem, e); }
    if e.id == s.lastId { LastStillThere(s); }
    SurvivorsSnoc(EntriesOf(s), e, s.live);
    SurvivorsSnoc(s.added, e, s.live);
  }

  lemma {:induction false} SomeDoc(es: seq<Entry>)
    ensures DocCount(es) == 0 ==> es == []
  {
    if |es| > 1 { SomeDoc(es[..|es| - 1]); }
  }

  /** Without documents there are no entries. */
  lemma {:induction false} NoDocsNoEntries(enc: Encoding, bs: seq<Block>)
    ensures NumDocs(enc, bs) == 0 ==> Entries(enc, bs) == []
  {
    hide Contents;
    if bs != [] {
      NoDocsNoEntries(enc, bs[..|bs| - 1]);
      SomeDoc(Contents(enc, bs[|bs| - 1]));
    }
  }

  lemma DropKeeps(s: State, t: State)
    requires Inv(s) && DropStep(s, t)
    ensures Inv(t)
  {
    hide Contents, Filled, Survivors;
    var ptr: nat :| DropTo(s, t, ptr);
    NoDocsNoEntries(s.enc, Views(s.mem, s.hdrs));
    EmptyIndex(t.enc, t.mem, ptr);
    assert t.hdrs == [EmptyHdr(ptr)];
  }

  lemma NextKeeps(s: State, t: State)
    requires Inv(s) && Next(s, t)
    ensures Inv(t)
  {
    hide Inv, PutStep, PopStep, AppendStep, ForkStep, ApplyStep, AbandonStep, DropStep;
    if PutStep(s, t) { PutKeeps(s, t); }
    else if PopStep(s, t) { PopKeeps(s, t); }
    else if AppendStep(s, t) { AppendKeeps(s, t); }
    else if ForkStep(s, t) { ForkKeeps(s, t); }
    else if ApplyStep(s, t) { ApplyKeeps(s, t); }
    else if DropStep(s, t) { DropKeeps(s, t); }
    else { AbandonKeeps(s, t); }
  }

  ghost predicate IsRun(run: seq<State>) {
    && run != [] && Init(run[0])
    && forall i :: 1 <= i < |run| ==> Next(run[i - 1], run[i])
  }

  /**
   * Safety over whole runs: whatever the order of indexing, deleting, forking and applying, the
   * index's entries for the live documents are exactly the ones added for them, in the order they
   * were added; and its document count is right.
   */
  lemma {:induction false} RunsAreFaithful(run: seq<State>, i: nat)
    requires IsRun(run) && i < |run|
    ensures Inv(run[i])
    ensures Survivors(EntriesOf(run[i]), run[i].live) == Survivors(run[i].added, run[i].live)
    ensures run[i].numDocs == NumDocs(run[i].enc, Views(run[i].mem, run[i].hdrs))
  {
    hide Init, Next, Survivors, NumDocs, Entries, WfBlocks, ChildCurrent, Bounded;
    if i == 0 {
      InitInv(run[0]);
    } else {
      RunsAreFaithful(run, i - 1);
      NextKeeps(run[i - 1], run[i]);
    }
  }
}
