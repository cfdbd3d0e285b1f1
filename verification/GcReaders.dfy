/** The collector's runs and the readers' runs together: every report taken over is a change readers are prepared for. */
module GcReaders {
  import opened RecordCodec
  import opened Blocks
  import opened BlockRepair
  import opened Index
  import opened ForkGc
  import opened GcApply
  import opened GcMeaning
  import opened GcMemory
  import opened GcParent
  import opened GcRuns
  import opened GcSafety
  import IndexReader
  import ReaderRuns

  lemma {:induction false} RemnantsAreEntries(enc: Encoding, bs: seq<Block>, live: set<nat>, e: Entry)
    requires e in Remnants(enc, bs, live)
    ensures e in Entries(enc, bs)
  {
    hide Contents, Survivors;
    var n := |bs| - 1;
    if e in Remnants(enc, bs[..n], live) {
      RemnantsAreEntries(enc, bs[..n], live, e);
    } else if !Wide(bs[n]) {
      var es := Contents(enc, bs[n]);
      var i :| 0 <= i < |Survivors(es, live)| && Survivors(es, live)[i] == e;
      SurvivorIsEntry(es, live, i);
    }
  }

  lemma {:induction false} SurvivorIsAlive(es: seq<Entry>, live: set<nat>, i: nat)
    requires i < |Survivors(es, live)|
    ensures Survivors(es, live)[i].id in live
  {
    var n := |es| - 1;
    if i < |Survivors(es[..n], live)| { SurvivorIsAlive(es[..n], live, i); }
  }

  /** Nothing of a document that was dead at the fork is left in the blocks the child looked at, but for too wide ones. */
  lemma {:induction false} RemnantsAreAlive(enc: Encoding, bs: seq<Block>, live: set<nat>, e: Entry)
    requires e in Remnants(enc, bs, live) && forall i :: 0 <= i < |bs| ==> !Wide(bs[i])
    ensures e.id in live
  {
    hide Contents, Survivors;
    var n := |bs| - 1;
    if e in Remnants(enc, bs[..n], live) {
      RemnantsAreAlive(enc, bs[..n], live, e);
    } else {
      var es := Contents(enc, bs[n]);
      var i :| 0 <= i < |Survivors(es, live)| && Survivors(es, live)[i] == e;
      SurvivorIsAlive(es, live, i);
    }
  }

  lemma SubsetOfIds(es: seq<Entry>, es': seq<Entry>)
    requires forall e :: e in es' ==> e in es
    ensures IndexReader.Ids(es') <= IndexReader.Ids(es)
  {
  }

  /** A splice only removes entries. */
  lemma SpliceOnlyRemoves(s: Snapshot, hdrs: seq<Hdr>, mem: Mem, hdrs': seq<Hdr>, mem': Mem)
    requires MovedOn(s, hdrs, mem) && SpliceResult(s, hdrs, mem, hdrs', mem')
    ensures IndexReader.Ids(Entries(s.enc, Views(mem', hdrs'))) <= IndexReader.Ids(Entries(s.enc, Views(mem, hdrs)))
  {
    hide Contents, Filled, Entries, NumDocs, Taken, Remnants, WfBlocks, DeadUpTo, IndexReader.Ids, WfSnapshot;
    var l, l', m := Views(mem, hdrs), Views(mem', hdrs'), Taken(s, hdrs);
    TakenBound(s, hdrs);
    forall e | e in Entries(s.enc, l') ensures e in Entries(s.enc, l) {
      if e in Remnants(s.enc, l[..m], s.live) { RemnantsAreEntries(s.enc, l[..m], s.live, e); }
    }
    SubsetOfIds(Entries(s.enc, l), Entries(s.enc, l'));
  }

  lemma AppliedOnlyRemoves(s: State, t: State)
    requires Inv(s) && ApplyStep(s, t)
    ensures Inv(t) && t.lastId == s.lastId && t.enc == s.enc && IndexReader.Ids(EntriesOf(t)) <= IndexReader.Ids(EntriesOf(s))
  {
    hide Entries, NumDocs, Taken, WfBlocks, NewHdrs, NewMem, DeadUpTo, FixedList, FreshBuffers, IndexReader.Ids, SpliceResult,
      WfSnapshot, Survivors;
    ApplyKeeps(s, t);
    var alloc: nat -> nat, emptyPtr: nat :| ApplyWith(s, t, alloc, emptyPtr);
    SpliceMeaning(s.gc.snap, s.hdrs, s.mem, alloc, emptyPtr);
    SpliceOnlyRemoves(s.gc.snap, s.hdrs, s.mem, t.hdrs, t.mem);
  }

  /** In every reachable state, what taking over a report does is a collection in the sense of the readers' runs. */
  lemma ApplyIsCollection(s: State, t: State)
    requires Inv(s) && ApplyStep(s, t)
    ensures Inv(t)
    ensures var o := ReaderRuns.Outline(s.lastId, IndexReader.Ids(EntriesOf(s)));
            var c := ReaderRuns.Collect(Views(t.mem, t.hdrs));
            ReaderRuns.Legal(s.enc, o, c) && ReaderRuns.After(s.enc, o, c) == ReaderRuns.Outline(t.lastId, IndexReader.Ids(EntriesOf(t)))
  {
    hide Entries, NumDocs, WfBlocks, IndexReader.Ids, ApplyStep, Survivors, ChildCurrent;
    AppliedOnlyRemoves(s, t);
  }
}
