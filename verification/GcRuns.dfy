/**
 * Whole runs of the collector: documents come and go, entries are appended, the collector forks and
 * applies, in any order.
 */
module GcRuns {
  import opened RecordCodec
  import opened Blocks
  import opened BlockRepair
  import opened Index
  import IndexReader
  import opened ForkGc
  import opened GcApply
  import opened GcMemory
  import opened GcMeaning
  import opened GcParent

  lemma {:induction false} DeadUpToIsDeadIn(s: Snapshot, m: nat)
    requires WfSnapshot(s) && m <= |s.hdrs| && AllWf(s.enc, Views(s.mem, s.hdrs))
    ensures DeadUpTo(s, m) == DeadIn(s.enc, Views(s.mem, s.hdrs)[..m], s.live)
  {
    hide WfBlocks, WellFormed, Verdict, DeadDocs, Contents;
    if m > 0 {
      DeadUpToIsDeadIn(s, m - 1);
      assert Views(s.mem, s.hdrs)[..m][..m - 1] == Views(s.mem, s.hdrs)[..m - 1];
    }
  }

  /** What is taken over consists of ordered blocks that the live index still has, unchanged. */
  lemma TakenBlocks(s: Snapshot, hdrs: seq<Hdr>, mem: Mem)
    requires MovedOn(s, hdrs, mem)
    ensures var m := Taken(s, hdrs);
            && Views(s.mem, s.hdrs)[..m] == Views(mem, hdrs)[..m]
            && (m > 0 ==> Ordered(s.enc, Views(s.mem, s.hdrs)) && Ordered(s.enc, Views(mem, hdrs)))
  {
    hide WfBlocks, VerdictAt, Contents, Ordered;
    var m := Taken(s, hdrs);
    TakenAgrees(s, hdrs, mem);
    var b, l := Views(s.mem, s.hdrs), Views(mem, hdrs);
    assert forall i :: 0 <= i < m ==> b[i] == l[i];
    if m > 0 {
      assert Views(s.mem, s.hdrs)[..m][0] == b[0] && l[..m][0] == l[0];
      NotEmpty(s, hdrs, mem);
    }
  }

  /** An index whose snapshot is the single empty block has nothing to take over. */
  lemma NotEmpty(s: Snapshot, hdrs: seq<Hdr>, mem: Mem)
    requires MovedOn(s, hdrs, mem) && Taken(s, hdrs) > 0
    ensures Ordered(s.enc, Views(s.mem, s.hdrs)) && Ordered(s.enc, Views(mem, hdrs))
  {
    hide WellFormed, Verdict, Contents, Filled;
    var b, l := Views(s.mem, s.hdrs), Views(mem, hdrs);
    EmptyIsNotFilled(s.enc);
    if b == [EMPTY_BLOCK] {
      EmptyIsKept(s);
    }
    TakenAgrees(s, hdrs, mem);
    assert b[0] == l[0];
  }

  lemma EmptyIsKept(s: Snapshot)
    requires WfSnapshot(s) && Views(s.mem, s.hdrs) == [EMPTY_BLOCK]
    ensures |s.hdrs| == 1 && VerdictAt(s, 0).Kept?
  {
    hide WfBlocks;
    EmptyIsNotFilled(s.enc);
    assert View(s.mem, s.hdrs[0]) == Views(s.mem, s.hdrs)[0];
  }

  /** The index a splice leaves is well-formed, and we know its entries and its document count. */
  ghost predicate SpliceResult(s: Snapshot, hdrs: seq<Hdr>, mem: Mem, hdrs': seq<Hdr>, mem': Mem)
    requires MovedOn(s, hdrs, mem)
  {
    var m, l := Taken(s, hdrs), Views(mem, hdrs);
    && hdrs' != [] && AllBacked(mem', hdrs') && Disjoint(hdrs') && WfBlocks(s.enc, Views(mem', hdrs'))
    && Views(s.mem, s.hdrs)[..m] == l[..m]
    && var l' := Views(mem', hdrs');
       && Entries(s.enc, l') == Remnants(s.enc, l[..m], s.live) + Entries(s.enc, l[m..])
       && Entries(s.enc, l) == Entries(s.enc, l[..m]) + Entries(s.enc, l[m..])
       && NumDocs(s.enc, l') + DeadUpTo(s, m) == NumDocs(s.enc, l)
       && l'[|l'| - 1].lastId <= l[|l| - 1].lastId
  }

  /** Collect the first m blocks of a list: the entries and the document count of the result. */
  lemma CollectPrefix(enc: Encoding, l: seq<Block>, m: nat, live: set<nat>)
    requires m <= |l| && AllWf(enc, l[..m])
    ensures var l' := Outs(enc, l[..m], live) + l[m..];
            && Entries(enc, l') == Remnants(enc, l[..m], live) + Entries(enc, l[m..])
            && Entries(enc, l) == Entries(enc, l[..m]) + Entries(enc, l[m..])
            && NumDocs(enc, l') + DeadIn(enc, l[..m], live) == NumDocs(enc, l)
  {
    hide WellFormed, Outs, Remnants, Entries, NumDocs, DeadIn;
    assert l == l[..m] + l[m..];
    EntriesConcat(enc, l[..m], l[m..]);
    OutsEntries(enc, l[..m], live);
    OutsNumDocs(enc, l[..m], live);
    EntriesConcat(enc, Outs(enc, l[..m], live), l[m..]);
  }

  lemma CollectShape(enc: Encoding, l: seq<Block>, m: nat, live: set<nat>)
    requires WfBlocks(enc, l) && m <= |l| && AllWf(enc, l[..m]) && (m > 0 ==> Ordered(enc, l))
    ensures var l' := Outs(enc, l[..m], live) + l[m..];
            l' != [] ==> WfBlocks(enc, l') && l'[|l'| - 1].lastId <= l[|l| - 1].lastId
  {
    hide WellFormed, Outs, Ordered;
    if m == 0 {
      OutsNil(enc, live);
      assert l[..0] == [] && [] + l[0..] == l;
    } else {
      OutsTail(enc, l, m, live);
    }
  }

  lemma OutsTail(enc: Encoding, l: seq<Block>, m: nat, live: set<nat>)
    requires Ordered(enc, l) && 0 < m <= |l| && AllWf(enc, l[..m])
    ensures var l' := Outs(enc, l[..m], live) + l[m..];
            Ordered(enc, l') && (l' != [] ==> l'[|l'| - 1].lastId <= l[|l| - 1].lastId)
  {
    hide WellFormed, Outs, Filled;
    var outs := Outs(enc, l[..m], live);
    OutsOrdered(enc, l[..m], live);
    OrderedConcat(enc, outs, l[m..]);
    if m < |l| {
      IndexReader.BlockOrder(enc, l, m - 1, m);
    }
  }

  /** What a splice does to the index as a list of entries. */
  lemma SpliceMeaning(s: Snapshot, hdrs: seq<Hdr>, mem: Mem, alloc: nat -> nat, emptyPtr: nat)
    requires MovedOn(s, hdrs, mem) && FreshBuffers(mem, FixedList(s, Taken(s, hdrs)), alloc)
    requires emptyPtr !in mem
    ensures SpliceResult(s, hdrs, mem, NewHdrs(s, hdrs, alloc, emptyPtr), NewMem(s, hdrs, mem, alloc, emptyPtr))
  {
    hide WellFormed, VerdictAt, Contents, Outs, Filled, Taken, Remnants, DeadUpTo, Entries, NumDocs, FixedList,
      WfBlocks, SplicedHdrs, Spliced, FreshBuffers, DeadIn, Ordered;
    var m, b, l := Taken(s, hdrs), Views(s.mem, s.hdrs), Views(mem, hdrs);
    AllWellFormed(s);
    TakenBound(s, hdrs);
    TakenBlocks(s, hdrs, mem);
    DeadUpToIsDeadIn(s, m);
    SplicedViews(s, hdrs, mem, alloc);
    SplicedOwnership(s, hdrs, mem, alloc);
    CollectPrefix(s.enc, l, m, s.live);
    CollectShape(s.enc, l, m, s.live);
    if SplicedHdrs(s, hdrs, alloc) == [] {
      EmptyIndex(s.enc, NewMem(s, hdrs, mem, alloc, emptyPtr), emptyPtr);
    }
  }

  lemma EmptyIndex(enc: Encoding, mem: Mem, ptr: nat)
    requires ptr in mem && mem[ptr] == []
    ensures var hs := [EmptyHdr(ptr)];
            && AllBacked(mem, hs) && Disjoint(hs) && Views(mem, hs) == [EMPTY_BLOCK]
            && WfBlocks(enc, Views(mem, hs)) && Entries(enc, Views(mem, hs)) == Entries(enc, [])
            && NumDocs(enc, Views(mem, hs)) == NumDocs(enc, [])
  {
    EmptyIsNotFilled(enc);
    OneBlock(enc, EMPTY_BLOCK);
  }
}
