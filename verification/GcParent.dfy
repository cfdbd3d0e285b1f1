/** The parent's side of the collector: receive the report and splice it into the live index. */
module GcParent {
  import opened Blocks
  import opened Index
  import opened ForkGc
  import opened GcApply
  import opened GcMemory

  /** The headers a splice leaves; an index never becomes blockless. */
  ghost function NewHdrs(s: Snapshot, hdrs: seq<Hdr>, alloc: nat -> nat, emptyPtr: nat): seq<Hdr>
    requires WfSnapshot(s) && |s.hdrs| <= |hdrs|
  {
    var r := SplicedHdrs(s, hdrs, alloc);
    if r == [] then [EmptyHdr(emptyPtr)] else r
  }

  ghost function NewMem(s: Snapshot, hdrs: seq<Hdr>, mem: Mem, alloc: nat -> nat, emptyPtr: nat): Mem
    requires MovedOn(s, hdrs, mem)
  {
    var r := Spliced(s, hdrs, mem, alloc);
    if SplicedHdrs(s, hdrs, alloc) == [] then r[emptyPtr := []] else r
  }

  /** The splice leaves nothing of the old array and the snapshot: only then is an empty block added. */
  lemma NothingLeft(s: Snapshot, hdrs: seq<Hdr>, alloc: nat -> nat)
    requires WfSnapshot(s) && |s.hdrs| <= |hdrs|
    ensures var m := Taken(s, hdrs);
            SplicedHdrs(s, hdrs, alloc) == [] <==> BlockList(s, m) + hdrs[m..] == []
  {
    hide WfSnapshot, VerdictAt, BlockList, FinalHdrs;
    TakenBound(s, hdrs);
    FinalLength(s, alloc, Taken(s, hdrs));
  }

  /** Freeing the buffer of a refused block is as if it had not been received. */
  lemma {:induction false} Unreceive(mem: Mem, fixed: seq<Fixed>, longer: seq<Fixed>, alloc: nat -> nat, k: nat)
    requires k <= |fixed| && fixed <= longer
    ensures Receive(mem, fixed, alloc, k) == Receive(mem, longer, alloc, k)
  {
    if k > 0 { Unreceive(mem, fixed, longer, alloc, k - 1); }
  }

  lemma RefuseLast(mem: Mem, fixed: seq<Fixed>, alloc: nat -> nat)
    requires fixed != [] && FreshBuffers(mem, fixed, alloc)
    ensures var k := |fixed| - 1;
            Receive(mem, fixed, alloc, |fixed|) - {alloc(k)} == Receive(mem, fixed[..k], alloc, k)
  {
    hide Receive;
    var k := |fixed| - 1;
    Unreceive(mem, fixed[..k], fixed, alloc, k);
    ReceiveStep(mem, fixed, alloc, |fixed|);
    ReceiveFacts(mem, fixed, alloc, k);
    assert alloc(k) !in Buffers(alloc, k);
  }

  lemma {:induction false} FixedFew(s: Snapshot, m: nat)
    requires WfSnapshot(s) && m <= |s.hdrs|
    ensures |FixedList(s, m)| <= |BlockList(s, m)|
  {
    hide WfSnapshot, VerdictAt, BlockList, FixedList, DeletedList, FinalHdrs, LastFixed;
    if m == 0 {
      AllStart(s, x => x);
    } else {
      FixedFew(s, m - 1);
      Grow(s, x => x, m - 1);
    }
  }

  /** The report as the parent will use it, and the array it leads to. */
  ghost predicate Planned(s: Snapshot, hdrs: seq<Hdr>, alloc: nat -> nat, emptyPtr: nat)
    requires WfSnapshot(s) && |s.hdrs| <= |hdrs|
  {
    var m, all := Taken(s, hdrs), ChildMessage(s).fixed;
    var (msg, denied) := CheckLastBlock(ChildMessage(s), hdrs);
    && m <= |s.hdrs| && msg.fixed == FixedList(s, m) && msg.deleted == DeletedList(s, m)
    && (msg.fixed == all || (all != [] && msg.fixed == all[..|all| - 1]))
    && msg.info.nblocksOrig <= |hdrs| && msg.info.ndocsCollected == DeadUpTo(s, m)
    && (denied <==> KeepsLast(s, hdrs) && !VerdictAt(s, |s.hdrs| - 1).Kept?)
    && (LeavesNothing(msg, hdrs) <==> SplicedHdrs(s, hdrs, alloc) == [])
    && (forall i :: 0 <= i < |msg.fixed| ==> msg.fixed[i].oldix < |hdrs|)
    && var base := BaseHdrs(msg, hdrs, emptyPtr);
       && (forall i :: 0 <= i < |msg.fixed| ==> msg.fixed[i].newix < |base|)
       && Overlaid(base, msg.fixed, alloc) == NewHdrs(s, hdrs, alloc, emptyPtr)
       && |base| == |hdrs| - |msg.deleted| + if LeavesNothing(msg, hdrs) then 1 else 0
  }

  /** What the parent does with the list part of the report. */
  lemma Plan(s: Snapshot, hdrs: seq<Hdr>, alloc: nat -> nat, emptyPtr: nat)
    requires WfSnapshot(s) && |s.hdrs| <= |hdrs|
    requires forall i :: 0 <= i < Taken(s, hdrs) ==> hdrs[i] == s.hdrs[i]
    ensures Planned(s, hdrs, alloc, emptyPtr)
  {
    hide WfBlocks, VerdictAt, BlockList, FixedList, DeletedList, DeadUpTo, GoneUpTo, DeadAt, GoneAt,
      FinalHdrs, Overlaid, CheckLastBlock, SplicedHdrs, LastFixed;
    TakenBound(s, hdrs);
    var n, m := |s.hdrs|, Taken(s, hdrs);
    CheckedMessage(s, hdrs);
    BaseIsGood(s, hdrs, emptyPtr);
    NothingLeft(s, hdrs, alloc);
    FixedFacts(s, m);
    FixedFew(s, m);
    DeletedFacts(s, m);
    Grow(s, alloc, n - 1);
    var msg := CheckLastBlock(ChildMessage(s), hdrs).0;
    if SplicedHdrs(s, hdrs, alloc) == [] {
      OverlaidNone(BaseHdrs(msg, hdrs, emptyPtr), alloc);
    } else {
      GoodBaseOverlay(s, hdrs, BaseHdrs(msg, hdrs, emptyPtr), alloc, m);
      SplicedIs(s, hdrs, alloc);
    }
  }

  lemma SplicedIs(s: Snapshot, hdrs: seq<Hdr>, alloc: nat -> nat)
    requires WfSnapshot(s) && |s.hdrs| <= |hdrs|
    ensures var m := Taken(s, hdrs); SplicedHdrs(s, hdrs, alloc) == FinalHdrs(s, alloc, m) + hdrs[m..]
  {
    hide WfSnapshot, FinalHdrs, Taken;
  }

  lemma TakenAsSent(s: Snapshot, hdrs: seq<Hdr>, mem: Mem)
    requires MovedOn(s, hdrs, mem)
    ensures WfSnapshot(s) && 1 <= |s.hdrs| <= |hdrs|
    ensures forall i :: 0 <= i < Taken(s, hdrs) ==> hdrs[i] == s.hdrs[i]
  {
    hide Taken, WfBlocks, AllBacked, Disjoint, Contents;
    TakenAgrees(s, hdrs, mem);
  }

  /** Deleting from the memory one pointer after the other. */
  lemma FreeStep(hdrs: seq<Hdr>, fixed: seq<Fixed>, r: Mem, i: nat)
    requires i < |fixed| && forall j :: 0 <= j < |fixed| ==> fixed[j].oldix < |hdrs|
    ensures r - FixedPtrs(hdrs, fixed, i) - {hdrs[fixed[i].oldix].ptr} == r - FixedPtrs(hdrs, fixed, i + 1)
  {
    assert FixedPtrs(hdrs, fixed, i + 1) == FixedPtrs(hdrs, fixed, i) + {hdrs[fixed[i].oldix].ptr};
  }

  lemma FreeDeletedStep(deleted: seq<Deleted>, r: Mem, i: nat)
    requires i < |deleted|
    ensures r - DeletedPtrs(deleted, i) - {deleted[i].ptr} == r - DeletedPtrs(deleted, i + 1)
  {
    assert DeletedPtrs(deleted, i + 1) == DeletedPtrs(deleted, i) + {deleted[i].ptr};
  }

  class LiveIndex {
    var hdrs: seq<Hdr>
    var mem: Mem
    var numDocs: int
    var gcMarker: nat

    /** Allocate and fill a buffer for every repaired block in the report. */
    method ReceiveAll(fixed: seq<Fixed>, alloc: nat -> nat)
      modifies this`mem
      ensures mem == Receive(old(mem), fixed, alloc, |fixed|)
    {
      hide Receive;
      ReceiveNone(mem, fixed, alloc);
      for k := 0 to |fixed|
        invariant mem == Receive(old(mem), fixed, alloc, k)
      {
        mem := mem[alloc(k) := fixed[k].data];
        ReceiveStep(old(mem), fixed, alloc, k + 1);
      }
    }

    /** Free the old buffers of the repaired blocks and the buffers of the deleted ones. */
    method FreeOld(fixed: seq<Fixed>, deleted: seq<Deleted>)
      requires forall i :: 0 <= i < |fixed| ==> fixed[i].oldix < |hdrs|
      modifies this`mem
      ensures mem == old(mem) - FixedPtrs(hdrs, fixed, |fixed|) - DeletedPtrs(deleted, |deleted|)
    {
      assert FixedPtrs(hdrs, fixed, 0) == {} && DeletedPtrs(deleted, 0) == {};
      for i := 0 to |fixed|
        invariant mem == old(mem) - FixedPtrs(hdrs, fixed, i)
      {
        FreeStep(hdrs, fixed, old(mem), i);
        mem := mem - {hdrs[fixed[i].oldix].ptr};
      }
      ghost var r := mem;
      for i := 0 to |deleted|
        invariant mem == r - DeletedPtrs(deleted, i)
      {
        FreeDeletedStep(deleted, r, i);
        mem := mem - {deleted[i].ptr};
      }
    }

    /** Put the received blocks into the array. */
    method PutReceived(fixed: seq<Fixed>, alloc: nat -> nat)
      requires forall i :: 0 <= i < |fixed| ==> fixed[i].newix < |hdrs|
      modifies this`hdrs
      ensures hdrs == Overlaid(old(hdrs), fixed, alloc)
    {
      for i := 0 to |fixed|
        invariant hdrs == Overlay(old(hdrs), fixed, alloc, i)
      {
        hdrs := hdrs[fixed[i].newix := Received(fixed[i], alloc(i))];
      }
    }

    /**
     * Take over the child's report. `denied` tells that the last block was kept although the child
     * had changed it; `total` is the global block count.
     */
    method Apply(ghost s: Snapshot, report: Message, alloc: nat -> nat, emptyPtr: nat, total: int)
      returns (denied: bool, total': int)
      requires MovedOn(s, hdrs, mem) && report == ChildMessage(s)
      requires FreshBuffers(mem, report.fixed, alloc)
      modifies this
      ensures hdrs == NewHdrs(s, old(hdrs), alloc, emptyPtr)
      ensures mem == NewMem(s, old(hdrs), old(mem), alloc, emptyPtr)
      ensures numDocs == old(numDocs) - DeadUpTo(s, Taken(s, old(hdrs)))
      ensures gcMarker == old(gcMarker) + 1
      ensures total' - total == |hdrs| - |old(hdrs)|
      ensures denied <==> KeepsLast(s, old(hdrs)) && !VerdictAt(s, |s.hdrs| - 1).Kept?
    {
      hide WfBlocks, VerdictAt, BlockList, FixedList, DeletedList, DeadUpTo, GoneUpTo, DeadAt, GoneAt, BaseHdrs,
        FinalHdrs, Overlaid, FreshBuffers, SplicedHdrs, Receive, FixedPtrs, DeletedPtrs, Contents, Disjoint, AllBacked,
        CheckLastBlock, LeavesNothing, KeepsLast, MovedOn, WfSnapshot;
      ghost var hdrs0, mem0 := hdrs, mem;
      TakenAsSent(s, hdrs0, mem0);
      Plan(s, hdrs0, alloc, emptyPtr);
      ReceiveAll(report.fixed, alloc);
      var (msg, refused) := CheckLastBlock(report, hdrs);
      denied := refused;
      if |msg.fixed| < |report.fixed| {
        RefuseLast(mem0, report.fixed, alloc);
        mem := mem - {alloc(|report.fixed| - 1)};
      }
      FreeOld(msg.fixed, msg.deleted);
      total' := total - |msg.deleted|;
      if LeavesNothing(msg, hdrs) {
        mem := mem[emptyPtr := []];
        total' := total' + 1;
      }
      hdrs := BaseHdrs(msg, hdrs, emptyPtr);
      PutReceived(msg.fixed, alloc);
      numDocs := numDocs - msg.info.ndocsCollected;
      gcMarker := gcMarker + 1;
    }
  }
}
