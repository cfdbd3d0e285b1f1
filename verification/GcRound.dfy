/** A whole round for one term: repaired in the child, sent through the pipe, read, and spliced into the live index. */
module GcRound {
  import opened Bytes
  import opened ForkGc
  import opened GcApply
  import opened GcMemory
  import opened GcParent
  import opened GcReport
  import opened GcRuns
  import GcSend
  import Index
  import GcWire

  lemma FewerBuffers(s: Snapshot, m: nat, mem: Mem, alloc: nat -> nat)
    requires WfSnapshot(s) && m <= |s.hdrs| && FreshBuffers(mem, FixedList(s, |s.hdrs|), alloc)
    ensures FreshBuffers(mem, FixedList(s, m), alloc)
  {
    hide WfSnapshot, FixedList;
    FixedMonotone(s, m, |s.hdrs|);
  }

  /** A child that reports nothing found nothing to change. */
  lemma {:induction false} NothingFound(s: Snapshot, m: nat, i: nat)
    requires WfSnapshot(s) && i < m <= |s.hdrs| && FixedList(s, m) == [] && DeletedList(s, m) == []
    ensures VerdictAt(s, i).Kept?
  {
    hide WfSnapshot, VerdictAt, FixedList, DeletedList, BlockList, DeadUpTo, GoneUpTo, DeadAt, GoneAt;
    ListsStep(s, m - 1);
    assert OutDeleted(s, m - 1) == [] && OutFixed(s, m - 1, |BlockList(s, m - 1)|) == [];
    if i < m - 1 { NothingFound(s, m - 1, i); }
  }

  /** Send one report through the pipe. */
  method SendReport(name: seq<byte>, msg: Message, x: Extra) returns (got: Message)
    requires |name| < GcWire.SIZE_MAX && Fits(msg, x)
    requires (msg.blocklist.Some? ==> msg.blocklist.value != []) && msg.info.nblocksRepaired == |msg.fixed|
    ensures got == msg
  {
    hide ToWire, FromWire, Fits, GcWire.WfInvIdx;
    ReportRoundTrip(msg, x);
    var wire := ToWire(msg, x);
    var found := GcSend.FoundTerm(name, Some(wire));
    assert GcSend.Terms([found][1..]) == [];
    assert GcSend.Terms([found]) == [GcWire.Term(name, wire)];
    var stream := GcSend.Transfer([found], [], []);
    got := FromWire(stream.terms[0].index);
  }

  /**
   * The child works on its copy, the parent on an index that was appended to meanwhile. If there was
   * anything to collect, the parent ends up with the index that SpliceResult describes.
   */
  method CollectTerm(idx: LiveIndex, s: Snapshot, name: seq<byte>, x: Extra, alloc: nat -> nat, emptyPtr: nat, total: int)
    returns (changed: bool, total': int)
    requires MovedOn(s, idx.hdrs, idx.mem) && |name| < GcWire.SIZE_MAX && Fits(ChildMessage(s), x)
    requires FreshBuffers(idx.mem, FixedList(s, |s.hdrs|), alloc) && emptyPtr !in idx.mem
    modifies idx
    ensures !changed ==> unchanged(idx) && total' == total && forall i :: 0 <= i < |s.hdrs| ==> VerdictAt(s, i).Kept?
    ensures changed ==>
              && SpliceResult(s, old(idx.hdrs), old(idx.mem), idx.hdrs, idx.mem)
              && idx.numDocs == old(idx.numDocs) - DeadUpTo(s, Taken(s, old(idx.hdrs)))
              && idx.gcMarker == old(idx.gcMarker) + 1 && total' - total == |idx.hdrs| - |old(idx.hdrs)|
  {
    hide Index.WfBlocks, VerdictAt, BlockList, DeletedList, FixedList, DeadUpTo, GoneUpTo, DeadAt, GoneAt, SpliceResult, Fits,
      NewHdrs, NewMem, Taken, FreshBuffers, AllBacked, Disjoint, KeepsLast;
    var msg;
    changed, msg := ChildRepair(s);
    total' := total;
    if !changed {
      forall i | 0 <= i < |s.hdrs| ensures VerdictAt(s, i).Kept? { NothingFound(s, |s.hdrs|, i); }
      return;
    }
    var got := SendReport(name, msg, x);
    TakenBound(s, idx.hdrs);
    FewerBuffers(s, Taken(s, idx.hdrs), idx.mem, alloc);
    SpliceMeaning(s, idx.hdrs, idx.mem, alloc, emptyPtr);
    var denied;
    denied, total' := idx.Apply(s, got, alloc, emptyPtr, total);
  }
}
