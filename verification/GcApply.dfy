/** Splicing the child's report into the live index. */
module GcApply {
  import opened Bytes
  import opened Blocks
  import opened BlockRepair
  import opened Index
  import opened ForkGc

  /**
   * The live index has only been appended to since the fork: all blocks but the snapshot's last are
   * as they were, that one holds at least what it held, and it is untouched if its count is.
   */
  ghost predicate MovedOn(s: Snapshot, hdrs: seq<Hdr>, mem: Mem) {
    var n := |s.hdrs|;
    && WfSnapshot(s) && n <= |hdrs| && AllBacked(mem, hdrs) && Disjoint(hdrs)
    && WfBlocks(s.enc, Views(mem, hdrs))
    && (forall i :: 0 <= i < n - 1 ==> hdrs[i] == s.hdrs[i] && mem[hdrs[i].ptr] == s.mem[hdrs[i].ptr])
    && Contents(s.enc, View(s.mem, s.hdrs[n - 1])) <= Contents(s.enc, View(mem, hdrs[n - 1]))
    && (hdrs[n - 1].numEntries == s.hdrs[n - 1].numEntries ==>
          hdrs[n - 1] == s.hdrs[n - 1] && mem[hdrs[n - 1].ptr] == s.mem[hdrs[n - 1].ptr])
  }

  /** Buffers the parent allocates for the repaired blocks it receives. */
  ghost predicate FreshBuffers(mem: Mem, fixed: seq<Fixed>, alloc: nat -> nat) {
    && (forall i :: 0 <= i < |fixed| ==> alloc(i) !in mem)
    && (forall i, j :: 0 <= i < j < |fixed| ==> alloc(i) != alloc(j))
  }

  function Received(f: Fixed, ptr: nat): Hdr {
    Hdr(f.blk.firstId, f.blk.lastId, f.blk.numEntries, ptr, |f.data|)
  }

  /** The collector gives the parent's last block precedence: the child left it alone, or the parent wrote to it. */
  ghost predicate KeepsLast(s: Snapshot, hdrs: seq<Hdr>)
    requires WfSnapshot(s) && |s.hdrs| <= |hdrs|
  {
    var n := |s.hdrs|;
    VerdictAt(s, n - 1).Kept? || hdrs[n - 1].numEntries != s.hdrs[n - 1].numEntries
  }

  /** How many blocks of the snapshot are actually replaced by the child's version. */
  ghost function Taken(s: Snapshot, hdrs: seq<Hdr>): nat
    requires WfSnapshot(s) && |s.hdrs| <= |hdrs|
  {
    if KeepsLast(s, hdrs) then |s.hdrs| - 1 else |s.hdrs|
  }

  ghost function FinalHdr(s: Snapshot, alloc: nat -> nat, i: nat): seq<Hdr>
    requires WfSnapshot(s) && i < |s.hdrs|
  {
    var v := VerdictAt(s, i);
    if v.Kept? then [s.hdrs[i]]
    else if v.Removed? then []
    else [Hdr(v.block.firstId, v.block.lastId, v.block.numEntries, alloc(|FixedList(s, i)|), |v.block.data|)]
  }

  lemma {:induction false} FixedMonotone(s: Snapshot, i: nat, j: nat)
    requires WfSnapshot(s) && i <= j <= |s.hdrs|
    ensures FixedList(s, i) <= FixedList(s, j)
    decreases j - i
  {
    hide WfSnapshot, OutFixed, FixedList, OutHdr, OutDeleted, VerdictAt, BlockList, DeletedList, DeadUpTo, GoneUpTo, DeadAt, GoneAt;
    if i < j {
      FixedMonotone(s, i, j - 1);
      ListsStep(s, j - 1);
    }
  }

  /** The headers that take the place of the first m snapshot blocks. */
  ghost function FinalHdrs(s: Snapshot, alloc: nat -> nat, m: nat): seq<Hdr>
    requires WfSnapshot(s) && m <= |s.hdrs|
  {
    if m == 0 then [] else FinalHdrs(s, alloc, m - 1) + FinalHdr(s, alloc, m - 1)
  }

  /** The array after the first k repaired blocks were put in their place. */
  ghost function Overlay(hs: seq<Hdr>, fixed: seq<Fixed>, alloc: nat -> nat, k: nat): (r: seq<Hdr>)
    requires k <= |fixed| && forall i :: 0 <= i < |fixed| ==> fixed[i].newix < |hs|
    ensures |r| == |hs|
  {
    if k == 0 then hs
    else Overlay(hs, fixed, alloc, k - 1)[fixed[k - 1].newix := Received(fixed[k - 1], alloc(k - 1))]
  }

  /** Where the repaired blocks come from and where they go. */
  lemma {:induction false} FixedFacts(s: Snapshot, m: nat)
    requires WfSnapshot(s) && m <= |s.hdrs|
    ensures forall k :: 0 <= k < |FixedList(s, m)| ==>
              var f := FixedList(s, m)[k];
              f.oldix < m && VerdictAt(s, f.oldix).Replaced? && f.newix < |BlockList(s, m)|
  {
    hide WfSnapshot, VerdictAt, FixedList, BlockList, DeletedList, DeadUpTo, GoneUpTo, DeadAt, GoneAt, OutDeleted;
    if m == 0 {
      ListsStart(s);
    } else {
      FixedFacts(s, m - 1);
      ListsStep(s, m - 1);
    }
  }

  lemma {:induction false} DeletedFacts(s: Snapshot, m: nat)
    requires WfSnapshot(s) && m <= |s.hdrs|
    ensures |BlockList(s, m)| + |DeletedList(s, m)| == m
    ensures forall k :: 0 <= k < |DeletedList(s, m)| ==>
              var d := DeletedList(s, m)[k];
              d.oldix < m && VerdictAt(s, d.oldix).Removed? && d.ptr == s.hdrs[d.oldix].ptr
  {
    hide WfSnapshot, VerdictAt, DeletedList, BlockList, FixedList, DeadUpTo, GoneUpTo, DeadAt, GoneAt, OutFixed;
    if m == 0 {
      ListsStart(s);
    } else {
      DeletedFacts(s, m - 1);
      ListsStep(s, m - 1);
    }
  }

  lemma {:induction false} OverlayAppend(hs: seq<Hdr>, more: seq<Hdr>, fixed: seq<Fixed>, alloc: nat -> nat, k: nat)
    requires k <= |fixed| && forall i :: 0 <= i < |fixed| ==> fixed[i].newix < |hs|
    ensures Overlay(hs + more, fixed, alloc, k) == Overlay(hs, fixed, alloc, k) + more
  {
    if k > 0 { OverlayAppend(hs, more, fixed, alloc, k - 1); }
  }

  /** Only the first k records matter. */
  lemma {:induction false} OverlayPrefix(hs: seq<Hdr>, fixed: seq<Fixed>, longer: seq<Fixed>, alloc: nat -> nat, k: nat)
    requires k <= |fixed| && fixed <= longer
    requires forall i :: 0 <= i < |longer| ==> longer[i].newix < |hs|
    ensures Overlay(hs, fixed, alloc, k) == Overlay(hs, longer, alloc, k)
  {
    if k > 0 { OverlayPrefix(hs, fixed, longer, alloc, k - 1); }
  }

  /** The array after all received blocks were put in their place. */
  ghost function Overlaid(hs: seq<Hdr>, fixed: seq<Fixed>, alloc: nat -> nat): (r: seq<Hdr>)
    requires forall i :: 0 <= i < |fixed| ==> fixed[i].newix < |hs|
    ensures |r| == |hs|
  {
    Overlay(hs, fixed, alloc, |fixed|)
  }

  lemma OverlaidNone(hs: seq<Hdr>, alloc: nat -> nat)
    ensures Overlaid(hs, [], alloc) == hs
  {
  }

  lemma OverlaidSnoc(hs: seq<Hdr>, fixed: seq<Fixed>, x: Fixed, alloc: nat -> nat)
    requires x.newix < |hs| && forall i :: 0 <= i < |fixed| ==> fixed[i].newix < |hs|
    ensures Overlaid(hs, fixed + [x], alloc) == Overlaid(hs, fixed, alloc)[x.newix := Received(x, alloc(|fixed|))]
  {
    OverlayPrefix(hs, fixed, fixed + [x], alloc, |fixed|);
  }

  lemma OverlaidAppend(hs: seq<Hdr>, more: seq<Hdr>, fixed: seq<Fixed>, alloc: nat -> nat)
    requires forall i :: 0 <= i < |fixed| ==> fixed[i].newix < |hs|
    ensures Overlaid(hs + more, fixed, alloc) == Overlaid(hs, fixed, alloc) + more
  {
    OverlayAppend(hs, more, fixed, alloc, |fixed|);
  }

  lemma {:induction false} FinalLength(s: Snapshot, alloc: nat -> nat, m: nat)
    requires WfSnapshot(s) && m <= |s.hdrs|
    ensures |FinalHdrs(s, alloc, m)| == |BlockList(s, m)|
  {
    hide WfSnapshot, VerdictAt, FixedList, DeletedList, DeadUpTo, GoneUpTo, DeadAt, GoneAt, OutDeleted, OutFixed;
    if m > 0 {
      FinalLength(s, alloc, m - 1);
      ListsStep(s, m - 1);
    }
  }

  ghost function LastFixed(s: Snapshot, i: nat): Fixed
    requires WfSnapshot(s) && i < |s.hdrs| && VerdictAt(s, i).Replaced?
  {
    Fixed(ChildHdr(s, i), i, |BlockList(s, i)|, VerdictAt(s, i).block.data)
  }

  /** One more block, by its verdict: how the child's lists and the final headers grow. */
  lemma Grow(s: Snapshot, alloc: nat -> nat, i: nat)
    requires WfSnapshot(s) && i < |s.hdrs|
    ensures VerdictAt(s, i).Kept? ==>
              && BlockList(s, i + 1) == BlockList(s, i) + [s.hdrs[i]] && FixedList(s, i + 1) == FixedList(s, i)
              && DeletedList(s, i + 1) == DeletedList(s, i)
              && FinalHdrs(s, alloc, i + 1) == FinalHdrs(s, alloc, i) + [s.hdrs[i]]
    ensures VerdictAt(s, i).Removed? ==>
              && BlockList(s, i + 1) == BlockList(s, i) && FixedList(s, i + 1) == FixedList(s, i)
              && DeletedList(s, i + 1) == DeletedList(s, i) + [Deleted(s.hdrs[i].ptr, i)]
              && FinalHdrs(s, alloc, i + 1) == FinalHdrs(s, alloc, i)
    ensures VerdictAt(s, i).Replaced? ==>
              var f := LastFixed(s, i);
              && BlockList(s, i + 1) == BlockList(s, i) + [f.blk] && FixedList(s, i + 1) == FixedList(s, i) + [f]
              && DeletedList(s, i + 1) == DeletedList(s, i)
              && FinalHdrs(s, alloc, i + 1) == FinalHdrs(s, alloc, i) + [Received(f, alloc(|FixedList(s, i)|))]
  {
    hide WfSnapshot, VerdictAt, FixedList, BlockList, DeletedList, DeadUpTo, GoneUpTo, DeadAt, GoneAt;
    ListsStep(s, i);
  }

  /** Putting the received blocks into the child's list gives the final headers. */
  lemma {:induction false} OverlayBuilds(s: Snapshot, alloc: nat -> nat, m: nat)
    requires WfSnapshot(s) && m <= |s.hdrs|
    ensures forall i :: 0 <= i < |FixedList(s, m)| ==> FixedList(s, m)[i].newix < |BlockList(s, m)|
    ensures Overlaid(BlockList(s, m), FixedList(s, m), alloc) == FinalHdrs(s, alloc, m)
  {
    hide WfSnapshot, VerdictAt, FixedList, BlockList, DeletedList, Overlaid, FinalHdrs;
    FixedFacts(s, m);
    if m == 0 {
      AllStart(s, alloc);
      OverlaidNone(BlockList(s, 0), alloc);
    } else {
      var v, bl, f := VerdictAt(s, m - 1), BlockList(s, m - 1), FixedList(s, m - 1);
      Grow(s, alloc, m - 1);
      OverlayBuilds(s, alloc, m - 1);
      if v.Kept? {
        OverlaidAppend(bl, [s.hdrs[m - 1]], f, alloc);
      } else if v.Replaced? {
        var x := LastFixed(s, m - 1);
        ReplacedAt(bl, f, x, alloc, FinalHdrs(s, alloc, m - 1));
      }
    }
  }

  /** The received block lands on the child's header for it. */
  lemma ReplacedAt(bl: seq<Hdr>, f: seq<Fixed>, x: Fixed, alloc: nat -> nat, final: seq<Hdr>)
    requires x.newix == |bl| && forall i :: 0 <= i < |f| ==> f[i].newix < |bl|
    requires Overlaid(bl, f, alloc) == final
    ensures Overlaid(bl + [x.blk], f + [x], alloc) == final + [Received(x, alloc(|f|))]
  {
    hide Overlaid;
    OverlaidAppend(bl, [x.blk], f, alloc);
    OverlaidSnoc(bl + [x.blk], f, x, alloc);
  }

  lemma AllStart(s: Snapshot, alloc: nat -> nat)
    requires WfSnapshot(s)
    ensures BlockList(s, 0) == [] && FixedList(s, 0) == [] && DeletedList(s, 0) == [] && FinalHdrs(s, alloc, 0) == []
  {
    hide WfSnapshot;
  }

  /** Without deletions the received blocks go straight into the live array. */
  lemma {:induction false} OverlayInPlace(s: Snapshot, hs: seq<Hdr>, alloc: nat -> nat, m: nat)
    requires WfSnapshot(s) && m <= |s.hdrs| && m <= |hs| && DeletedList(s, m) == []
    requires forall i :: 0 <= i < m ==> hs[i] == s.hdrs[i]
    ensures forall i :: 0 <= i < |FixedList(s, m)| ==> FixedList(s, m)[i].newix < |hs|
    ensures Overlaid(hs, FixedList(s, m), alloc) == FinalHdrs(s, alloc, m) + hs[m..]
  {
    hide WfSnapshot, VerdictAt, FixedList, BlockList, DeletedList, Overlaid, FinalHdrs;
    FixedFacts(s, m);
    DeletedFacts(s, m);
    if m == 0 {
      AllStart(s, alloc);
      OverlaidNone(hs, alloc);
    } else {
      var v, f := VerdictAt(s, m - 1), FixedList(s, m - 1);
      Grow(s, alloc, m - 1);
      OverlayInPlace(s, hs, alloc, m - 1);
      DeletedFacts(s, m - 1);
      FinalLength(s, alloc, m - 1);
      if v.Replaced? {
        OverlaidSnoc(hs, f, LastFixed(s, m - 1), alloc);
      }
      assert hs[m - 1..] == [hs[m - 1]] + hs[m..];
    }
  }

  /** The header list after the splice. */
  ghost function SplicedHdrs(s: Snapshot, hdrs: seq<Hdr>, alloc: nat -> nat): seq<Hdr>
    requires WfSnapshot(s) && |s.hdrs| <= |hdrs|
  {
    var m := Taken(s, hdrs);
    FinalHdrs(s, alloc, m) + hdrs[m..]
  }

  /** The parent's look at the last block: its own version wins over a conflicting one of the child. */
  function CheckLastBlock(msg: Message, hdrs: seq<Hdr>): (Message, bool)
    requires 1 <= msg.info.nblocksOrig <= |hdrs|
  {
    var info := msg.info;
    var lastOld := hdrs[info.nblocksOrig - 1];
    if info.lastblkDocsRemoved == 0 || info.lastblkNumEntries == lastOld.numEntries then (msg, false)
    else
      var docs := if info.lastblkDocsRemoved <= info.ndocsCollected then info.ndocsCollected - info.lastblkDocsRemoved else 0;
      if info.lastblkEntriesRemoved == info.lastblkNumEntries then
        var deleted := if msg.deleted == [] then [] else msg.deleted[..|msg.deleted| - 1];
        var list := if msg.blocklist.None? then [] else msg.blocklist.value;
        (Message(info.(ndocsCollected := docs), Some(list + [lastOld]), deleted, msg.fixed), true)
      else
        var fixed := if msg.fixed == [] then [] else msg.fixed[..|msg.fixed| - 1];
        var info' := info.(ndocsCollected := docs, nblocksRepaired := |fixed|);
        if msg.blocklist.Some? && msg.blocklist.value != [] then
          var list := msg.blocklist.value;
          (Message(info', Some(list[|list| - 1 := lastOld]), msg.deleted, fixed), true)
        else
          (Message(info'.(nblocksOrig := info.nblocksOrig - 1), msg.blocklist, msg.deleted, fixed), true)
  }

  /** The empty block an index falls back to when nothing is left. */
  function EmptyHdr(ptr: nat): Hdr { Hdr(0, 0, 0, ptr, 0) }

  /** Every block the child saw is gone and the parent added none: the index gets a new empty block. */
  predicate LeavesNothing(msg: Message, hdrs: seq<Hdr>) {
    msg.blocklist.None? && msg.deleted != [] && |hdrs| == msg.info.nblocksOrig
  }

  /** The array before the received blocks are put in: the child's list and what the parent added, or the old array. */
  function BaseHdrs(msg: Message, hdrs: seq<Hdr>, emptyPtr: nat): seq<Hdr>
    requires msg.info.nblocksOrig <= |hdrs|
  {
    var n := msg.info.nblocksOrig;
    if msg.blocklist.Some? then
      var list := msg.blocklist.value;
      var list' := if msg.info.lastblkDocsRemoved == 0 && list != [] && n > 0 then list[|list| - 1 := hdrs[n - 1]] else list;
      list' + hdrs[n..]
    else if LeavesNothing(msg, hdrs) then [EmptyHdr(emptyPtr)]
    else if msg.deleted != [] then hdrs[n..]
    else hdrs
  }

  /** The array the received blocks are put into: nothing of the snapshot's first m blocks is lost or repeated. */
  ghost predicate GoodBase(s: Snapshot, hdrs: seq<Hdr>, base: seq<Hdr>, m: nat)
    requires WfSnapshot(s) && m <= |s.hdrs| <= |hdrs|
  {
    || base == BlockList(s, m) + hdrs[m..]
    || (base == hdrs && DeletedList(s, m) == [] && forall i :: 0 <= i < m ==> hdrs[i] == s.hdrs[i])
  }

  lemma GoodBaseOverlay(s: Snapshot, hdrs: seq<Hdr>, base: seq<Hdr>, alloc: nat -> nat, m: nat)
    requires WfSnapshot(s) && m <= |s.hdrs| <= |hdrs| && GoodBase(s, hdrs, base, m)
    ensures forall i :: 0 <= i < |FixedList(s, m)| ==> FixedList(s, m)[i].newix < |base|
    ensures Overlaid(base, FixedList(s, m), alloc) == FinalHdrs(s, alloc, m) + hdrs[m..]
  {
    hide WfSnapshot, FixedList, BlockList, DeletedList, Overlaid, FinalHdrs;
    if base == BlockList(s, m) + hdrs[m..] {
      OverlayBuilds(s, alloc, m);
      OverlaidAppend(BlockList(s, m), hdrs[m..], FixedList(s, m), alloc);
    } else {
      OverlayInPlace(s, hdrs, alloc, m);
    }
  }

  /** What the last-block report says about the child's verdict. */
  lemma LastReport(s: Snapshot)
    requires WfSnapshot(s)
    ensures var n := |s.hdrs|;
            var info := ChildMessage(s).info;
            var v := VerdictAt(s, n - 1);
            && info.nblocksOrig == n
            && (info.lastblkDocsRemoved == 0 <==> v.Kept?)
            && (!v.Kept? ==> info.lastblkNumEntries == s.hdrs[n - 1].numEntries)
            && (!v.Kept? ==> (info.lastblkEntriesRemoved == info.lastblkNumEntries <==> v.Removed?))
            && info.ndocsCollected == DeadUpTo(s, n - 1) + info.lastblkDocsRemoved
  {
    hide WfBlocks, Parse, Survivors, DeadDocs, Chain, Encoded, BlockList, FixedList, DeletedList, GoneUpTo;
    var n := |s.hdrs|;
    SnapshotBlock(s, n - 1);
  }

  /**
   * After the parent's look at the last block, the report is about exactly the blocks that are
   * taken over: all of the snapshot's, or all but the last.
   */
  lemma CheckedMessage(s: Snapshot, hdrs: seq<Hdr>)
    requires WfSnapshot(s) && |s.hdrs| <= |hdrs|
    ensures var m := Taken(s, hdrs);
            var (msg, denied) := CheckLastBlock(ChildMessage(s), hdrs);
            && msg.fixed == FixedList(s, m) && msg.deleted == DeletedList(s, m)
            && msg.info.nblocksOrig <= |hdrs| && msg.info.ndocsCollected == DeadUpTo(s, m)
            && (denied <==> !VerdictAt(s, |s.hdrs| - 1).Kept? && m == |s.hdrs| - 1)
  {
    hide WfBlocks, VerdictAt, BlockList, FixedList, DeletedList, DeadUpTo, GoneUpTo, DeadAt, GoneAt, LastFixed;
    var n := |s.hdrs|;
    LastReport(s);
    DeadUpToStep(s, n - 1);
    Grow(s, x => x, n - 1);
  }

  lemma DeadUpToStep(s: Snapshot, i: nat)
    requires WfSnapshot(s) && i < |s.hdrs|
    ensures DeadUpTo(s, i + 1) == DeadUpTo(s, i) + DeadAt(s, i)
    ensures VerdictAt(s, i).Kept? ==> DeadAt(s, i) == 0
  {
    hide WfSnapshot, VerdictAt;
  }

  ghost predicate BaseOk(s: Snapshot, hdrs: seq<Hdr>, emptyPtr: nat)
    requires WfSnapshot(s) && |s.hdrs| <= |hdrs|
  {
    var m := Taken(s, hdrs);
    var msg := CheckLastBlock(ChildMessage(s), hdrs).0;
    && msg.info.nblocksOrig <= |hdrs|
    && var base := BaseHdrs(msg, hdrs, emptyPtr);
       if BlockList(s, m) + hdrs[m..] == [] then LeavesNothing(msg, hdrs)
       else !LeavesNothing(msg, hdrs) && GoodBase(s, hdrs, base, m)
  }

  /** The child left the last block alone: the parent's header replaces the stale one. */
  lemma BaseKept(s: Snapshot, hdrs: seq<Hdr>, emptyPtr: nat)
    requires WfSnapshot(s) && |s.hdrs| <= |hdrs| && VerdictAt(s, |s.hdrs| - 1).Kept?
    requires forall i :: 0 <= i < Taken(s, hdrs) ==> hdrs[i] == s.hdrs[i]
    ensures BaseOk(s, hdrs, emptyPtr)
  {
    hide WfBlocks, VerdictAt, BlockList, FixedList, DeletedList, DeadUpTo, GoneUpTo, DeadAt, GoneAt, LastFixed;
    var n, m := |s.hdrs|, Taken(s, hdrs);
    LastReport(s);
    Grow(s, x => x, n - 1);
    DeletedFacts(s, n);
    DeletedFacts(s, n - 1);
    LastSwap(BlockList(s, m), hdrs, n);
  }

  /** The child emptied a last block the parent wrote to: it is put back as it is now. */
  lemma BaseDeniedDelete(s: Snapshot, hdrs: seq<Hdr>, emptyPtr: nat)
    requires WfSnapshot(s) && |s.hdrs| <= |hdrs| && VerdictAt(s, |s.hdrs| - 1).Removed? && KeepsLast(s, hdrs)
    requires forall i :: 0 <= i < Taken(s, hdrs) ==> hdrs[i] == s.hdrs[i]
    ensures BaseOk(s, hdrs, emptyPtr)
  {
    hide WfBlocks, VerdictAt, BlockList, FixedList, DeletedList, DeadUpTo, GoneUpTo, DeadAt, GoneAt, LastFixed;
    var n, m := |s.hdrs|, Taken(s, hdrs);
    LastReport(s);
    Grow(s, x => x, n - 1);
    DeletedFacts(s, n);
    DeletedFacts(s, n - 1);
    LastSwap(BlockList(s, m), hdrs, n);
  }

  /** The child changed a last block the parent wrote to: the parent's version stays. */
  lemma BaseDeniedChange(s: Snapshot, hdrs: seq<Hdr>, emptyPtr: nat)
    requires WfSnapshot(s) && |s.hdrs| <= |hdrs| && VerdictAt(s, |s.hdrs| - 1).Replaced? && KeepsLast(s, hdrs)
    requires forall i :: 0 <= i < Taken(s, hdrs) ==> hdrs[i] == s.hdrs[i]
    ensures BaseOk(s, hdrs, emptyPtr)
  {
    hide WfBlocks, VerdictAt, BlockList, FixedList, DeletedList, DeadUpTo, GoneUpTo, DeadAt, GoneAt, LastFixed;
    var n, m := |s.hdrs|, Taken(s, hdrs);
    LastReport(s);
    Grow(s, x => x, n - 1);
    DeletedFacts(s, n);
    DeletedFacts(s, n - 1);
    LastSwap(BlockList(s, m), hdrs, n);
  }

  /** Only the child changed the last block: all of its report is taken. */
  lemma BaseTaken(s: Snapshot, hdrs: seq<Hdr>, emptyPtr: nat)
    requires WfSnapshot(s) && |s.hdrs| <= |hdrs| && !KeepsLast(s, hdrs)
    requires forall i :: 0 <= i < Taken(s, hdrs) ==> hdrs[i] == s.hdrs[i]
    ensures BaseOk(s, hdrs, emptyPtr)
  {
    hide WfBlocks, VerdictAt, BlockList, FixedList, DeletedList, DeadUpTo, GoneUpTo, DeadAt, GoneAt, LastFixed;
    var n, m := |s.hdrs|, Taken(s, hdrs);
    LastReport(s);
    Grow(s, x => x, n - 1);
    DeletedFacts(s, n);
    DeletedFacts(s, n - 1);
  }

  /** Every branch of the splice prepares a good array, or the single empty block when nothing is left. */
  lemma BaseIsGood(s: Snapshot, hdrs: seq<Hdr>, emptyPtr: nat)
    requires WfSnapshot(s) && |s.hdrs| <= |hdrs|
    requires forall i :: 0 <= i < Taken(s, hdrs) ==> hdrs[i] == s.hdrs[i]
    ensures BaseOk(s, hdrs, emptyPtr)
  {
    hide WfBlocks, VerdictAt, BaseOk;
    if VerdictAt(s, |s.hdrs| - 1).Kept? {
      BaseKept(s, hdrs, emptyPtr);
    } else if !KeepsLast(s, hdrs) {
      BaseTaken(s, hdrs, emptyPtr);
    } else if VerdictAt(s, |s.hdrs| - 1).Removed? {
      BaseDeniedDelete(s, hdrs, emptyPtr);
    } else {
      BaseDeniedChange(s, hdrs, emptyPtr);
    }
  }

  lemma LastSwap(bl: seq<Hdr>, hdrs: seq<Hdr>, n: nat)
    requires 1 <= n <= |hdrs|
    ensures forall x: Hdr :: (bl + [x])[|bl| := hdrs[n - 1]] + hdrs[n..] == bl + hdrs[n - 1..]
    ensures (bl + [hdrs[n - 1]]) + hdrs[n..] == bl + hdrs[n - 1..]
  {
  }
}
