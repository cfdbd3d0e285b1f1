/** Which buffers a splice frees and keeps: every header of the new array points at its own, intact buffer. */
module GcMemory {
  import opened RecordCodec
  import opened Blocks
  import opened Index
  import opened ForkGc
  import opened GcApply

  ghost function Ptrs(hs: seq<Hdr>): set<nat> {
    set i | 0 <= i < |hs| :: hs[i].ptr
  }

  /** The memory once the first k repaired blocks have been received. */
  ghost function Receive(mem: Mem, fixed: seq<Fixed>, alloc: nat -> nat, k: nat): Mem
    requires k <= |fixed|
  {
    if k == 0 then mem else Receive(mem, fixed, alloc, k - 1)[alloc(k - 1) := fixed[k - 1].data]
  }

  ghost function Buffers(alloc: nat -> nat, n: nat): set<nat> {
    set k | 0 <= k < n :: alloc(k)
  }

  lemma {:induction false} ReceiveFacts(mem: Mem, fixed: seq<Fixed>, alloc: nat -> nat, k: nat)
    requires k <= |fixed| && FreshBuffers(mem, fixed, alloc)
    ensures var r := Receive(mem, fixed, alloc, k);
            && r.Keys == mem.Keys + Buffers(alloc, k)
            && (forall p :: p in mem ==> r[p] == mem[p])
            && (forall j :: 0 <= j < k ==> alloc(j) in r && r[alloc(j)] == fixed[j].data)
  {
    hide Receive, Buffers;
    if k == 0 {
      ReceiveNone(mem, fixed, alloc);
    } else {
      ReceiveFacts(mem, fixed, alloc, k - 1);
      ReceiveStep(mem, fixed, alloc, k);
    }
  }

  lemma ReceiveNone(mem: Mem, fixed: seq<Fixed>, alloc: nat -> nat)
    ensures Receive(mem, fixed, alloc, 0) == mem && Buffers(alloc, 0) == {}
  {
  }

  lemma ReceiveStep(mem: Mem, fixed: seq<Fixed>, alloc: nat -> nat, k: nat)
    requires 0 < k <= |fixed|
    ensures Receive(mem, fixed, alloc, k) == Receive(mem, fixed, alloc, k - 1)[alloc(k - 1) := fixed[k - 1].data]
    ensures Buffers(alloc, k) == Buffers(alloc, k - 1) + {alloc(k - 1)}
  {
  }

  /** Old buffers of the blocks that were repaired. */
  ghost function FixedPtrs(hdrs: seq<Hdr>, fixed: seq<Fixed>, k: nat): set<nat>
    requires k <= |fixed| && forall i :: 0 <= i < |fixed| ==> fixed[i].oldix < |hdrs|
  {
    set i | 0 <= i < k :: hdrs[fixed[i].oldix].ptr
  }

  ghost function DeletedPtrs(deleted: seq<Deleted>, k: nat): set<nat>
    requires k <= |deleted|
  {
    set i | 0 <= i < k :: deleted[i].ptr
  }

  /** The memory after the splice. */
  ghost function MemAfter(mem: Mem, hdrs: seq<Hdr>, fixed: seq<Fixed>, deleted: seq<Deleted>, alloc: nat -> nat): Mem
    requires forall i :: 0 <= i < |fixed| ==> fixed[i].oldix < |hdrs|
  {
    Receive(mem, fixed, alloc, |fixed|) - FixedPtrs(hdrs, fixed, |fixed|) - DeletedPtrs(deleted, |deleted|)
  }

  /** The memory holds, for each of the first m blocks, the buffer its final header points at. */
  ghost predicate Holds(s: Snapshot, alloc: nat -> nat, mem: Mem, m: nat)
    requires WfSnapshot(s) && m <= |s.hdrs|
  {
    forall i :: 0 <= i < m ==> HoldsAt(s, alloc, mem, i)
  }

  ghost predicate HoldsAt(s: Snapshot, alloc: nat -> nat, mem: Mem, i: nat)
    requires WfSnapshot(s) && i < |s.hdrs|
  {
    var v := VerdictAt(s, i);
    && (v.Kept? ==> Backed(mem, s.hdrs[i]) && View(mem, s.hdrs[i]) == View(s.mem, s.hdrs[i]))
    && (v.Replaced? ==> alloc(|FixedList(s, i)|) in mem && mem[alloc(|FixedList(s, i)|)] == v.block.data)
  }

  lemma OutsStep(enc: Encoding, bs: seq<Block>, live: set<nat>, i: nat)
    requires i < |bs| && forall j :: 0 <= j < |bs| ==> WellFormed(enc, bs[j])
    ensures Outs(enc, bs[..i + 1], live) == Outs(enc, bs[..i], live)
              + match Verdict(enc, bs[i], live)
                case Kept => [bs[i]]
                case Removed => []
                case Replaced(b) => [b]
  {
    hide WellFormed, Verdict;
    assert bs[..i + 1][..i] == bs[..i];
  }

  lemma AllWellFormed(s: Snapshot)
    requires WfSnapshot(s)
    ensures forall i :: 0 <= i < |s.hdrs| ==> WellFormed(s.enc, Views(s.mem, s.hdrs)[i])
  {
    hide WellFormed, WfBlocks;
    forall i | 0 <= i < |s.hdrs| ensures WellFormed(s.enc, Views(s.mem, s.hdrs)[i]) { SnapshotBlock(s, i); }
  }

  lemma ViewsSnoc(mem: Mem, hs: seq<Hdr>, h: Hdr)
    requires AllBacked(mem, hs) && Backed(mem, h)
    ensures AllBacked(mem, hs + [h]) && Views(mem, hs + [h]) == Views(mem, hs) + [View(mem, h)]
  {
  }

  /** The final headers stand for exactly the collected blocks. */
  lemma {:induction false} FinalViews(s: Snapshot, alloc: nat -> nat, mem: Mem, m: nat)
    requires WfSnapshot(s) && m <= |s.hdrs| && Holds(s, alloc, mem, m)
    requires forall i :: 0 <= i < |s.hdrs| ==> WellFormed(s.enc, Views(s.mem, s.hdrs)[i])
    ensures AllBacked(mem, FinalHdrs(s, alloc, m))
    ensures Views(mem, FinalHdrs(s, alloc, m)) == Outs(s.enc, Views(s.mem, s.hdrs)[..m], s.live)
  {
    hide WfBlocks, WellFormed, Verdict, Outs, FinalHdrs, FixedList, BlockList, DeletedList;
    var bs := Views(s.mem, s.hdrs);
    if m == 0 {
      AllStart(s, alloc);
      OutsNone(s.enc, s.live);
      assert bs[..0] == [];
    } else {
      var v := VerdictAt(s, m - 1);
      assert Holds(s, alloc, mem, m - 1) && HoldsAt(s, alloc, mem, m - 1);
      FinalViews(s, alloc, mem, m - 1);
      Grow(s, alloc, m - 1);
      OutsStep(s.enc, bs, s.live, m - 1);
      var f := FinalHdrs(s, alloc, m - 1);
      if v.Kept? {
        ViewsSnoc(mem, f, s.hdrs[m - 1]);
      } else if v.Replaced? {
        ViewsSnoc(mem, f, Received(LastFixed(s, m - 1), alloc(|FixedList(s, m - 1)|)));
      }
    }
  }

  lemma OutsNone(enc: Encoding, live: set<nat>)
    ensures Outs(enc, [], live) == []
  {
  }

  /** The parent's array agrees with the snapshot on every block that is taken over. */
  lemma TakenAgrees(s: Snapshot, hdrs: seq<Hdr>, mem: Mem)
    requires MovedOn(s, hdrs, mem)
    ensures forall i :: 0 <= i < Taken(s, hdrs) ==>
              hdrs[i] == s.hdrs[i] && hdrs[i].ptr in s.mem && mem[hdrs[i].ptr] == s.mem[hdrs[i].ptr]
  {
    hide WfBlocks, VerdictAt, Contents;
  }

  /** No kept or untaken block loses its buffer. */
  lemma NotFreed(s: Snapshot, hdrs: seq<Hdr>, mem: Mem, i: nat)
    requires MovedOn(s, hdrs, mem) && i < |hdrs|
    requires i < Taken(s, hdrs) ==> VerdictAt(s, i).Kept?
    ensures var m := Taken(s, hdrs);
            && (forall k :: 0 <= k < |FixedList(s, m)| ==> FixedList(s, m)[k].oldix < |hdrs|)
            && hdrs[i].ptr !in FixedPtrs(hdrs, FixedList(s, m), |FixedList(s, m)|)
            && hdrs[i].ptr !in DeletedPtrs(DeletedList(s, m), |DeletedList(s, m)|)
  {
    hide WfBlocks, VerdictAt, FixedList, DeletedList, BlockList, Contents;
    var m := Taken(s, hdrs);
    FixedFacts(s, m);
    DeletedFacts(s, m);
    TakenAgrees(s, hdrs, mem);
  }

  ghost function Spliced(s: Snapshot, hdrs: seq<Hdr>, mem: Mem, alloc: nat -> nat): Mem
    requires MovedOn(s, hdrs, mem)
  {
    var m := Taken(s, hdrs);
    FixedFacts(s, m);
    MemAfter(mem, hdrs, FixedList(s, m), DeletedList(s, m), alloc)
  }

  lemma KeptBuffer(s: Snapshot, hdrs: seq<Hdr>, mem: Mem, alloc: nat -> nat, i: nat)
    requires MovedOn(s, hdrs, mem) && i < |hdrs| && FreshBuffers(mem, FixedList(s, Taken(s, hdrs)), alloc)
    requires i < Taken(s, hdrs) ==> VerdictAt(s, i).Kept?
    ensures var mem' := Spliced(s, hdrs, mem, alloc);
            Backed(mem', hdrs[i]) && View(mem', hdrs[i]) == View(mem, hdrs[i])
  {
    hide WfBlocks, VerdictAt, FixedList, DeletedList, BlockList, Contents, Receive, FixedPtrs, DeletedPtrs, Buffers;
    var m := Taken(s, hdrs);
    NotFreed(s, hdrs, mem, i);
    ReceiveFacts(mem, FixedList(s, m), alloc, |FixedList(s, m)|);
  }

  lemma ReplacedBuffer(s: Snapshot, hdrs: seq<Hdr>, mem: Mem, alloc: nat -> nat, i: nat)
    requires MovedOn(s, hdrs, mem) && i < Taken(s, hdrs) && FreshBuffers(mem, FixedList(s, Taken(s, hdrs)), alloc)
    requires VerdictAt(s, i).Replaced?
    ensures var mem' := Spliced(s, hdrs, mem, alloc);
            var p := alloc(|FixedList(s, i)|);
            p in mem' && mem'[p] == VerdictAt(s, i).block.data
  {
    hide WfBlocks, VerdictAt, FixedList, DeletedList, BlockList, Contents, Receive, Buffers, FixedPtrs, DeletedPtrs,
      AllBacked, Disjoint, FinalHdrs;
    var m := Taken(s, hdrs);
    var f, j := FixedList(s, m), |FixedList(s, i)|;
    ReplacedAt(s, i, m);
    FixedFacts(s, m);
    ReceiveFacts(mem, f, alloc, |f|);
    FreedWereThere(s, hdrs, mem, alloc(j));
  }

  /** Where the report has the replacement of block i. */
  lemma ReplacedAt(s: Snapshot, i: nat, m: nat)
    requires WfSnapshot(s) && i < m <= |s.hdrs| && VerdictAt(s, i).Replaced?
    ensures var j := |FixedList(s, i)|;
            j < |FixedList(s, m)| && FixedList(s, m)[j].data == VerdictAt(s, i).block.data
  {
    hide WfSnapshot, VerdictAt, FixedList, DeletedList, BlockList, FinalHdrs;
    Grow(s, x => x, i);
    FixedMonotone(s, i + 1, m);
    assert FixedList(s, m)[|FixedList(s, i)|] == FixedList(s, i + 1)[|FixedList(s, i)|];
  }

  /** What the splice frees was in memory before. */
  lemma FreedWereThere(s: Snapshot, hdrs: seq<Hdr>, mem: Mem, p: nat)
    requires MovedOn(s, hdrs, mem) && p !in mem
    ensures var m := Taken(s, hdrs);
            && (forall k :: 0 <= k < |FixedList(s, m)| ==> FixedList(s, m)[k].oldix < |hdrs|)
            && p !in FixedPtrs(hdrs, FixedList(s, m), |FixedList(s, m)|)
            && p !in DeletedPtrs(DeletedList(s, m), |DeletedList(s, m)|)
  {
    hide WfBlocks, VerdictAt, FixedList, DeletedList, BlockList, Contents;
    var m := Taken(s, hdrs);
    FixedFacts(s, m);
    DeletedFacts(s, m);
    TakenAgrees(s, hdrs, mem);
  }

  /**
   * The spliced array, read through the spliced memory: the collected blocks, then the parent's own
   * blocks as they are.
   */
  lemma SplicedViews(s: Snapshot, hdrs: seq<Hdr>, mem: Mem, alloc: nat -> nat)
    requires MovedOn(s, hdrs, mem) && FreshBuffers(mem, FixedList(s, Taken(s, hdrs)), alloc)
    requires forall i :: 0 <= i < |s.hdrs| ==> WellFormed(s.enc, Views(s.mem, s.hdrs)[i])
    ensures var m, mem' := Taken(s, hdrs), Spliced(s, hdrs, mem, alloc);
            && AllBacked(mem', SplicedHdrs(s, hdrs, alloc))
            && Views(mem', SplicedHdrs(s, hdrs, alloc))
               == Outs(s.enc, Views(s.mem, s.hdrs)[..m], s.live) + Views(mem, hdrs)[m..]
  {
    hide WfBlocks, VerdictAt, FixedList, DeletedList, BlockList, Contents, Spliced, FinalHdrs, Outs, WellFormed;
    var m, mem' := Taken(s, hdrs), Spliced(s, hdrs, mem, alloc);
    TakenAgrees(s, hdrs, mem);
    forall i | 0 <= i < m ensures HoldsAt(s, alloc, mem', i) {
      if VerdictAt(s, i).Kept? { KeptBuffer(s, hdrs, mem, alloc, i); }
      if VerdictAt(s, i).Replaced? { ReplacedBuffer(s, hdrs, mem, alloc, i); }
    }
    FinalViews(s, alloc, mem', m);
    forall i | m <= i < |hdrs| ensures Backed(mem', hdrs[i]) && View(mem', hdrs[i]) == View(mem, hdrs[i]) {
      KeptBuffer(s, hdrs, mem, alloc, i);
    }
    ViewsConcat(mem', FinalHdrs(s, alloc, m), hdrs[m..]);
    assert Views(mem', hdrs[m..]) == Views(mem, hdrs)[m..];
  }

  lemma ViewsConcat(mem: Mem, a: seq<Hdr>, b: seq<Hdr>)
    requires AllBacked(mem, a) && AllBacked(mem, b)
    ensures AllBacked(mem, a + b) && Views(mem, a + b) == Views(mem, a) + Views(mem, b)
  {
  }

  /** Buffers of the first m snapshot blocks the child left alone, and of those it did not. */
  ghost function KeptPtrs(s: Snapshot, m: nat): set<nat>
    requires WfSnapshot(s) && m <= |s.hdrs|
  {
    set i | 0 <= i < m && VerdictAt(s, i).Kept? :: s.hdrs[i].ptr
  }

  ghost function LostPtrs(s: Snapshot, m: nat): set<nat>
    requires WfSnapshot(s) && m <= |s.hdrs|
  {
    set i | 0 <= i < m && !VerdictAt(s, i).Kept? :: s.hdrs[i].ptr
  }

  lemma KeptLostStep(s: Snapshot, m: nat)
    requires WfSnapshot(s) && 0 < m <= |s.hdrs|
    ensures VerdictAt(s, m - 1).Kept? ==>
              KeptPtrs(s, m) == KeptPtrs(s, m - 1) + {s.hdrs[m - 1].ptr} && LostPtrs(s, m) == LostPtrs(s, m - 1)
    ensures !VerdictAt(s, m - 1).Kept? ==>
              KeptPtrs(s, m) == KeptPtrs(s, m - 1) && LostPtrs(s, m) == LostPtrs(s, m - 1) + {s.hdrs[m - 1].ptr}
  {
    hide WfSnapshot, VerdictAt;
  }

  /** The buffers freed are exactly those of the blocks the child removed or repaired. */
  lemma {:induction false} FreedAreLost(s: Snapshot, hdrs: seq<Hdr>, m: nat)
    requires WfSnapshot(s) && m <= |s.hdrs| <= |hdrs| && forall i :: 0 <= i < m ==> hdrs[i] == s.hdrs[i]
    ensures forall k :: 0 <= k < |FixedList(s, m)| ==> FixedList(s, m)[k].oldix < |hdrs|
    ensures FixedPtrs(hdrs, FixedList(s, m), |FixedList(s, m)|) + DeletedPtrs(DeletedList(s, m), |DeletedList(s, m)|)
            == LostPtrs(s, m)
  {
    hide WfSnapshot, VerdictAt, FixedList, DeletedList, BlockList, FinalHdrs, KeptPtrs, LostPtrs, FixedPtrs, DeletedPtrs;
    FixedFacts(s, m);
    if m == 0 {
      AllStart(s, x => x);
      NoPtrs(s, hdrs);
    } else {
      FreedAreLost(s, hdrs, m - 1);
      Grow(s, x => x, m - 1);
      KeptLostStep(s, m);
      var v := VerdictAt(s, m - 1);
      if v.Removed? {
        DeletedSnoc(DeletedList(s, m - 1), Deleted(s.hdrs[m - 1].ptr, m - 1));
      } else if v.Replaced? {
        FixedSnoc(hdrs, FixedList(s, m - 1), LastFixed(s, m - 1));
      }
    }
  }

  lemma NoPtrs(s: Snapshot, hdrs: seq<Hdr>)
    requires WfSnapshot(s)
    ensures KeptPtrs(s, 0) == {} && LostPtrs(s, 0) == {} && FixedPtrs(hdrs, [], 0) == {} && DeletedPtrs([], 0) == {}
  {
    hide WfSnapshot;
  }

  lemma DeletedSnoc(ds: seq<Deleted>, d: Deleted)
    ensures DeletedPtrs(ds + [d], |ds| + 1) == DeletedPtrs(ds, |ds|) + {d.ptr}
  {
    forall p | p in DeletedPtrs(ds, |ds|) + {d.ptr} ensures p in DeletedPtrs(ds + [d], |ds| + 1) {
      if p == d.ptr { assert (ds + [d])[|ds|].ptr == p; }
      else {
        var i :| 0 <= i < |ds| && ds[i].ptr == p;
        assert (ds + [d])[i].ptr == p;
      }
    }
  }

  lemma FixedSnoc(hdrs: seq<Hdr>, fs: seq<Fixed>, f: Fixed)
    requires f.oldix < |hdrs| && forall i :: 0 <= i < |fs| ==> fs[i].oldix < |hdrs|
    ensures FixedPtrs(hdrs, fs + [f], |fs| + 1) == FixedPtrs(hdrs, fs, |fs|) + {hdrs[f.oldix].ptr}
  {
    forall p | p in FixedPtrs(hdrs, fs, |fs|) + {hdrs[f.oldix].ptr} ensures p in FixedPtrs(hdrs, fs + [f], |fs| + 1) {
      if p == hdrs[f.oldix].ptr { assert hdrs[(fs + [f])[|fs|].oldix].ptr == p; }
      else {
        var i :| 0 <= i < |fs| && hdrs[fs[i].oldix].ptr == p;
        assert hdrs[(fs + [f])[i].oldix].ptr == p;
      }
    }
  }

  lemma PtrsSnoc(hs: seq<Hdr>, h: Hdr)
    ensures Ptrs(hs + [h]) == Ptrs(hs) + {h.ptr}
    ensures Disjoint(hs) && h.ptr !in Ptrs(hs) ==> Disjoint(hs + [h])
  {
    forall p | p in Ptrs(hs) + {h.ptr} ensures p in Ptrs(hs + [h]) {
      if p == h.ptr { assert (hs + [h])[|hs|].ptr == p; }
      else {
        var i :| 0 <= i < |hs| && hs[i].ptr == p;
        assert (hs + [h])[i].ptr == p;
      }
    }
  }

  /** The final headers use the buffers of the kept blocks and the received ones, each once. */
  lemma {:induction false} FinalPtrs(s: Snapshot, alloc: nat -> nat, m: nat)
    requires WfSnapshot(s) && m <= |s.hdrs|
    requires forall k, i :: 0 <= k < |FixedList(s, m)| && 0 <= i < m ==> alloc(k) != s.hdrs[i].ptr
    requires forall j, k :: 0 <= j < k < |FixedList(s, m)| ==> alloc(j) != alloc(k)
    ensures Ptrs(FinalHdrs(s, alloc, m)) == KeptPtrs(s, m) + Buffers(alloc, |FixedList(s, m)|)
    ensures Disjoint(FinalHdrs(s, alloc, m))
  {
    hide WfBlocks, VerdictAt, FixedList, DeletedList, BlockList, FinalHdrs, KeptPtrs, LostPtrs, Ptrs, Buffers, Disjoint;
    if m == 0 {
      AllStart(s, alloc);
      NoPtrs(s, s.hdrs);
      NoBuffers(alloc);
    } else {
      FixedMonotone(s, m - 1, m);
      FinalPtrs(s, alloc, m - 1);
      Grow(s, alloc, m - 1);
      KeptLostStep(s, m);
      var v, f := VerdictAt(s, m - 1), FinalHdrs(s, alloc, m - 1);
      if v.Kept? {
        PtrsSnoc(f, s.hdrs[m - 1]);
        KeptIsNew(s, alloc, m - 1);
      } else if v.Replaced? {
        var k := |FixedList(s, m - 1)|;
        PtrsSnoc(f, Received(LastFixed(s, m - 1), alloc(k)));
        BufferIsNew(s, alloc, m - 1, k);
      }
    }
  }

  lemma NoBuffers(alloc: nat -> nat)
    ensures Buffers(alloc, 0) == {} && Ptrs([]) == {} && Disjoint([])
  {
  }

  lemma KeptIsNew(s: Snapshot, alloc: nat -> nat, i: nat)
    requires WfSnapshot(s) && i < |s.hdrs|
    requires forall k :: 0 <= k < |FixedList(s, i)| ==> alloc(k) != s.hdrs[i].ptr
    ensures s.hdrs[i].ptr !in KeptPtrs(s, i) + Buffers(alloc, |FixedList(s, i)|)
  {
    hide WfBlocks, VerdictAt, FixedList;
  }

  lemma BufferIsNew(s: Snapshot, alloc: nat -> nat, i: nat, k: nat)
    requires WfSnapshot(s) && i < |s.hdrs| && forall j :: 0 <= j < i ==> alloc(k) != s.hdrs[j].ptr
    requires forall j :: 0 <= j < k ==> alloc(j) != alloc(k)
    ensures alloc(k) !in KeptPtrs(s, i) + Buffers(alloc, k)
    ensures Buffers(alloc, k + 1) == Buffers(alloc, k) + {alloc(k)}
  {
    hide WfBlocks, VerdictAt;
  }

  lemma PtrsConcat(a: seq<Hdr>, b: seq<Hdr>)
    ensures Ptrs(a + b) == Ptrs(a) + Ptrs(b)
    ensures Disjoint(a) && Disjoint(b) && Ptrs(a) !! Ptrs(b) ==> Disjoint(a + b)
  {
    forall p | p in Ptrs(a) + Ptrs(b) ensures p in Ptrs(a + b) {
      if i :| 0 <= i < |a| && a[i].ptr == p {
        assert (a + b)[i].ptr == p;
      } else {
        var j :| 0 <= j < |b| && b[j].ptr == p;
        assert (a + b)[|a| + j].ptr == p;
      }
    }
    if Disjoint(a) && Disjoint(b) && Ptrs(a) !! Ptrs(b) {
      forall i, j | 0 <= i < |a| && 0 <= j < |b| ensures a[i].ptr != b[j].ptr {
        assert a[i].ptr in Ptrs(a) && b[j].ptr in Ptrs(b);
      }
    }
  }

  /** The old array's buffers: kept ones, lost ones, and those of the blocks that were not taken over. */
  lemma OldPtrs(s: Snapshot, hdrs: seq<Hdr>, m: nat)
    requires WfSnapshot(s) && m <= |s.hdrs| <= |hdrs| && Disjoint(hdrs)
    requires forall i :: 0 <= i < m ==> hdrs[i] == s.hdrs[i]
    ensures Ptrs(hdrs) == KeptPtrs(s, m) + LostPtrs(s, m) + Ptrs(hdrs[m..])
    ensures KeptPtrs(s, m) !! LostPtrs(s, m) && KeptPtrs(s, m) !! Ptrs(hdrs[m..]) && LostPtrs(s, m) !! Ptrs(hdrs[m..])
    ensures Disjoint(hdrs[m..])
  {
    hide WfBlocks, VerdictAt;
    forall p | p in Ptrs(hdrs) ensures p in KeptPtrs(s, m) + LostPtrs(s, m) + Ptrs(hdrs[m..]) {
      var i :| 0 <= i < |hdrs| && hdrs[i].ptr == p;
      if i >= m { assert hdrs[m..][i - m].ptr == p; }
    }
  }

  /**
   * No buffer is shared, leaked or used after it was freed: the new array's headers have distinct
   * buffers, and the memory is the old one with the old array's buffers exchanged for the new array's.
   */
  lemma SplicedOwnership(s: Snapshot, hdrs: seq<Hdr>, mem: Mem, alloc: nat -> nat)
    requires MovedOn(s, hdrs, mem) && FreshBuffers(mem, FixedList(s, Taken(s, hdrs)), alloc)
    ensures Disjoint(SplicedHdrs(s, hdrs, alloc))
    ensures Spliced(s, hdrs, mem, alloc).Keys == mem.Keys - Ptrs(hdrs) + Ptrs(SplicedHdrs(s, hdrs, alloc))
  {
    hide WfBlocks, VerdictAt, FixedList, DeletedList, BlockList, Contents, Receive, FixedPtrs, DeletedPtrs, FinalHdrs,
      KeptPtrs, LostPtrs, Ptrs, Disjoint, Taken;
    var m := Taken(s, hdrs);
    TakenBound(s, hdrs);
    var f := FixedList(s, m);
    TakenAgrees(s, hdrs, mem);
    InMem(mem, hdrs);
    FinalPtrs(s, alloc, m);
    OldPtrs(s, hdrs, m);
    FreedAreLost(s, hdrs, m);
    ReceiveFacts(mem, f, alloc, |f|);
    PtrsConcat(FinalHdrs(s, alloc, m), hdrs[m..]);
    assert Buffers(alloc, |f|) !! mem.Keys;
  }

  lemma TakenBound(s: Snapshot, hdrs: seq<Hdr>)
    requires WfSnapshot(s) && |s.hdrs| <= |hdrs|
    ensures Taken(s, hdrs) <= |s.hdrs|
  {
    hide WfBlocks, VerdictAt;
  }

  lemma InMem(mem: Mem, hdrs: seq<Hdr>)
    requires AllBacked(mem, hdrs)
    ensures Ptrs(hdrs) <= mem.Keys && forall i :: 0 <= i < |hdrs| ==> hdrs[i].ptr in mem
  {
  }
}
