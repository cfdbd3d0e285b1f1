/**
 * The fork garbage collector for one inverted index: what the child computes from the snapshot, and
 * how the parent splices it into an index that has been appended to in the meantime.
 */
module ForkGc {
  import opened Bytes
  import opened RecordCodec
  import opened Blocks
  import opened BlockRepair
  import opened Index

  /** A block header as it lies in the block array: the buffer is an address and a length. */
  datatype Hdr = Hdr(firstId: nat, lastId: nat, numEntries: nat, ptr: nat, len: nat)

  /** The process memory that holds the buffers. */
  type Mem = map<nat, seq<byte>>

  /** The header points at an allocated buffer of its length. */
  predicate Backed(mem: Mem, h: Hdr) {
    h.ptr in mem && |mem[h.ptr]| == h.len
  }

  function View(mem: Mem, h: Hdr): Block
    requires Backed(mem, h)
  {
    Block(h.firstId, h.lastId, h.numEntries, mem[h.ptr])
  }

  predicate AllBacked(mem: Mem, hs: seq<Hdr>) {
    forall i :: 0 <= i < |hs| ==> Backed(mem, hs[i])
  }

  /** No two headers share a buffer. */
  predicate Disjoint(hs: seq<Hdr>) {
    forall i, j :: 0 <= i < j < |hs| ==> hs[i].ptr != hs[j].ptr
  }

  /** The blocks the headers stand for. */
  function Views(mem: Mem, hs: seq<Hdr>): (bs: seq<Block>)
    requires AllBacked(mem, hs)
    ensures |bs| == |hs| && forall i :: 0 <= i < |hs| ==> bs[i] == View(mem, hs[i])
  {
    seq(|hs|, i requires 0 <= i < |hs| => View(mem, hs[i]))
  }

  /** What the child finds for one block. */
  datatype Outcome = Kept | Removed | Replaced(block: Block)

  /** Blocks whose ids spread over more than 32 bits are left alone. */
  predicate Wide(b: Block) {
    b.lastId - b.firstId > UINT32_MAX
  }

  ghost function Verdict(enc: Encoding, b: Block, live: set<nat>): Outcome
    requires WellFormed(enc, b)
  {
    var es := Contents(enc, b);
    var s := Survivors(es, live);
    if Wide(b) || DeadDocs(es, live) == 0 then Kept
    else if s == [] then Removed
    else SurvivorsFit(enc, b, live); Replaced(Make(enc, s))
  }

  lemma NarrowContents(enc: Encoding, b: Block)
    requires WellFormed(enc, b) && !Wide(b)
    ensures Narrow(Contents(enc, b))
  {
    hide Parse, Chain, Encoded;
  }

  lemma SurvivorsFit(enc: Encoding, b: Block, live: set<nat>)
    requires WellFormed(enc, b) && !Wide(b)
    ensures Chain(enc, Survivors(Contents(enc, b), live))
  {
    hide Parse, Chain, Encoded, Survivors;
    var es := Contents(enc, b);
    NarrowContents(enc, b);
    SurvivorsChain(enc, es, |es|, live);
    assert es[..|es|] == es;
  }

  /** The blocks that come out of collecting a list of blocks. */
  ghost function Outs(enc: Encoding, bs: seq<Block>, live: set<nat>): seq<Block>
    requires forall i :: 0 <= i < |bs| ==> WellFormed(enc, bs[i])
  {
    if bs == [] then []
    else
      var n := |bs| - 1;
      Outs(enc, bs[..n], live)
      + match Verdict(enc, bs[n], live)
        case Kept => [bs[n]]
        case Removed => []
        case Replaced(b) => [b]
  }

  /** A repaired block on the wire: the child's header, its old and new position, and its bytes. */
  datatype Fixed = Fixed(blk: Hdr, oldix: nat, newix: nat, data: seq<byte>)

  datatype Deleted = Deleted(ptr: nat, oldix: nat)

  datatype Info = Info(nblocksOrig: nat, nblocksRepaired: nat, ndocsCollected: nat, nentriesCollected: nat,
                       lastblkDocsRemoved: nat, lastblkNumEntries: nat, lastblkEntriesRemoved: nat)

  /** What the child sends; no block list at all when none was deleted, and also when all were. */
  datatype Message = Message(info: Info, blocklist: Option<seq<Hdr>>, deleted: seq<Deleted>, fixed: seq<Fixed>)

  /** A forked snapshot: headers, memory and the documents alive at the fork. */
  datatype Snapshot = Snapshot(enc: Encoding, hdrs: seq<Hdr>, mem: Mem, live: set<nat>, childPtr: nat -> nat)

  ghost predicate WfSnapshot(s: Snapshot) {
    && s.hdrs != [] && AllBacked(s.mem, s.hdrs) && Disjoint(s.hdrs)
    && WfBlocks(s.enc, Views(s.mem, s.hdrs))
  }

  ghost function VerdictAt(s: Snapshot, i: nat): Outcome
    requires WfSnapshot(s) && i < |s.hdrs|
  {
    SnapshotBlock(s, i);
    Verdict(s.enc, View(s.mem, s.hdrs[i]), s.live)
  }

  lemma SnapshotBlock(s: Snapshot, i: nat)
    requires WfSnapshot(s) && i < |s.hdrs|
    ensures WellFormed(s.enc, View(s.mem, s.hdrs[i]))
  {
    hide WellFormed, Contents;
    assert Views(s.mem, s.hdrs)[i] == View(s.mem, s.hdrs[i]);
    EmptyIsWellFormed(s.enc);
    if Views(s.mem, s.hdrs) != [EMPTY_BLOCK] {
      assert Filled(s.enc, Views(s.mem, s.hdrs)[i]);
    }
  }

  lemma EmptyIsWellFormed(enc: Encoding)
    ensures WellFormed(enc, EMPTY_BLOCK)
  {
  }

  /** The child's header for the repaired block i: its buffer lives in the child only. */
  ghost function ChildHdr(s: Snapshot, i: nat): Hdr
    requires WfSnapshot(s) && i < |s.hdrs| && VerdictAt(s, i).Replaced?
  {
    var b := VerdictAt(s, i).block;
    Hdr(b.firstId, b.lastId, b.numEntries, s.childPtr(i), |b.data|)
  }

  ghost function OutHdr(s: Snapshot, i: nat): seq<Hdr>
    requires WfSnapshot(s) && i < |s.hdrs|
  {
    var v := VerdictAt(s, i);
    if v.Kept? then [s.hdrs[i]] else if v.Removed? then [] else [ChildHdr(s, i)]
  }

  ghost function OutDeleted(s: Snapshot, i: nat): seq<Deleted>
    requires WfSnapshot(s) && i < |s.hdrs|
  {
    if VerdictAt(s, i).Removed? then [Deleted(s.hdrs[i].ptr, i)] else []
  }

  ghost function OutFixed(s: Snapshot, i: nat, newix: nat): seq<Fixed>
    requires WfSnapshot(s) && i < |s.hdrs|
  {
    if VerdictAt(s, i).Replaced? then [Fixed(ChildHdr(s, i), i, newix, VerdictAt(s, i).block.data)] else []
  }

  /** The child's block list after i blocks. */
  ghost function BlockList(s: Snapshot, i: nat): seq<Hdr>
    requires WfSnapshot(s) && i <= |s.hdrs|
  {
    if i == 0 then [] else BlockList(s, i - 1) + OutHdr(s, i - 1)
  }

  ghost function DeletedList(s: Snapshot, i: nat): seq<Deleted>
    requires WfSnapshot(s) && i <= |s.hdrs|
  {
    if i == 0 then [] else DeletedList(s, i - 1) + OutDeleted(s, i - 1)
  }

  ghost function FixedList(s: Snapshot, i: nat): seq<Fixed>
    requires WfSnapshot(s) && i <= |s.hdrs|
  {
    if i == 0 then [] else FixedList(s, i - 1) + OutFixed(s, i - 1, |BlockList(s, i - 1)|)
  }

  /** Documents the child found dead in block i: none in a block it leaves alone. */
  ghost function DeadAt(s: Snapshot, i: nat): nat
    requires WfSnapshot(s) && i < |s.hdrs|
  {
    if VerdictAt(s, i).Kept? then 0 else DeadDocs(Contents(s.enc, View(s.mem, s.hdrs[i])), s.live)
  }

  ghost function DeadUpTo(s: Snapshot, i: nat): nat
    requires WfSnapshot(s) && i <= |s.hdrs|
  {
    if i == 0 then 0 else DeadUpTo(s, i - 1) + DeadAt(s, i - 1)
  }

  ghost function GoneAt(s: Snapshot, i: nat): nat
    requires WfSnapshot(s) && i < |s.hdrs|
  {
    var es := Contents(s.enc, View(s.mem, s.hdrs[i]));
    if VerdictAt(s, i).Kept? then 0 else |es| - |Survivors(es, s.live)|
  }

  ghost function GoneUpTo(s: Snapshot, i: nat): nat
    requires WfSnapshot(s) && i <= |s.hdrs|
  {
    if i == 0 then 0 else GoneUpTo(s, i - 1) + GoneAt(s, i - 1)
  }

  /** What the child reports for a snapshot. */
  ghost function ChildInfo(s: Snapshot): Info
    requires WfSnapshot(s)
  {
    var n := |s.hdrs|;
    var touched := !VerdictAt(s, n - 1).Kept?;
    Info(n, |FixedList(s, n)|, DeadUpTo(s, n), GoneUpTo(s, n), DeadAt(s, n - 1),
         if touched then s.hdrs[n - 1].numEntries else 0, GoneAt(s, n - 1))
  }

  ghost function ChildMessage(s: Snapshot): Message
    requires WfSnapshot(s)
  {
    var n := |s.hdrs|;
    Message(ChildInfo(s), if |BlockList(s, n)| == n || BlockList(s, n) == [] then None else Some(BlockList(s, n)),
            DeletedList(s, n), FixedList(s, n))
  }

  /** A block's verdict can be read off its repair. */
  lemma VerdictOfRepair(enc: Encoding, b: Block, live: set<nat>, out: Block, frags: nat, collected: nat)
    requires WellFormed(enc, b) && !Wide(b) && Repaired(enc, b, live, out, frags, collected)
    requires Contents(enc, b) == [] ==> b == EMPTY_BLOCK
    ensures var v := Verdict(enc, b, live);
            && (frags == 0 <==> v.Kept?) && (v.Kept? ==> out == b)
            && (frags > 0 && out.numEntries == 0 ==> v.Removed?)
            && (frags > 0 && out.numEntries != 0 ==> v == Replaced(out))
    ensures var es := Contents(enc, b); frags == DeadDocs(es, live) && collected == |es| - |Survivors(es, live)|
    ensures out.numEntries + collected == b.numEntries
  {
    hide Parse, Chain, Encoded, Survivors, DeadDocs;
    var es := Contents(enc, b);
    if es != [] && frags == 0 { NoneDead(es, |es|, live); assert es[..|es|] == es; }
  }

  lemma SnapshotEmpty(s: Snapshot, i: nat)
    requires WfSnapshot(s) && i < |s.hdrs|
    ensures var b := View(s.mem, s.hdrs[i]); Contents(s.enc, b) == [] ==> b == EMPTY_BLOCK
  {
    hide Contents, WellFormed;
    assert Views(s.mem, s.hdrs)[i] == View(s.mem, s.hdrs[i]);
    if Views(s.mem, s.hdrs) != [EMPTY_BLOCK] {
      assert Filled(s.enc, Views(s.mem, s.hdrs)[i]);
    }
  }

  lemma ListsStart(s: Snapshot)
    requires WfSnapshot(s)
    ensures BlockList(s, 0) == [] && DeletedList(s, 0) == [] && FixedList(s, 0) == []
    ensures DeadUpTo(s, 0) == 0 && GoneUpTo(s, 0) == 0 && LastInfo(s, 0, 0, 0, 0)
  {
    hide WfBlocks;
  }

  /** How the child's lists and counters grow with one more block. */
  lemma ListsStep(s: Snapshot, i: nat)
    requires WfSnapshot(s) && i < |s.hdrs|
    ensures BlockList(s, i + 1) == BlockList(s, i) + OutHdr(s, i)
    ensures DeletedList(s, i + 1) == DeletedList(s, i) + OutDeleted(s, i)
    ensures FixedList(s, i + 1) == FixedList(s, i) + OutFixed(s, i, |BlockList(s, i)|)
    ensures DeadUpTo(s, i + 1) == DeadUpTo(s, i) + DeadAt(s, i)
    ensures GoneUpTo(s, i + 1) == GoneUpTo(s, i) + GoneAt(s, i)
    ensures VerdictAt(s, i).Kept? ==> DeadAt(s, i) == 0 && GoneAt(s, i) == 0
  {
    hide WfSnapshot, VerdictAt, OutHdr, OutDeleted, OutFixed;
  }

  /** The report about the last block: filled in only when that block was reached and touched. */
  ghost predicate LastInfo(s: Snapshot, i: nat, docs: nat, num: nat, entries: nat)
    requires WfSnapshot(s) && i <= |s.hdrs|
  {
    var n := |s.hdrs|;
    if i < n || VerdictAt(s, n - 1).Kept? then docs == 0 && num == 0 && entries == 0
    else docs == DeadAt(s, n - 1) && num == s.hdrs[n - 1].numEntries && entries == GoneAt(s, n - 1)
  }

  lemma LastInfoStep(s: Snapshot, i: nat, frags: nat, collected: nat, num: nat)
    requires WfSnapshot(s) && i < |s.hdrs|
    requires !VerdictAt(s, i).Kept? ==> frags == DeadAt(s, i) && collected == GoneAt(s, i) && num == s.hdrs[i].numEntries
    ensures forall a, b, c :: LastInfo(s, i, a, b, c) ==>
              (if i == |s.hdrs| - 1 && !VerdictAt(s, i).Kept? then LastInfo(s, i + 1, frags, num, collected)
               else LastInfo(s, i + 1, a, b, c))
  {
    hide WfSnapshot, VerdictAt, DeadAt, GoneAt;
  }

  lemma ListsEnd(s: Snapshot, docs: nat, num: nat, entries: nat)
    requires WfSnapshot(s) && LastInfo(s, |s.hdrs|, docs, num, entries)
    ensures var n := |s.hdrs|;
            ChildInfo(s) == Info(n, |FixedList(s, n)|, DeadUpTo(s, n), GoneUpTo(s, n), docs, num, entries)
  {
    hide WfBlocks, VerdictAt, FixedList, DeadUpTo, GoneUpTo;
  }

  /** Repair block i in the child's copy. */
  method RepairAt(s: Snapshot, i: nat) returns (v: Outcome, frags: nat, collected: nat, out: Block)
    requires WfSnapshot(s) && i < |s.hdrs|
    ensures v == VerdictAt(s, i)
    ensures !v.Kept? ==> frags == DeadAt(s, i) && collected == GoneAt(s, i)
                         && out.numEntries + collected == s.hdrs[i].numEntries
  {
    hide WfBlocks, WellFormed, Repaired, Verdict, Wide, Parse, Survivors, DeadDocs;
    SnapshotBlock(s, i);
    SnapshotEmpty(s, i);
    out, frags, collected := View(s.mem, s.hdrs[i]), 0, 0;
    if Wide(out) {
      WideIsKept(s.enc, out, s.live);
      return Kept, 0, 0, out;
    }
    NarrowContents(s.enc, out);
    ghost var b := out;
    out, frags, collected := Repair(s.enc, out, s.live);
    VerdictOfRepair(s.enc, b, s.live, out, frags, collected);
    v := if frags == 0 then Kept else if out.numEntries == 0 then Removed else Replaced(out);
  }

  lemma WideIsKept(enc: Encoding, b: Block, live: set<nat>)
    requires WellFormed(enc, b) && Wide(b)
    ensures Verdict(enc, b, live) == Kept
  {
    hide WellFormed, Contents, Survivors, DeadDocs, Wide;
  }

  /** Repair the snapshot block by block and report what was kept, deleted and changed. */
  method ChildRepair(s: Snapshot) returns (changed: bool, msg: Message)
    requires WfSnapshot(s)
    ensures msg == ChildMessage(s)
    ensures changed <==> msg.fixed != [] || msg.deleted != []
  {
    hide WfBlocks, VerdictAt, BlockList, DeletedList, FixedList, DeadUpTo, GoneUpTo, DeadAt, GoneAt, LastInfo;
    var n := |s.hdrs|;
    var fixed: seq<Fixed>, deleted: seq<Deleted>, blocklist: seq<Hdr> := [], [], [];
    var repaired: nat, docs: nat, entries: nat := 0, 0, 0;
    var lastDocs: nat, lastNum: nat, lastEntries: nat := 0, 0, 0;
    ListsStart(s);
    for i := 0 to n
      invariant blocklist == BlockList(s, i) && deleted == DeletedList(s, i) && fixed == FixedList(s, i)
      invariant repaired == |fixed| && docs == DeadUpTo(s, i) && entries == GoneUpTo(s, i)
      invariant LastInfo(s, i, lastDocs, lastNum, lastEntries)
    {
      var h := s.hdrs[i];
      var v, frags, collected, out := RepairAt(s, i);
      ListsStep(s, i);
      match v {
        case Kept =>
          blocklist := blocklist + [h];
        case Removed =>
          deleted := deleted + [Deleted(h.ptr, i)];
        case Replaced(b) =>
          blocklist := blocklist + [Hdr(b.firstId, b.lastId, b.numEntries, s.childPtr(i), |b.data|)];
          fixed := fixed + [Fixed(blocklist[|blocklist| - 1], i, |blocklist| - 1, b.data)];
          repaired := repaired + 1;
      }
      LastInfoStep(s, i, frags, collected, out.numEntries + collected);
      if !v.Kept? {
        docs, entries := docs + frags, entries + collected;
        if i == n - 1 {
          lastDocs, lastEntries, lastNum := frags, collected, out.numEntries + collected;
        }
      }
    }
    assert LastInfo(s, n, lastDocs, lastNum, lastEntries);
    ListsEnd(s, lastDocs, lastNum, lastEntries);
    changed := |fixed| != 0 || |deleted| != 0;
    var info := Info(n, repaired, docs, entries, lastDocs, lastNum, lastEntries);
    // an empty buffer and no buffer look the same to the receiver
    msg := Message(info, if |blocklist| == n || |blocklist| == 0 then None else Some(blocklist), deleted, fixed);
  }
}
