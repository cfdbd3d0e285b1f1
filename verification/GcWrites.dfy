/** Writes and the document table as steps of the collector's runs. */
module GcWrites {
  import opened RecordCodec
  import opened Blocks
  import opened BlockRepair
  import opened Index
  import opened ForkGc
  import opened GcSafety
  import DocTable

  /** The block array after a write: a header for a new block, or the last header brought up to date. */
  ghost function WrittenHdrs(enc: Encoding, hdrs: seq<Hdr>, mem: Mem, lastId: nat, docId: nat, rec: Record, ptr: nat): seq<Hdr>
    requires Writing(enc, hdrs, mem, docId, rec)
  {
    var bs := Written(enc, Views(mem, hdrs), lastId, docId, rec);
    var b := bs[|bs| - 1];
    var h := Hdr(b.firstId, b.lastId, b.numEntries, if |bs| > |hdrs| then ptr else hdrs[|hdrs| - 1].ptr, |b.data|);
    if |bs| > |hdrs| then hdrs + [h] else hdrs[|hdrs| - 1 := h]
  }

  /** The memory after a write: a new buffer at ptr, or the last one extended. */
  ghost function WrittenMem(enc: Encoding, hdrs: seq<Hdr>, mem: Mem, lastId: nat, docId: nat, rec: Record, ptr: nat): Mem
    requires Writing(enc, hdrs, mem, docId, rec)
  {
    var bs := Written(enc, Views(mem, hdrs), lastId, docId, rec);
    mem[(if |bs| > |hdrs| then ptr else hdrs[|hdrs| - 1].ptr) := bs[|bs| - 1].data]
  }

  ghost predicate Writing(enc: Encoding, hdrs: seq<Hdr>, mem: Mem, docId: nat, rec: Record) {
    && hdrs != [] && AllBacked(mem, hdrs) && ValidRecord(rec)
    && hdrs[|hdrs| - 1].firstId <= docId && hdrs[|hdrs| - 1].lastId <= docId
  }

  lemma WrittenShape(enc: Encoding, bs: seq<Block>, lastId: nat, docId: nat, rec: Record)
    requires bs != [] && ValidRecord(rec) && bs[|bs| - 1].firstId <= docId && bs[|bs| - 1].lastId <= docId
    ensures var bs' := Written(enc, bs, lastId, docId, rec);
            && |bs| <= |bs'| <= |bs| + 1
            && (|bs'| == |bs| ==> bs' == bs[|bs| - 1 := bs'[|bs| - 1]]) && (|bs'| > |bs| ==> bs' == bs + [bs'[|bs|]])
  {
    hide EncodeRecord;
  }

  /** The array and the memory a write leaves stand for the blocks a write leaves, and only the last block was touched. */
  lemma WrittenViews(enc: Encoding, hdrs: seq<Hdr>, mem: Mem, lastId: nat, docId: nat, rec: Record, ptr: nat)
    requires Writing(enc, hdrs, mem, docId, rec) && Disjoint(hdrs) && ptr !in mem
    ensures var hdrs', mem' := WrittenHdrs(enc, hdrs, mem, lastId, docId, rec, ptr), WrittenMem(enc, hdrs, mem, lastId, docId, rec, ptr);
            && AllBacked(mem', hdrs') && Disjoint(hdrs') && |hdrs| <= |hdrs'|
            && Views(mem', hdrs') == Written(enc, Views(mem, hdrs), lastId, docId, rec)
            && forall i :: 0 <= i < (if |hdrs'| == |hdrs| then |hdrs| - 1 else |hdrs|) ==>
                 hdrs'[i] == hdrs[i] && mem'[hdrs[i].ptr] == mem[hdrs[i].ptr]
  {
    hide Written;
    WrittenShape(enc, Views(mem, hdrs), lastId, docId, rec);
  }

  /** The state after writing an entry of a document. */
  ghost function AfterWrite(s: State, docId: nat, rec: Record, ptr: nat): State
    requires Writing(s.enc, s.hdrs, s.mem, docId, rec)
  {
    s.(hdrs := WrittenHdrs(s.enc, s.hdrs, s.mem, s.lastId, docId, rec, ptr),
       mem := WrittenMem(s.enc, s.hdrs, s.mem, s.lastId, docId, rec, ptr), lastId := docId,
       added := s.added + [Index.Stored(s.enc, docId, rec)], numDocs := s.numDocs + if docId == s.lastId then 0 else 1)
  }

  /** What the index does for a write, in the block array and in memory, is a step of the collector's runs. */
  lemma WriteIsStep(s: State, docId: nat, rec: Record, ptr: nat)
    requires Inv(s) && docId in s.live && s.lastId <= docId && (docId != s.lastId || s.enc.Numeric?) && ValidRecord(rec)
    requires ptr !in s.mem && !DeltaOverflows(s.enc, Views(s.mem, s.hdrs), s.lastId, docId)
    ensures Writing(s.enc, s.hdrs, s.mem, docId, rec) && Next(s, AfterWrite(s, docId, rec, ptr))
  {
    hide Entries, NumDocs, Survivors, ChildCurrent, Written, WrittenHdrs, WrittenMem, Appended, WfBlocks, DeltaOverflows;
    var bs := Views(s.mem, s.hdrs);
    WriteResult(s.enc, bs, s.lastId, docId, rec);
    WrittenViews(s.enc, s.hdrs, s.mem, s.lastId, docId, rec, ptr);
    assert AppendOf(s, AfterWrite(s, docId, rec, ptr), Index.Stored(s.enc, docId, rec));
  }

  /** The state as the document table sees it. */
  ghost predicate Tabled(s: State, table: DocTable.Table)
    reads table
  {
    s.live == table.Live() && s.maxDocId == table.maxDocId
  }

  /** Putting a document into the table is a step, or nothing if it is there already. */
  method PutIsStep(table: DocTable.Table, key: string, ghost s: State) returns (ghost t: State)
    requires table.Valid() && Tabled(s, table)
    modifies table
    ensures table.Valid() && Tabled(t, table) && (t == s || Next(s, t))
  {
    hide Next, table.Valid;
    var id, isNew := table.Put(key);
    t := if isNew then s.(maxDocId := s.maxDocId + 1, live := s.live + {s.maxDocId + 1}) else s;
    if isNew { PutNext(s, t); }
  }

  lemma PutNext(s: State, t: State)
    requires PutStep(s, t)
    ensures Next(s, t)
  {
    hide PutStep;
  }

  lemma PopNext(s: State, t: State)
    requires PopStep(s, t)
    ensures Next(s, t)
  {
    hide PopStep;
  }

  /** Taking a document out of the table is a step, or nothing if it was not there. */
  method PopIsStep(table: DocTable.Table, key: string, ghost s: State) returns (ghost t: State)
    requires table.Valid() && Tabled(s, table)
    modifies table
    ensures table.Valid() && Tabled(t, table) && (t == s || Next(s, t))
  {
    hide Next, table.Valid;
    ghost var id := if key in table.dim then table.dim[key] else 0;
    var popped := table.Pop(key);
    t := if popped then s.(live := s.live - {id}) else s;
    if popped { PopNext(s, t); }
  }
}
