/** The report on an index as the structures that are sent for it, field by field, and a whole round for one term. */
module GcReport {
  import opened Bytes
  import opened ForkGc
  import GcWire

  /** The fields of a structure, each with its width in bytes. */
  function Width(ws: seq<nat>): nat {
    if ws == [] then 0 else ws[0] + Width(ws[1..])
  }

  function Pack(vs: seq<nat>, ws: seq<nat>): (s: seq<byte>)
    requires |vs| == |ws|
    ensures |s| == Width(ws)
  {
    if ws == [] then [] else FixedLE(vs[0], ws[0]) + Pack(vs[1..], ws[1..])
  }

  function Unpack(s: seq<byte>, ws: seq<nat>): (vs: seq<nat>)
    requires |s| == Width(ws)
    ensures |vs| == |ws|
  {
    if ws == [] then [] else [FromLE(s[..ws[0]])] + Unpack(s[ws[0]..], ws[1..])
  }

  ghost predicate Fit(vs: seq<nat>, ws: seq<nat>)
    requires |vs| == |ws|
  {
    forall i :: 0 <= i < |vs| ==> vs[i] < Pow256(ws[i])
  }

  lemma {:induction false} UnpackPack(vs: seq<nat>, ws: seq<nat>)
    requires |vs| == |ws| && Fit(vs, ws)
    ensures Unpack(Pack(vs, ws), ws) == vs
  {
    if ws != [] {
      var s, a := Pack(vs, ws), FixedLE(vs[0], ws[0]);
      FixedLERoundTrip(vs[0], ws[0]);
      UnpackPack(vs[1..], ws[1..]);
      assert s[..ws[0]] == a && s[ws[0]..] == Pack(vs[1..], ws[1..]);
      assert vs == [vs[0]] + vs[1..];
    }
  }

  /** A block header: the ids, the buffer's address, capacity and length, and the number of entries with its padding. */
  const BLOCK_FIELDS: seq<nat> := [8, 8, 8, 8, 8, 2, 6]
  /** The counts of blocks, then the bytes, documents and entries collected, in all and from the last block. */
  const INFO_FIELDS: seq<nat> := [4, 4, 8, 8, 8, 8, 8, 8, 8]
  const DELETED_FIELDS: seq<nat> := [8, 4, 4]
  const REPAIRED_FIELDS: seq<nat> := [8, 8, 8, 8, 8, 2, 6, 8, 8]

  lemma Sizes()
    ensures Width(BLOCK_FIELDS) == GcWire.BLOCK_SIZE && Width(INFO_FIELDS) == GcWire.INFO_SIZE
    ensures Width(DELETED_FIELDS) == GcWire.DELETED_SIZE && Width(REPAIRED_FIELDS) == GcWire.REPAIRED_SIZE
  {
  }

  /** Structures one after the other. */
  function PackAll(rows: seq<seq<nat>>, ws: seq<nat>): seq<byte>
    requires forall i :: 0 <= i < |rows| ==> |rows[i]| == |ws|
  {
    if rows == [] then [] else Pack(rows[0], ws) + PackAll(rows[1..], ws)
  }

  function UnpackAll(s: seq<byte>, ws: seq<nat>): (rows: seq<seq<nat>>)
    requires Width(ws) > 0
    ensures forall i :: 0 <= i < |rows| ==> |rows[i]| == |ws|
    decreases |s|
  {
    if |s| < Width(ws) then [] else [Unpack(s[..Width(ws)], ws)] + UnpackAll(s[Width(ws)..], ws)
  }

  lemma {:induction false} BlockListSize(rows: seq<seq<nat>>)
    requires forall i :: 0 <= i < |rows| ==> |rows[i]| == |BLOCK_FIELDS|
    ensures |PackAll(rows, BLOCK_FIELDS)| == 48 * |rows| && (48 * |rows|) % 48 == 0
  {
    hide Pack, Width;
    Sizes();
    if rows != [] { BlockListSize(rows[1..]); }
  }

  lemma {:induction false} DeletedListSize(rows: seq<seq<nat>>)
    requires forall i :: 0 <= i < |rows| ==> |rows[i]| == |DELETED_FIELDS|
    ensures |PackAll(rows, DELETED_FIELDS)| == 16 * |rows| && (16 * |rows|) % 16 == 0
  {
    hide Pack, Width;
    Sizes();
    if rows != [] { DeletedListSize(rows[1..]); }
  }

  ghost predicate FitAll(rows: seq<seq<nat>>, ws: seq<nat>) {
    forall i :: 0 <= i < |rows| ==> |rows[i]| == |ws| && Fit(rows[i], ws)
  }

  lemma {:induction false} UnpackAllPackAll(rows: seq<seq<nat>>, ws: seq<nat>)
    requires Width(ws) > 0 && FitAll(rows, ws)
    ensures UnpackAll(PackAll(rows, ws), ws) == rows
  {
    hide Pack, Unpack, Width, Fit;
    if rows != [] {
      var a, rest := Pack(rows[0], ws), PackAll(rows[1..], ws);
      UnpackAllPackAll(rows[1..], ws);
      UnpackPack(rows[0], ws);
      assert (a + rest)[..Width(ws)] == a && (a + rest)[Width(ws)..] == rest;
      assert rows == [rows[0]] + rows[1..];
    }
  }

  /** What the structures hold beside the report: the capacity of a buffer, and counts of bytes. */
  datatype Extra = Extra(cap: nat -> nat, bytes: nat, lastBytes: nat)

  function HdrFields(h: Hdr, x: Extra): seq<nat> {
    [h.firstId, h.lastId, h.ptr, x.cap(h.ptr), h.len, h.numEntries, 0]
  }

  function HdrOf(vs: seq<nat>): Hdr
    requires |vs| >= 7
  {
    Hdr(vs[0], vs[1], vs[5], vs[2], vs[4])
  }

  function InfoFields(i: Info, x: Extra): seq<nat> {
    [i.nblocksOrig, i.nblocksRepaired, x.bytes, i.ndocsCollected, i.nentriesCollected,
     i.lastblkDocsRemoved, x.lastBytes, i.lastblkNumEntries, i.lastblkEntriesRemoved]
  }

  function InfoOf(vs: seq<nat>): Info
    requires |vs| == 9
  {
    Info(vs[0], vs[1], vs[3], vs[4], vs[5], vs[7], vs[8])
  }

  function HdrRows(hs: seq<Hdr>, x: Extra): (rows: seq<seq<nat>>)
    ensures |rows| == |hs| && forall i :: 0 <= i < |rows| ==> rows[i] == HdrFields(hs[i], x)
  {
    seq(|hs|, i requires 0 <= i < |hs| => HdrFields(hs[i], x))
  }

  function DeletedRows(ds: seq<Deleted>): (rows: seq<seq<nat>>)
    ensures |rows| == |ds| && forall i :: 0 <= i < |rows| ==> rows[i] == [ds[i].ptr, ds[i].oldix, 0]
  {
    seq(|ds|, i requires 0 <= i < |ds| => [ds[i].ptr, ds[i].oldix, 0])
  }

  function FixedFields(f: Fixed, x: Extra): seq<nat> {
    HdrFields(f.blk, x) + [f.oldix, f.newix]
  }

  /** The report as it is sent: no block list looks like an empty one. */
  function ToWire(msg: Message, x: Extra): GcWire.InvIdx {
    GcWire.InvIdx(Pack(InfoFields(msg.info, x), INFO_FIELDS),
                  PackAll(HdrRows(if msg.blocklist.Some? then msg.blocklist.value else [], x), BLOCK_FIELDS),
                  PackAll(DeletedRows(msg.deleted), DELETED_FIELDS),
                  seq(|msg.fixed|, i requires 0 <= i < |msg.fixed| =>
                    GcWire.Fixed(Pack(FixedFields(msg.fixed[i], x), REPAIRED_FIELDS), msg.fixed[i].data)))
  }

  function FixedOf(f: GcWire.Fixed): Fixed
    requires GcWire.WfFixed(f)
  {
    Sizes();
    var vs := Unpack(f.msg, REPAIRED_FIELDS);
    Fixed(HdrOf(vs), vs[7], vs[8], f.data)
  }

  function DeletedOf(rows: seq<seq<nat>>): seq<Deleted>
    requires forall i :: 0 <= i < |rows| ==> |rows[i]| == 3
  {
    seq(|rows|, i requires 0 <= i < |rows| => Deleted(rows[i][0], rows[i][1]))
  }

  function HdrsOf(rows: seq<seq<nat>>): seq<Hdr>
    requires forall i :: 0 <= i < |rows| ==> |rows[i]| == 7
  {
    seq(|rows|, i requires 0 <= i < |rows| => HdrOf(rows[i]))
  }

  /** What the receiver makes of it. */
  function FromWire(w: GcWire.InvIdx): Message
    requires GcWire.WfInvIdx(w)
  {
    Sizes();
    Message(InfoOf(Unpack(w.info, INFO_FIELDS)),
            if w.blocks == [] then None else Some(HdrsOf(UnpackAll(w.blocks, BLOCK_FIELDS))),
            DeletedOf(UnpackAll(w.deleted, DELETED_FIELDS)),
            seq(|w.fixed|, i requires 0 <= i < |w.fixed| => FixedOf(w.fixed[i])))
  }

  /** Every number fits its field, and every buffer its length. */
  ghost predicate Fits(msg: Message, x: Extra) {
    && Fit(InfoFields(msg.info, x), INFO_FIELDS)
    && (msg.blocklist.Some? ==> FitHdrs(msg.blocklist.value, x))
    && FitAll(DeletedRows(msg.deleted), DELETED_FIELDS) && |msg.deleted| * GcWire.DELETED_SIZE < GcWire.SIZE_MAX
    && (forall i :: 0 <= i < |msg.fixed| ==> FitFixed(msg.fixed[i], x))
  }

  ghost predicate FitHdrs(hs: seq<Hdr>, x: Extra) {
    FitAll(HdrRows(hs, x), BLOCK_FIELDS) && |hs| * GcWire.BLOCK_SIZE < GcWire.SIZE_MAX
  }

  ghost predicate FitFixed(f: Fixed, x: Extra) {
    Fit(FixedFields(f, x), REPAIRED_FIELDS) && |f.data| < GcWire.SIZE_MAX
  }

  lemma FitRows(rows: seq<seq<nat>>, ws: seq<nat>)
    requires FitAll(rows, ws)
    ensures forall i :: 0 <= i < |rows| ==> |rows[i]| == |ws|
  {
  }

  lemma FixedRoundTrip(f: Fixed, x: Extra)
    requires FitFixed(f, x)
    ensures var w := GcWire.Fixed(Pack(FixedFields(f, x), REPAIRED_FIELDS), f.data);
            GcWire.WfFixed(w) && FixedOf(w) == f
  {
    hide Pack, Unpack, Width, Fit;
    Sizes();
    UnpackPack(FixedFields(f, x), REPAIRED_FIELDS);
  }

  lemma HdrsRoundTrip(hs: seq<Hdr>, x: Extra)
    requires FitHdrs(hs, x)
    ensures var s := PackAll(HdrRows(hs, x), BLOCK_FIELDS);
            && |s| % GcWire.BLOCK_SIZE == 0 && |s| < GcWire.SIZE_MAX && (s == [] <==> hs == [])
            && Width(BLOCK_FIELDS) == GcWire.BLOCK_SIZE && HdrsOf(UnpackAll(s, BLOCK_FIELDS)) == hs
  {
    hide PackAll, UnpackAll, Width, FitAll;
    Sizes();
    FitRows(HdrRows(hs, x), BLOCK_FIELDS);
    UnpackAllPackAll(HdrRows(hs, x), BLOCK_FIELDS);
    BlockListSize(HdrRows(hs, x));
  }

  lemma DeletedRoundTrip(ds: seq<Deleted>)
    requires FitAll(DeletedRows(ds), DELETED_FIELDS) && |ds| * GcWire.DELETED_SIZE < GcWire.SIZE_MAX
    ensures var s := PackAll(DeletedRows(ds), DELETED_FIELDS);
            && |s| % GcWire.DELETED_SIZE == 0 && |s| < GcWire.SIZE_MAX
            && Width(DELETED_FIELDS) == GcWire.DELETED_SIZE && DeletedOf(UnpackAll(s, DELETED_FIELDS)) == ds
  {
    hide PackAll, UnpackAll, Width, FitAll;
    Sizes();
    FitRows(DeletedRows(ds), DELETED_FIELDS);
    UnpackAllPackAll(DeletedRows(ds), DELETED_FIELDS);
    DeletedListSize(DeletedRows(ds));
  }

  lemma InfoRoundTrip(info: Info, x: Extra)
    requires Fit(InfoFields(info, x), INFO_FIELDS)
    ensures var s := Pack(InfoFields(info, x), INFO_FIELDS);
            && |s| == GcWire.INFO_SIZE && GcWire.NumRepaired(s) == info.nblocksRepaired
            && Width(INFO_FIELDS) == GcWire.INFO_SIZE && InfoOf(Unpack(s, INFO_FIELDS)) == info
  {
    Sizes();
    hide Width;
    var vs := InfoFields(info, x);
    UnpackPack(vs, INFO_FIELDS);
    SecondField(vs, INFO_FIELDS);
    assert vs[1] < Pow256(INFO_FIELDS[1]);
    FixedLERoundTrip(vs[1], 4);
  }

  lemma SecondField(vs: seq<nat>, ws: seq<nat>)
    requires |vs| == |ws| >= 2 && ws[0] == ws[1] == 4
    ensures |Pack(vs, ws)| >= 8 && Pack(vs, ws)[4..8] == FixedLE(vs[1], 4)
  {
    hide FixedLE, Width;
    var rest := Pack(vs[1..][1..], ws[1..][1..]);
    assert Pack(vs[1..], ws[1..]) == FixedLE(vs[1], 4) + rest;
    assert Pack(vs, ws) == FixedLE(vs[0], 4) + (FixedLE(vs[1], 4) + rest);
  }

  /** Sending a report and reading it back gives the report. */
  lemma ReportRoundTrip(msg: Message, x: Extra)
    requires Fits(msg, x) && (msg.blocklist.Some? ==> msg.blocklist.value != []) && msg.info.nblocksRepaired == |msg.fixed|
    ensures GcWire.WfInvIdx(ToWire(msg, x)) && FromWire(ToWire(msg, x)) == msg
  {
    hide Pack, Unpack, PackAll, UnpackAll, Width, Fit, FitAll, FitHdrs, FitFixed, FixedOf, HdrsOf, DeletedOf, GcWire.NumRepaired;
    InfoRoundTrip(msg.info, x);
    NoHdrs(x);
    HdrsRoundTrip(if msg.blocklist.Some? then msg.blocklist.value else [], x);
    DeletedRoundTrip(msg.deleted);
    forall i | 0 <= i < |msg.fixed|
      ensures GcWire.WfFixed(ToWire(msg, x).fixed[i]) && FixedOf(ToWire(msg, x).fixed[i]) == msg.fixed[i]
    {
      FixedRoundTrip(msg.fixed[i], x);
    }
  }

  lemma NoHdrs(x: Extra)
    ensures FitHdrs([], x)
  {
  }
}
