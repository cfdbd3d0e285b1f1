/** Growing byte buffers, and the qint codec as it works on them. */
module Buffers {
  import opened Bytes
  import Qint

  const MAX_STEP: nat := 1024 * 1024

  class Buffer {
    var data: array<byte>
    var offset: nat

    ghost predicate Valid()
      reads this
    {
      offset <= data.Length
    }

    /** What has been written. */
    ghost function Contents(): seq<byte>
      requires Valid()
      reads this, data
    {
      data[..offset]
    }

    constructor (cap: nat)
      ensures Valid() && Contents() == [] && fresh(data)
    {
      data := new byte[cap];
      offset := 0;
    }

    /** Make room for so many more bytes: the capacity grows by a fifth, but not by more than a megabyte at a time. */
    method Grow(extra: nat)
      requires Valid() && offset + extra > data.Length
      modifies this`data
      ensures Valid() && fresh(data) && offset + extra <= data.Length && Contents() == old(Contents())
    {
      var cap := data.Length;
      while offset + extra > cap
        invariant data.Length <= cap
        decreases offset + extra - cap
      {
        var step := 1 + cap / 5;
        cap := cap + if step < MAX_STEP then step else MAX_STEP;
      }
      var bigger := new byte[cap];
      forall i | 0 <= i < offset { bigger[i] := data[i]; }
      data := bigger;
      assert data[..offset] == old(data[..offset]);
    }

    method Reserve(n: nat)
      requires Valid()
      modifies this`data
      ensures Valid() && offset + n <= data.Length && Contents() == old(Contents())
      ensures if old(offset + n <= data.Length) then data == old(data) else fresh(data)
    {
      if offset + n > data.Length {
        Grow(n);
      }
    }

    /** Write bytes at the offset. What lies behind them stays, as long as there is room. */
    method Write(b: seq<byte>)
      requires Valid()
      modifies this, data
      ensures Valid() && Contents() == old(Contents()) + b && offset == old(offset) + |b|
      ensures if old(offset) + |b| <= old(data.Length) then data == old(data) else fresh(data)
      ensures data == old(data) ==> data[offset..] == old(data[..])[offset..]
    {
      Reserve(|b|);
      ghost var was := data[..offset];
      forall i | 0 <= i < |b| { data[offset + i] := b[i]; }
      assert data[..offset] == was;
      offset := offset + |b|;
      assert data[..offset] == was + b;
    }

    /** Move the offset; beyond the capacity nothing happens. */
    method Seek(at: nat)
      modifies this`offset
      ensures offset == if at <= data.Length then at else old(offset)
    {
      if at > data.Length {
        return;
      }
      offset := at;
    }

    /** Write elsewhere and come back: of the contents exactly the addressed bytes change, wherever that is. */
    method WriteAt(at: nat, b: seq<byte>)
      requires Valid()
      modifies this, data
      ensures Valid() && offset == old(offset)
      ensures forall i :: 0 <= i < offset ==>
                Contents()[i] == if at <= i < at + |b| then b[i - at] else old(Contents())[i]
      ensures if at + |b| <= old(data.Length) then data == old(data) else data == old(data) || fresh(data)
    {
      var pos := offset;
      Seek(at);
      ghost var start := offset;
      Write(b);
      Seek(pos);
      forall i | 0 <= i < pos ensures data[i] == if at <= i < at + |b| then b[i - at] else old(data[..offset])[i] {
        if i < start + |b| {
          assert data[i] == data[..start + |b|][i];
        } else {
          assert data[i] == data[start + |b|..][i - start - |b|];
        }
      }
    }
  }

  lemma ShortStep(v: nat)
    ensures ShortLE(v) == [v % 0x100] + if v / 0x100 == 0 then [] else ShortLE(v / 0x100)
  {
  }

  /** The bytes of one number, lowest first, up to the highest that is not zero. */
  method EncodeOne(buf: Buffer, v: nat) returns (n: nat)
    requires buf.Valid() && v < TWO_32
    modifies buf, buf.data
    ensures buf.Valid() && buf.Contents() == old(buf.Contents()) + ShortLE(v) && n == |ShortLE(v)| <= 4
    ensures buf.data == old(buf.data) || fresh(buf.data)
    ensures buf.offset == old(buf.offset) + n
  {
    hide ShortLE;
    ShortU32(v);
    ShortStep(v);
    ghost var start := buf.Contents();
    buf.Write([v % 0x100]);
    n := 1;
    var i: nat := v / 0x100;
    while i != 0 && n < 4
      invariant buf.Valid() && (buf.data == old(buf.data) || fresh(buf.data)) && buf.offset == old(buf.offset) + n
      invariant start + ShortLE(v) == buf.Contents() + (if i == 0 then [] else ShortLE(i))
      invariant n + (if i == 0 then 0 else |ShortLE(i)|) == |ShortLE(v)|
      decreases i
    {
      ShortStep(i);
      buf.Write([i % 0x100]);
      n := n + 1;
      i := i / 0x100;
    }
  }

  lemma {:induction false} FlatSnoc(bs: seq<seq<byte>>, b: seq<byte>)
    ensures Qint.Flat(bs + [b]) == Qint.Flat(bs) + b
  {
    if bs == [] {
      assert [b][1..] == [];
    } else {
      FlatSnoc(bs[1..], b);
      assert (bs + [b])[1..] == bs[1..] + [b];
    }
  }

  function Pow4(i: nat): nat {
    if i == 0 then 1 else 4 * Pow4(i - 1)
  }

  /** One more number: its bytes behind the others, its length in the next two bits. */
  lemma ChunksSnoc(vs: seq<nat>, i: nat)
    requires Qint.AllU32(vs) && i < |vs| <= 4
    ensures Qint.ChunkSizes(Qint.Chunks(vs[..i])) && Qint.ChunkSizes(Qint.Chunks(vs[..i + 1]))
    ensures Qint.Flat(Qint.Chunks(vs[..i + 1])) == Qint.Flat(Qint.Chunks(vs[..i])) + ShortLE(vs[i])
    ensures Qint.Leading(Qint.Chunks(vs[..i + 1])) == Qint.Leading(Qint.Chunks(vs[..i])) + (|ShortLE(vs[i])| - 1) * Pow4(i)
  {
    hide ShortLE;
    Qint.ChunksFit(vs[..i]);
    Qint.ChunksFit(vs[..i + 1]);
    var a, b := Qint.Chunks(vs[..i]), Qint.Chunks(vs[..i + 1]);
    assert b == a + [ShortLE(vs[i])];
    FlatSnoc(a, ShortLE(vs[i]));
    LeadingSnoc(a, ShortLE(vs[i]));
  }

  lemma BitsSnoc(bs: seq<seq<byte>>, b: seq<byte>, i: nat)
    requires Qint.ChunkSizes(bs + [b])
    ensures Qint.ChunkSizes(bs) && Qint.Bits(bs + [b], i) == if i == |bs| then |b| - 1 else Qint.Bits(bs, i)
    ensures i >= |bs| ==> Qint.Bits(bs, i) == 0
  {
    forall i | 0 <= i < |bs| ensures 1 <= |bs[i]| <= 4 { assert (bs + [b])[i] == bs[i]; }
    assert (bs + [b])[|bs|] == b;
  }

  lemma Powers()
    ensures Pow4(0) == 1 && Pow4(1) == 4 && Pow4(2) == 16 && Pow4(3) == 64
  {
  }

  lemma LeadingSnoc(bs: seq<seq<byte>>, b: seq<byte>)
    requires Qint.ChunkSizes(bs + [b]) && |bs| < 4
    ensures Qint.ChunkSizes(bs)
    ensures Qint.Leading(bs + [b]) == Qint.Leading(bs) + (|b| - 1) * Pow4(|bs|)
  {
    hide Pow4, Qint.Bits, Qint.ChunkSizes;
    Powers();
    BitsSnoc(bs, b, 0);
    BitsSnoc(bs, b, 1);
    BitsSnoc(bs, b, 2);
    BitsSnoc(bs, b, 3);
    if |bs| == 0 { } else if |bs| == 1 { } else if |bs| == 2 { } else { }
  }

  /** Encode up to four numbers: a leading byte, patched when all lengths are known, and the numbers' bytes. */
  method QintEncode(buf: Buffer, vs: seq<nat>) returns (written: nat)
    requires buf.Valid() && Qint.AllU32(vs)
    modifies buf, buf.data
    ensures buf.Valid()
    ensures 1 <= |vs| <= 4 ==> buf.Contents() == old(buf.Contents()) + Qint.Encode(vs) && written == |Qint.Encode(vs)|
    ensures !(1 <= |vs| <= 4) ==> written == 0 && buf.Contents() == old(buf.Contents())
  {
    hide ShortLE, Qint.Flat, Qint.Leading, Pow4;
    if |vs| == 0 || |vs| > 4 {
      return 0;
    }
    ghost var start := buf.Contents();
    var pos := buf.offset;
    buf.Write([0]);
    written := 1;
    var leading: nat := 0;
    NoChunks(vs);
    for i := 0 to |vs|
      invariant buf.Valid() && (buf.data == old(buf.data) || fresh(buf.data))
      invariant Qint.ChunkSizes(Qint.Chunks(vs[..i])) && leading == Qint.Leading(Qint.Chunks(vs[..i]))
      invariant buf.Contents() == start + [0] + Qint.Flat(Qint.Chunks(vs[..i]))
      invariant written == 1 + |Qint.Flat(Qint.Chunks(vs[..i]))|
    {
      ChunksSnoc(vs, i);
      ghost var done := Qint.Flat(Qint.Chunks(vs[..i]));
      var n := EncodeOne(buf, vs[i]);
      assert start + [0] + done + ShortLE(vs[i]) == start + [0] + (done + ShortLE(vs[i]));
      written := written + n;
      leading := leading + (n - 1) * Pow4(i);
    }
    assert vs[..|vs|] == vs;
    ghost var flat := Qint.Flat(Qint.Chunks(vs));
    buf.WriteAt(pos, [leading]);
    assert buf.Contents() == start + ([leading] + flat);
  }

  lemma NoChunks(vs: seq<nat>)
    ensures Qint.ChunkSizes(Qint.Chunks(vs[..0])) && Qint.Leading(Qint.Chunks(vs[..0])) == 0
    ensures Qint.Flat(Qint.Chunks(vs[..0])) == []
  {
  }

  lemma SplitStep(leading: nat, i: nat, s: seq<byte>, p: nat, k: nat)
    requires i < k && p <= |s| && Qint.Split(leading, i, s[p..], k).Pieces?
    ensures var n := Qint.Length(leading, i);
            && p + n <= |s| && Qint.Split(leading, i + 1, s[p + n..], k).Pieces?
            && var rest := Qint.Split(leading, i + 1, s[p + n..], k);
               Qint.Split(leading, i, s[p..], k) == Qint.Pieces([s[p..p + n]] + rest.bs, n + rest.used)
  {
    var n := Qint.Length(leading, i);
    assert s[p..][n..] == s[p + n..] && s[p..][..n] == s[p..p + n];
  }

  /** Read back as many numbers as were asked for; the leading byte says how many bytes each has. */
  method QintDecode(s: seq<byte>, pos: nat, k: nat) returns (vs: seq<nat>, nread: nat)
    requires pos <= |s| && Qint.Decode(s[pos..], k).Numbers?
    ensures Qint.Decode(s[pos..], k) == Qint.Numbers(vs, nread)
  {
    hide FromLE, Qint.Length, Qint.Split;
    var header := s[pos];
    var p: nat := pos + 1;
    ghost var all := Qint.Split(header, 0, s[p..], k);
    assert s[pos..][1..] == s[p..];
    vs := [];
    for i := 0 to k
      invariant p <= |s| && |vs| == i && Qint.Split(header, i, s[p..], k).Pieces?
      invariant all.bs[i..] == Qint.Split(header, i, s[p..], k).bs
      invariant all.used == p - pos - 1 + Qint.Split(header, i, s[p..], k).used
      invariant forall j :: 0 <= j < i ==> vs[j] == FromLE(all.bs[j])
    {
      SplitStep(header, i, s, p, k);
      var n := Qint.Length(header, i);
      assert all.bs[i] == all.bs[i..][0] == s[p..p + n];
      vs := vs + [FromLE(s[p..p + n])];
      p := p + n;
    }
    SplitEnd(header, s[p..], k);
    nread := p - pos;
  }

  lemma SplitEnd(leading: nat, s: seq<byte>, k: nat)
    ensures Qint.Split(leading, k, s, k) == Qint.Pieces([], 0)
  {
  }
}
