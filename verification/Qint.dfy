/** The qint codec: up to four 32-bit numbers behind one leading byte that holds two length bits each. */
module Qint {
  import opened Bytes

  predicate AllU32(vs: seq<nat>) {
    forall i :: 0 <= i < |vs| ==> vs[i] < TWO_32
  }

  /** One to four bytes each: the lengths two bits can express. */
  predicate ChunkSizes(bs: seq<seq<byte>>) {
    forall i :: 0 <= i < |bs| ==> 1 <= |bs[i]| <= 4
  }

  function Bits(bs: seq<seq<byte>>, i: nat): nat
    requires ChunkSizes(bs)
  {
    if i < |bs| then |bs[i]| - 1 else 0
  }

  /** Two bits per chunk, the first chunk lowest: its byte count minus one. */
  function Leading(bs: seq<seq<byte>>): (b: byte)
    requires ChunkSizes(bs)
  {
    Bits(bs, 0) + 4 * Bits(bs, 1) + 16 * Bits(bs, 2) + 64 * Bits(bs, 3)
  }

  /** The length the leading byte gives for chunk i: its two bits at position 2i, plus one. */
  function Length(leading: nat, i: nat): (n: nat)
    ensures 1 <= n <= 4
  {
    1 + (if i == 0 then leading % 4 else if i == 1 then leading / 4 % 4 else if i == 2 then leading / 16 % 4 else leading / 64 % 4)
  }

  lemma TwoBits(a: nat, rest: nat)
    requires a < 4
    ensures (a + 4 * rest) % 4 == a && (a + 4 * rest) / 4 == rest
  {
  }

  lemma Shift(h: nat)
    ensures h / 16 == h / 4 / 4 && h / 64 == h / 4 / 4 / 4
  {
  }

  lemma FourDigits(a: nat, b: nat, c: nat, d: nat)
    requires a < 4 && b < 4 && c < 4 && d < 4
    ensures var h := a + 4 * b + 16 * c + 64 * d;
            h % 4 == a && h / 4 % 4 == b && h / 16 % 4 == c && h / 64 % 4 == d
  {
    TwoBits(a, b + 4 * c + 16 * d);
    TwoBits(b, c + 4 * d);
    TwoBits(c, d);
    Shift(a + 4 * b + 16 * c + 64 * d);
  }

  lemma LeadingLengths(bs: seq<seq<byte>>)
    requires ChunkSizes(bs) && |bs| <= 4
    ensures forall i :: 0 <= i < |bs| ==> Length(Leading(bs), i) == |bs[i]|
  {
    FourDigits(Bits(bs, 0), Bits(bs, 1), Bits(bs, 2), Bits(bs, 3));
  }

  function Flat(bs: seq<seq<byte>>): seq<byte> {
    if bs == [] then [] else bs[0] + Flat(bs[1..])
  }

  /** Each number as the bytes up to its highest non-zero one. */
  function Chunks(vs: seq<nat>): (bs: seq<seq<byte>>)
    ensures |bs| == |vs| && forall i :: 0 <= i < |vs| ==> bs[i] == ShortLE(vs[i])
  {
    seq(|vs|, i requires 0 <= i < |vs| => ShortLE(vs[i]))
  }

  lemma ChunksFit(vs: seq<nat>)
    requires AllU32(vs)
    ensures ChunkSizes(Chunks(vs))
    ensures forall i :: 0 <= i < |vs| ==> FromLE(Chunks(vs)[i]) == vs[i]
  {
    forall i | 0 <= i < |vs|
      ensures 1 <= |Chunks(vs)[i]| <= 4 && FromLE(Chunks(vs)[i]) == vs[i]
    {
      ShortU32(vs[i]);
    }
  }

  function Encode(vs: seq<nat>): (s: seq<byte>)
    requires AllU32(vs) && |vs| <= 4
    ensures |s| >= 1
  {
    ChunksFit(vs);
    [Leading(Chunks(vs))] + Flat(Chunks(vs))
  }

  /** What a decoder returns: the chunks and how many bytes they took, or a sign that bytes are missing. */
  datatype Pieces = Truncated | Pieces(bs: seq<seq<byte>>, used: nat)

  /** Cut chunks i, i + 1, .., k - 1 off s. */
  function Split(leading: nat, i: nat, s: seq<byte>, k: nat): (r: Pieces)
    requires i <= k
    ensures r.Pieces? ==> |r.bs| == k - i
    decreases k - i
  {
    if i == k then Pieces([], 0)
    else
      var n := Length(leading, i);
      if |s| < n then Truncated
      else
        var rest := Split(leading, i + 1, s[n..], k);
        if rest.Truncated? then Truncated else Pieces([s[..n]] + rest.bs, n + rest.used)
  }

  datatype Numbers = NoNumbers | Numbers(vs: seq<nat>, used: nat)

  function Decode(s: seq<byte>, k: nat): (r: Numbers)
    ensures r.Numbers? ==> |r.vs| == k
  {
    if s == [] then NoNumbers
    else
      var p := Split(s[0], 0, s[1..], k);
      if p.Truncated? then NoNumbers
      else Numbers(seq(k, i requires 0 <= i < k => FromLE(p.bs[i])), 1 + p.used)
  }

  lemma {:induction false} SplitRoundTrip(leading: nat, i: nat, bs: seq<seq<byte>>, rest: seq<byte>)
    requires i <= |bs| && forall j :: 0 <= j < |bs| ==> Length(leading, j) == |bs[j]|
    ensures Split(leading, i, Flat(bs[i..]) + rest, |bs|) == Pieces(bs[i..], |Flat(bs[i..])|)
    decreases |bs| - i
  {
    if i < |bs| {
      var b, tail := bs[i], bs[i + 1..];
      SplitRoundTrip(leading, i + 1, bs, rest);
      assert bs[i..][1..] == tail && bs[i..] == [b] + tail;
      var s := Flat(bs[i..]) + rest;
      assert s[..|b|] == b && s[|b|..] == Flat(tail) + rest;
    }
  }

  lemma DecodeChunks(leading: byte, bs: seq<seq<byte>>, vs: seq<nat>, rest: seq<byte>)
    requires forall j :: 0 <= j < |bs| ==> Length(leading, j) == |bs[j]|
    requires |bs| == |vs| && forall j :: 0 <= j < |bs| ==> FromLE(bs[j]) == vs[j]
    ensures Decode([leading] + Flat(bs) + rest, |bs|) == Numbers(vs, 1 + |Flat(bs)|)
  {
    SplitRoundTrip(leading, 0, bs, rest);
    assert bs[0..] == bs && ([leading] + Flat(bs) + rest)[1..] == Flat(bs) + rest;
    assert seq(|bs|, i requires 0 <= i < |bs| => FromLE(bs[i])) == vs;
  }

  /** Decoding gives the numbers back and uses exactly the bytes that were written, whatever follows. */
  lemma RoundTrip(vs: seq<nat>, rest: seq<byte>)
    requires AllU32(vs) && |vs| <= 4
    ensures Decode(Encode(vs) + rest, |vs|) == Numbers(vs, |Encode(vs)|)
  {
    ChunksFit(vs);
    LeadingLengths(Chunks(vs));
    DecodeChunks(Leading(Chunks(vs)), Chunks(vs), vs, rest);
  }
}
