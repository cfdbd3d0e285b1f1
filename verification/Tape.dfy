/** A byte buffer seen as the concatenation of records, and the offset at which each record starts. */
module Tape {
  import opened Bytes

  function Flat(cs: seq<seq<byte>>): seq<byte> {
    if cs == [] then [] else Flat(cs[..|cs| - 1]) + cs[|cs| - 1]
  }

  /** Where record k starts. */
  function Offset(cs: seq<seq<byte>>, k: nat): nat
    requires k <= |cs|
  {
    |Flat(cs[..k])|
  }

  lemma FlatSnoc(cs: seq<seq<byte>>, c: seq<byte>)
    ensures Flat(cs + [c]) == Flat(cs) + c
  {
    assert (cs + [c])[..|cs|] == cs;
  }

  lemma {:induction false} FlatAppend(a: seq<seq<byte>>, b: seq<seq<byte>>)
    ensures Flat(a + b) == Flat(a) + Flat(b)
    decreases |b|
  {
    if b == [] {
      assert a + b == a;
    } else {
      var p, c := b[..|b| - 1], b[|b| - 1];
      assert b == p + [c] && a + b == (a + p) + [c];
      FlatAppend(a, p);
      FlatSnoc(a + p, c);
      FlatSnoc(p, c);
    }
  }

  lemma OffsetEnds(cs: seq<seq<byte>>)
    ensures Offset(cs, 0) == 0 && Offset(cs, |cs|) == |Flat(cs)|
  {
    assert cs[..|cs|] == cs;
  }

  lemma Suffixes(x: seq<byte>, c: seq<byte>, y: seq<byte>)
    ensures (x + c + y)[|x|..] == c + y && (x + c + y)[|x| + |c|..] == y
  {
  }

  /** From offset k the buffer reads record k, then everything from offset k + 1. */
  lemma At(cs: seq<seq<byte>>, k: nat)
    requires k < |cs|
    ensures Offset(cs, k + 1) == Offset(cs, k) + |cs[k]| <= |Flat(cs)|
    ensures Flat(cs)[Offset(cs, k)..] == cs[k] + Flat(cs)[Offset(cs, k + 1)..]
  {
    hide Flat;
    var a, c, b := cs[..k], cs[k], cs[k + 1..];
    assert cs == (a + [c]) + b && cs[..k + 1] == a + [c];
    FlatSnoc(a, c);
    FlatAppend(a + [c], b);
    Suffixes(Flat(a), c, Flat(b));
  }
}
