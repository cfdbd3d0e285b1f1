/** Entries, delta-encoded blocks, and what a block holds. */
module Blocks {
  import opened Bytes
  import opened RecordCodec
  import Tape

  datatype Entry = Entry(id: nat, rec: Record)

  datatype Block = Block(firstId: nat, lastId: nat, numEntries: nat, data: seq<byte>)

  /** Ids start at one; the stored parts of the record are all it has. */
  predicate EntryOk(enc: Encoding, e: Entry) {
    e.id >= 1 && ValidRecord(e.rec) && Project(enc, e.rec) == e.rec
  }

  /** What is written for entry i: the gap to its predecessor, or to the first id in the raw layout. */
  function DeltaOf(enc: Encoding, es: seq<Entry>, i: nat): int
    requires i < |es|
  {
    if i == 0 then 0 else if enc.RawDocIds? then es[i].id - es[0].id else es[i].id - es[i - 1].id
  }

  /** Ids increase (numeric entries may repeat an id) and every delta fits 32 bits. */
  predicate Follows(enc: Encoding, es: seq<Entry>, i: nat)
    requires 1 <= i < |es|
  {
    && (if enc.Numeric? then es[i - 1].id <= es[i].id else es[i - 1].id < es[i].id)
    && 0 <= DeltaOf(enc, es, i) < TWO_32
  }

  /** A list of entries one block can hold. */
  ghost predicate Chain(enc: Encoding, es: seq<Entry>) {
    && (forall i :: 0 <= i < |es| ==> EntryOk(enc, es[i]))
    && (forall i :: 1 <= i < |es| ==> Follows(enc, es, i))
  }

  ghost function Code(enc: Encoding, es: seq<Entry>, i: nat): (s: seq<byte>)
    requires Chain(enc, es) && i < |es|
    ensures |s| >= 1
  {
    assert i >= 1 ==> Follows(enc, es, i);
    assert EntryOk(enc, es[i]);
    EncodeRecord(enc, DeltaOf(enc, es, i), es[i].rec)
  }

  /** The encoded entries, one byte string each. */
  ghost function Codes(enc: Encoding, es: seq<Entry>): (cs: seq<seq<byte>>)
    requires Chain(enc, es)
    ensures |cs| == |es| && forall i :: 0 <= i < |es| ==> cs[i] == Code(enc, es, i)
  {
    seq(|es|, i requires 0 <= i < |es| => Code(enc, es, i))
  }

  ghost function Encoded(enc: Encoding, es: seq<Entry>): seq<byte>
    requires Chain(enc, es)
  {
    Tape.Flat(Codes(enc, es))
  }

  /** Where entry k starts in the buffer. */
  ghost function Offset(enc: Encoding, es: seq<Entry>, k: nat): nat
    requires Chain(enc, es) && k <= |es|
  {
    Tape.Offset(Codes(enc, es), k)
  }

  /** The block the writer builds for a non-empty list. */
  ghost function Make(enc: Encoding, es: seq<Entry>): Block
    requires Chain(enc, es) && es != []
  {
    Block(es[0].id, es[|es| - 1].id, |es|, Encoded(enc, es))
  }

  /** The id a reader computes for a decoded delta, given the block's first id and the last id it read. */
  function NextId(enc: Encoding, first: nat, last: nat, delta: nat): nat {
    (if enc.RawDocIds? then first else last) + delta % TWO_32
  }

  /** Decode a buffer to its end. */
  function Parse(enc: Encoding, first: nat, last: nat, s: seq<byte>): seq<Entry>
    decreases |s|
  {
    var d := DecodeRecord(enc, s);
    if s == [] || d.Malformed? || d.used == 0 || d.used > |s| then []
    else
      var id := NextId(enc, first, last, d.delta);
      [Entry(id, d.rec)] + Parse(enc, first, id, s[d.used..])
  }

  function Contents(enc: Encoding, b: Block): seq<Entry> {
    Parse(enc, b.firstId, b.firstId, b.data)
  }

  /** The block is what the writer builds for its contents; an empty block may keep any ids. */
  ghost predicate WellFormed(enc: Encoding, b: Block) {
    var es := Contents(enc, b);
    && Chain(enc, es)
    && (if es == [] then b.numEntries == 0 && b.data == [] else b == Make(enc, es))
  }

  lemma ChainPrefix(enc: Encoding, es: seq<Entry>, n: nat)
    requires Chain(enc, es) && n <= |es|
    ensures Chain(enc, es[..n])
    ensures Codes(enc, es[..n]) == Codes(enc, es)[..n]
  {
    var p := es[..n];
    forall i | 1 <= i < n ensures Follows(enc, p, i) {
      assert Follows(enc, es, i);
    }
    forall i | 0 <= i < n ensures Code(enc, p, i) == Code(enc, es, i) {
    }
  }

  lemma {:induction false} Increasing(enc: Encoding, es: seq<Entry>, i: nat, j: nat)
    requires Chain(enc, es) && i <= j < |es|
    ensures es[i].id <= es[j].id
    ensures i < j && !enc.Numeric? ==> es[i].id < es[j].id
    decreases j - i
  {
    if i < j {
      Increasing(enc, es, i, j - 1);
      assert Follows(enc, es, j);
    }
  }

  /** The last id read before entry k: the predecessor's, or the block's first id at the start. */
  function Before(es: seq<Entry>, k: nat): nat
    requires k <= |es| && es != []
  {
    if k == 0 then es[0].id else es[k - 1].id
  }

  lemma CodeDecodes(enc: Encoding, es: seq<Entry>, k: nat, rest: seq<byte>)
    requires Chain(enc, es) && k < |es|
    ensures var c := Code(enc, es, k);
            var d := DecodeRecord(enc, c + rest);
            d.Decoded? && d.rec == es[k].rec && d.delta == DeltaOf(enc, es, k) && d.used == |c| > 0
  {
    hide EncodeRecord, DecodeRecord;
    assert k >= 1 ==> Follows(enc, es, k);
    assert EntryOk(enc, es[k]);
    RoundTrip(enc, DeltaOf(enc, es, k), es[k].rec, rest);
  }

  /** Decoding at offset k yields entry k and ends at offset k + 1. */
  lemma DecodeAt(enc: Encoding, es: seq<Entry>, k: nat)
    requires Chain(enc, es) && k < |es|
    ensures Offset(enc, es, k) < Offset(enc, es, k + 1) <= |Encoded(enc, es)|
    ensures var d := DecodeRecord(enc, Encoded(enc, es)[Offset(enc, es, k)..]);
            && d.Decoded? && d.rec == es[k].rec
            && d.delta == DeltaOf(enc, es, k) && d.used == Offset(enc, es, k + 1) - Offset(enc, es, k)
    ensures Encoded(enc, es)[Offset(enc, es, k)..Offset(enc, es, k + 1)] == Code(enc, es, k)
  {
    hide DecodeRecord, Code, Chain, Tape.Flat;
    var s, a, b := Encoded(enc, es), Offset(enc, es, k), Offset(enc, es, k + 1);
    Tape.At(Codes(enc, es), k);
    CodeDecodes(enc, es, k, s[b..]);
    assert s[a..b] == s[a..][..b - a];
  }

  /** The id computed from the decoded delta is the entry's. */
  lemma IdAt(enc: Encoding, es: seq<Entry>, k: nat)
    requires Chain(enc, es) && k < |es|
    ensures 0 <= DeltaOf(enc, es, k) < TWO_32
    ensures NextId(enc, es[0].id, Before(es, k), DeltaOf(enc, es, k)) == es[k].id
  {
    assert k >= 1 ==> Follows(enc, es, k);
  }

  lemma OffsetEnd(enc: Encoding, es: seq<Entry>)
    requires Chain(enc, es)
    ensures Offset(enc, es, 0) == 0 && Offset(enc, es, |es|) == |Encoded(enc, es)|
  {
    hide Chain, Code;
    Tape.OffsetEnds(Codes(enc, es));
  }

  lemma ParseStep(enc: Encoding, first: nat, last: nat, s: seq<byte>)
    requires var d := DecodeRecord(enc, s); d.Decoded? && 0 < d.used <= |s|
    ensures var d := DecodeRecord(enc, s);
            var id := NextId(enc, first, last, d.delta);
            Parse(enc, first, last, s) == [Entry(id, d.rec)] + Parse(enc, first, id, s[d.used..])
  {
    hide DecodeRecord, NextId;
  }

  lemma {:induction false} ParseFrom(enc: Encoding, es: seq<Entry>, k: nat)
    requires Chain(enc, es) && k <= |es| && es != []
    ensures Offset(enc, es, k) <= |Encoded(enc, es)|
    ensures Parse(enc, es[0].id, Before(es, k), Encoded(enc, es)[Offset(enc, es, k)..]) == es[k..]
    decreases |es| - k
  {
    hide Chain, Encoded, DecodeRecord, DeltaOf, NextId, Code;
    var s := Encoded(enc, es);
    if k == |es| {
      assert Offset(enc, es, k) == |s| by { OffsetEnd(enc, es); }
    } else {
      DecodeAt(enc, es, k);
      IdAt(enc, es, k);
      ParseFrom(enc, es, k + 1);
      ParseStep(enc, es[0].id, Before(es, k), s[Offset(enc, es, k)..]);
      assert s[Offset(enc, es, k)..][Offset(enc, es, k + 1) - Offset(enc, es, k)..] == s[Offset(enc, es, k + 1)..];
      assert es[k..] == [es[k]] + es[k + 1..];
    }
  }

  /** Decoding a block gives back the entries it was built from, in order and with their records. */
  lemma MakeRoundTrip(enc: Encoding, es: seq<Entry>)
    requires Chain(enc, es) && es != []
    ensures Contents(enc, Make(enc, es)) == es && WellFormed(enc, Make(enc, es))
  {
    Tape.OffsetEnds(Codes(enc, es));
    ParseFrom(enc, es, 0);
  }
}
