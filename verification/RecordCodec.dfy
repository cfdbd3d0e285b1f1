/** One index record: every storage layout of the inverted index, its encoder and its decoder. */
module RecordCodec {
  import opened Bytes
  import Qint
  import Varint
  import NumericCodec

  /** What an entry stores beside its document id. */
  datatype Record = Record(freq: nat, mask: nat, offsets: seq<byte>, num: NumericCodec.Value)

  datatype Encoding =
    | Full | FullWide
    | FreqsFields | FreqsFieldsWide
    | FreqsOnly
    | FieldsOnly | FieldsOnlyWide
    | FieldsOffsets | FieldsOffsetsWide
    | OffsetsOnly | FreqsOffsets
    | DocIdsOnly | RawDocIds
    | Numeric

  predicate ValidRecord(r: Record) {
    r.freq < TWO_32 && r.mask < TWO_128 && |r.offsets| < TWO_32 && NumericCodec.ValidValue(r.num)
  }

  predicate HasFreq(enc: Encoding) {
    enc.Full? || enc.FullWide? || enc.FreqsFields? || enc.FreqsFieldsWide? || enc.FreqsOnly? || enc.FreqsOffsets?
  }

  predicate HasMask(enc: Encoding) {
    enc.Full? || enc.FreqsFields? || enc.FieldsOnly? || enc.FieldsOffsets?
  }

  predicate HasWideMask(enc: Encoding) {
    enc.FullWide? || enc.FreqsFieldsWide? || enc.FieldsOnlyWide? || enc.FieldsOffsetsWide?
  }

  predicate HasOffsets(enc: Encoding) {
    enc.Full? || enc.FullWide? || enc.FieldsOffsets? || enc.FieldsOffsetsWide? || enc.OffsetsOnly? || enc.FreqsOffsets?
  }

  /** The record as the layout keeps it: absent parts at their default, a narrow mask cut to 32 bits. */
  function Project(enc: Encoding, r: Record): Record {
    Record(if HasFreq(enc) then r.freq else 1,
           if HasMask(enc) then r.mask % TWO_32 else if HasWideMask(enc) then r.mask else 0,
           if HasOffsets(enc) then r.offsets else [],
           if enc.Numeric? then r.num else NumericCodec.Whole(0))
  }

  /** The layouts that start with a qint group. */
  predicate UsesQint(enc: Encoding) {
    !(enc.FieldsOnlyWide? || enc.DocIdsOnly? || enc.RawDocIds? || enc.Numeric?)
  }

  /** The qint group: delta, then frequency, narrow mask and offsets length, as far as the layout has them. */
  function Ints(enc: Encoding, delta: nat, r: Record): (vs: seq<nat>)
    requires delta < TWO_32 && ValidRecord(r)
    ensures Qint.AllU32(vs) && |vs| == IntCount(enc) <= 4
  {
    [delta] + (if HasFreq(enc) then [r.freq] else [])
    + (if HasMask(enc) then [r.mask % TWO_32] else [])
    + (if HasOffsets(enc) then [|r.offsets|] else [])
  }

  function IntCount(enc: Encoding): nat {
    1 + (if HasFreq(enc) then 1 else 0) + (if HasMask(enc) then 1 else 0) + (if HasOffsets(enc) then 1 else 0)
  }

  function MaskBytes(enc: Encoding, r: Record): seq<byte> {
    if HasWideMask(enc) then Varint.Encode(r.mask) else []
  }

  function OffsetBytes(enc: Encoding, r: Record): seq<byte> {
    if HasOffsets(enc) then r.offsets else []
  }

  function Tail(enc: Encoding, r: Record): seq<byte> {
    MaskBytes(enc, r) + OffsetBytes(enc, r)
  }

  function EncodeRecord(enc: Encoding, delta: nat, r: Record): (s: seq<byte>)
    requires delta < TWO_32 && ValidRecord(r)
    ensures |s| >= 1
  {
    if enc.Numeric? then NumericCodec.Encode(delta, r.num)
    else if enc.RawDocIds? then FixedLE(delta, 4)
    else if enc.DocIdsOnly? then Varint.Encode(delta)
    else if enc.FieldsOnlyWide? then Varint.Encode(delta) + Varint.Encode(r.mask)
    else Qint.Encode(Ints(enc, delta, r)) + Tail(enc, r)
  }

  /** A decoded record: the delta, the stored parts, and how many bytes it took. */
  datatype Decoded = Malformed | Decoded(delta: nat, rec: Record, used: nat)

  const BLANK := Record(1, 0, [], NumericCodec.Whole(0))

  /** The tail after the qint group: a wide mask, then as many offset bytes as the group said. */
  function DecodeTail(enc: Encoding, vs: seq<nat>, s: seq<byte>, used: nat): Decoded
    requires UsesQint(enc) && |vs| == IntCount(enc)
  {
    var wide := if HasWideMask(enc) then Varint.Decode(s, TWO_128) else Some((0, 0));
    if wide.None? then Malformed
    else
      var n := if HasOffsets(enc) then vs[|vs| - 1] else 0;
      var at := wide.value.1;
      if |s| < at + n then Malformed
      else
        Decoded(vs[0],
                Record(if HasFreq(enc) then vs[1] else 1,
                       if HasMask(enc) then vs[if HasFreq(enc) then 2 else 1] else wide.value.0,
                       s[at..at + n], NumericCodec.Whole(0)),
                used + at + n)
  }

  function DecodeRecord(enc: Encoding, s: seq<byte>): Decoded {
    if enc.Numeric? then
      match NumericCodec.Decode(s)
      case None => Malformed
      case Some((delta, v, used)) => Decoded(delta, BLANK.(num := v), used)
    else if enc.RawDocIds? then
      if |s| < 4 then Malformed else Decoded(FromLE(s[..4]), BLANK, 4)
    else if enc.DocIdsOnly? then
      match Varint.Decode(s, TWO_32)
      case None => Malformed
      case Some((delta, used)) => Decoded(delta, BLANK, used)
    else if enc.FieldsOnlyWide? then
      match Varint.Decode(s, TWO_32)
      case None => Malformed
      case Some((delta, used)) =>
        if used > |s| then Malformed
        else
          match Varint.Decode(s[used..], TWO_128)
          case None => Malformed
          case Some((mask, more)) => Decoded(delta, BLANK.(mask := mask), used + more)
    else
      var ints := Qint.Decode(s, IntCount(enc));
      if ints.NoNumbers? || ints.used > |s| then Malformed
      else DecodeTail(enc, ints.vs, s[ints.used..], ints.used)
  }

  lemma TailRoundTrip(enc: Encoding, delta: nat, r: Record, used: nat, rest: seq<byte>)
    requires UsesQint(enc) && delta < TWO_32 && ValidRecord(r)
    ensures DecodeTail(enc, Ints(enc, delta, r), Tail(enc, r) + rest, used)
            == Decoded(delta, Project(enc, r), used + |Tail(enc, r)|)
  {
    var m, o := MaskBytes(enc, r), OffsetBytes(enc, r);
    if HasWideMask(enc) {
      Varint.RoundTrip(r.mask, o + rest, TWO_128);
    }
    assert m + o + rest == m + (o + rest);
    assert (m + o + rest)[|m|..|m| + |o|] == o;
  }

  lemma RawRoundTrip(delta: nat, r: Record, rest: seq<byte>)
    requires delta < TWO_32 && ValidRecord(r)
    ensures DecodeRecord(RawDocIds, EncodeRecord(RawDocIds, delta, r) + rest) == Decoded(delta, BLANK, 4)
  {
    var d := FixedLE(delta, 4);
    FixedU32(delta);
    assert (d + rest)[..4] == d;
  }

  lemma WideFieldsRoundTrip(delta: nat, r: Record, rest: seq<byte>)
    requires delta < TWO_32 && ValidRecord(r)
    ensures var s := EncodeRecord(FieldsOnlyWide, delta, r);
            DecodeRecord(FieldsOnlyWide, s + rest) == Decoded(delta, BLANK.(mask := r.mask), |s|)
  {
    var d, m := Varint.Encode(delta), Varint.Encode(r.mask);
    Varint.RoundTrip(delta, m + rest, TWO_32);
    Varint.RoundTrip(r.mask, rest, TWO_128);
    assert d + m + rest == d + (m + rest);
    assert (d + (m + rest))[|d|..] == m + rest;
  }

  lemma DecodeGroup(enc: Encoding, q: seq<byte>, t: seq<byte>, rest: seq<byte>, vs: seq<nat>)
    requires UsesQint(enc) && Qint.Decode(q + (t + rest), IntCount(enc)) == Qint.Numbers(vs, |q|)
    ensures DecodeRecord(enc, q + t + rest) == DecodeTail(enc, vs, t + rest, |q|)
  {
    assert q + t + rest == q + (t + rest);
    assert (q + (t + rest))[|q|..] == t + rest;
  }

  lemma QintRoundTrip(enc: Encoding, delta: nat, r: Record, rest: seq<byte>)
    requires UsesQint(enc) && delta < TWO_32 && ValidRecord(r)
    ensures var s := EncodeRecord(enc, delta, r);
            DecodeRecord(enc, s + rest) == Decoded(delta, Project(enc, r), |s|)
  {
    hide DecodeRecord, DecodeTail, Qint.Decode, Qint.Encode, Tail, Project;
    var vs := Ints(enc, delta, r);
    Qint.RoundTrip(vs, Tail(enc, r) + rest);
    DecodeGroup(enc, Qint.Encode(vs), Tail(enc, r), rest, vs);
    TailRoundTrip(enc, delta, r, |Qint.Encode(vs)|, rest);
  }

  /**
   * Every layout: the decoder gives back the delta and the stored parts of the record, and uses
   * exactly the bytes the encoder wrote, whatever follows them.
   */
  lemma RoundTrip(enc: Encoding, delta: nat, r: Record, rest: seq<byte>)
    requires delta < TWO_32 && ValidRecord(r)
    ensures var s := EncodeRecord(enc, delta, r);
            DecodeRecord(enc, s + rest) == Decoded(delta, Project(enc, r), |s|)
  {
    match enc
    case Numeric => NumericCodec.RoundTrip(delta, r.num, rest);
    case RawDocIds => RawRoundTrip(delta, r, rest);
    case DocIdsOnly => Varint.RoundTrip(delta, rest, TWO_32);
    case FieldsOnlyWide => WideFieldsRoundTrip(delta, r, rest);
    case _ => QintRoundTrip(enc, delta, r, rest);
  }

  /** Projecting twice is projecting once, so a decoded record re-encodes to itself. */
  lemma ProjectIdempotent(enc: Encoding, r: Record)
    ensures Project(enc, Project(enc, r)) == Project(enc, r)
    ensures ValidRecord(r) ==> ValidRecord(Project(enc, r))
  {
  }
}
