/**
 * The numeric record: a header byte (delta byte count, value kind, kind-specific bits), then the
 * delta bytes, then the value bytes.
 */
module NumericCodec {
  import opened Bytes

  /**
   * A double, as the encoder classifies it. Floats that are neither whole numbers below 2^64 nor
   * infinite carry the byte pattern of their absolute value: four bytes when a single-precision
   * number holds it exactly, else eight. Negative zero is the number zero.
   */
  datatype Value =
    | Whole(n: int)
    | Infinite(negative: bool)
    | Single(negative: bool, pattern: seq<byte>)
    | Double(negative: bool, pattern: seq<byte>)

  predicate ValidValue(v: Value) {
    match v
    case Whole(n) => -(TWO_64 as int) < n < TWO_64
    case Infinite(_) => true
    case Single(_, p) => |p| == 4
    case Double(_, p) => |p| == 8
  }

  const TINY := 0
  const FLOAT := 1
  const POSITIVE_INT := 2
  const NEGATIVE_INT := 3
  const TINY_MAX := 7

  function Abs(n: int): nat { if n < 0 then -n else n }

  /** The two type bits and the three specific bits of the header. */
  function Kind(v: Value): (int, int)
    requires ValidValue(v)
  {
    match v
    case Whole(n) =>
      if 0 <= n <= TINY_MAX then (TINY, n)
      else (if n < 0 then NEGATIVE_INT else POSITIVE_INT, |ShortLE(Abs(n))| - 1)
    case Infinite(neg) => (FLOAT, 1 + if neg then 2 else 0)
    case Single(neg, _) => (FLOAT, if neg then 2 else 0)
    case Double(neg, _) => (FLOAT, 4 + if neg then 2 else 0)
  }

  function ValueBytes(v: Value): seq<byte>
    requires ValidValue(v)
  {
    match v
    case Whole(n) => if 0 <= n <= TINY_MAX then [] else ShortLE(Abs(n))
    case Infinite(_) => []
    case Single(_, p) => p
    case Double(_, p) => p
  }

  lemma HeaderBits(delta: nat, v: Value)
    requires delta < TWO_32 && ValidValue(v)
    ensures |SparseLE(delta)| <= 4
    ensures 0 <= Kind(v).0 <= 3 && 0 <= Kind(v).1 <= 7
  {
    ShortU32(delta);
    if v.Whole? {
      ShortU64(Abs(v.n));
    }
  }

  function Header(delta: nat, v: Value): (b: byte)
    requires delta < TWO_32 && ValidValue(v)
  {
    HeaderBits(delta, v);
    |SparseLE(delta)| + 8 * Kind(v).0 + 32 * Kind(v).1
  }

  function Encode(delta: nat, v: Value): (s: seq<byte>)
    requires delta < TWO_32 && ValidValue(v)
    ensures |s| >= 1
  {
    [Header(delta, v)] + SparseLE(delta) + ValueBytes(v)
  }

  /** The value part of the reader's switch; also how many bytes it takes. */
  function DecodeValue(kind: int, specific: int, s: seq<byte>): Option<(Value, nat)>
    requires 0 <= kind <= 3 && 0 <= specific <= 7
  {
    if kind == FLOAT then
      var negative := specific / 2 % 2 == 1;
      if specific % 2 == 1 then Some((Infinite(negative), 0))
      else if specific / 4 == 1 then
        if |s| < 8 then None else Some((Double(negative, s[..8]), 8))
      else
        if |s| < 4 then None else Some((Single(negative, s[..4]), 4))
    else if kind == TINY then Some((Whole(specific), 0))
    else if |s| < specific + 1 then None
    else
      var n: int := FromLE(s[..specific + 1]);
      Some((Whole(if kind == NEGATIVE_INT then -n else n), specific + 1))
  }

  function Decode(s: seq<byte>): Option<(nat, Value, nat)> {
    if s == [] then None
    else
      var d := s[0] % 8;
      if |s| < 1 + d then None
      else
        match DecodeValue(s[0] / 8 % 4, s[0] / 32, s[1 + d..])
        case None => None
        case Some((v, n)) => Some((FromLE(s[1..1 + d]), v, 1 + d + n))
  }

  lemma ValueRoundTrip(v: Value, rest: seq<byte>)
    requires ValidValue(v)
    ensures 0 <= Kind(v).0 <= 3 && 0 <= Kind(v).1 <= 7
    ensures DecodeValue(Kind(v).0, Kind(v).1, ValueBytes(v) + rest) == Some((v, |ValueBytes(v)|))
  {
    HeaderBits(0, v);
    var s := ValueBytes(v) + rest;
    match v
    case Whole(n) =>
      if !(0 <= n <= TINY_MAX) {
        ShortU64(Abs(n));
        assert s[..|ShortLE(Abs(n))|] == ShortLE(Abs(n));
      }
    case Infinite(_) =>
    case Single(_, p) => assert s[..4] == p;
    case Double(_, p) => assert s[..8] == p;
  }

  lemma HeaderFields(d: nat, kind: nat, specific: nat)
    requires d < 8 && kind < 4
    ensures var h := d + 8 * kind + 32 * specific; h % 8 == d && h / 8 % 4 == kind && h / 32 == specific
  {
  }

  lemma RoundTrip(delta: nat, v: Value, rest: seq<byte>)
    requires delta < TWO_32 && ValidValue(v)
    ensures Decode(Encode(delta, v) + rest) == Some((delta, v, |Encode(delta, v)|))
  {
    hide SparseLE, FromLE, Kind, ValueBytes, DecodeValue;
    HeaderBits(delta, v);
    ValueRoundTrip(v, rest);
    var ds, vs := SparseLE(delta), ValueBytes(v);
    HeaderFields(|ds|, Kind(v).0, Kind(v).1);
    Pieces(Header(delta, v), ds, vs, rest);
    DeltaRoundTrip(delta);
  }

  lemma Pieces(h: byte, ds: seq<byte>, vs: seq<byte>, rest: seq<byte>)
    ensures var s := [h] + ds + vs + rest;
            s[0] == h && s[1..1 + |ds|] == ds && s[1 + |ds|..] == vs + rest
  {
  }

  lemma DeltaRoundTrip(delta: nat)
    requires delta < TWO_32
    ensures FromLE(SparseLE(delta)) == delta
  {
    if delta != 0 { ShortU32(delta); }
  }
}
