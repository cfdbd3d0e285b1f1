/**
 * What arrives of a collected range's sample: the sum of the sampled values' whole parts, each read as the
 * bit pattern of a double.
 */
module NumericSample {
  import opened Bytes
  import opened NumericRanges

  const TWO_52: nat := 0x10_0000_0000_0000
  const TWO_62: nat := 0x4000_0000_0000_0000
  /** From here on bit patterns are infinite, no numbers, or negative. */
  const NOT_FINITE: nat := 0x7FF0_0000_0000_0000

  function Pow2(n: nat): (p: nat)
    ensures p >= 1
  {
    if n == 0 then 1 else 2 * Pow2(n - 1)
  }

  function Exp2(k: int): (x: real)
    ensures x > 0.0
  {
    if k >= 0 then Pow2(k) as real else 1.0 / (Pow2(-k) as real)
  }

  lemma Product(a: real, b: real)
    ensures a >= 0.0 && b >= 0.0 ==> a * b >= 0.0
  {
  }

  /** The double with this bit pattern: eleven bits of exponent and fifty-two of mantissa. */
  function Reinterpreted(u: nat): (x: real)
    requires u < NOT_FINITE
    ensures x >= 0.0
  {
    var e, m := u / TWO_52, u % TWO_52;
    var (whole, scale) := if e == 0 then (m as real, Exp2(-1074)) else ((TWO_52 + m) as real, Exp2(e - 1075));
    Product(whole, scale);
    whole * scale
  }

  /** A value that survives the conversion to an unsigned number and arrives as a finite one. */
  predicate Sends(v: real) {
    0.0 <= v < NOT_FINITE as real
  }

  function Key(v: real): (k: nat)
    requires Sends(v)
    ensures k < NOT_FINITE && k as real <= v
  {
    v.Floor
  }

  /** The child samples the first entry it finds alive, and every tenth after it. */
  function Sampled(es: seq<NumEntry>): (r: seq<NumEntry>)
    ensures |r| <= |es| && forall i :: 0 <= i < |r| ==> r[i] in es
    decreases |es|
  {
    if es == [] then []
    else
      var rest := if |es| > CARD_CHECK then es[CARD_CHECK..] else [];
      [es[0]] + Sampled(rest)
  }

  predicate AllSend(es: seq<NumEntry>) {
    forall i :: 0 <= i < |es| ==> Sends(es[i].value)
  }

  predicate HasKey(es: seq<NumEntry>, k: nat)
    requires AllSend(es)
  {
    exists i :: 0 <= i < |es| && Key(es[i].value) == k
  }

  /** The sum over the different keys. */
  function SentSum(es: seq<NumEntry>): (x: real)
    requires AllSend(es)
    ensures x >= 0.0
  {
    if es == [] then 0.0
    else
      var n := |es| - 1;
      var k := Key(es[n].value);
      SentSum(es[..n]) + if HasKey(es[..n], k) then 0.0 else Reinterpreted(k)
  }

  lemma {:induction false} PowersGrow(n: nat, m: nat)
    requires n <= m
    ensures Pow2(n) <= Pow2(m)
  {
    if n < m { PowersGrow(n, m - 1); }
  }

  lemma Pow2At52()
    ensures Pow2(52) == TWO_52
  {
    assert Pow2(10) == 1024;
    assert Pow2(20) == 1024 * 1024;
    assert Pow2(30) == 1024 * 1024 * 1024;
    assert Pow2(40) == 1024 * 1024 * 1024 * 1024;
    assert Pow2(50) == 1024 * 1024 * 1024 * 1024 * 1024;
  }

  lemma Quotients(a: real, p: real, b: real)
    requires 0.0 <= a < 2.0 * b && 0.0 < b <= p
    ensures a * (1.0 / p) < 2.0
  {
    assert a * (1.0 / p) == a / p;
    assert 2.0 * p / p == 2.0;
  }

  /** Whole numbers below 2^62 arrive as less than 2. */
  lemma SmallArrives(u: nat)
    requires u < TWO_62
    ensures Reinterpreted(u) < 2.0
  {
    hide Pow2;
    var e, m := u / TWO_52, u % TWO_52;
    Pow2At52();
    assert e <= 1023;
    var k: nat := if e == 0 then 1074 else 1075 - e;
    PowersGrow(52, k);
    Quotients(if e == 0 then m as real else (TWO_52 + m) as real, Pow2(k) as real, TWO_52 as real);
  }

  lemma {:induction false} SmallSums(es: seq<NumEntry>)
    requires AllSend(es) && forall i :: 0 <= i < |es| ==> es[i].value < TWO_62 as real
    ensures SentSum(es) <= 2.0 * (|es| as real)
  {
    hide Reinterpreted, HasKey;
    if es != [] {
      var n := |es| - 1;
      SmallSums(es[..n]);
      SmallArrives(Key(es[n].value));
    }
  }

  /** How far the sampled values lie below a bound, together. */
  ghost function RoomBelow(vs: seq<Sample>, hi: real): real {
    hi * (|vs| as real) - Sum(vs)
  }

  lemma QuotientBounds(sum: real, n: real, x: real)
    requires n > 0.0
    ensures x * n <= sum <==> x <= sum / n
    ensures sum <= x * n <==> sum / n <= x
  {
    assert sum == (sum / n) * n;
    if x <= sum / n { assert x * n <= (sum / n) * n; }
    if sum / n <= x { assert (sum / n) * n <= x * n; }
    Quotient(sum, n, x);
  }

  /** The split value is inside if and only if the excess of the sum fits between the sampled values and the bounds. */
  lemma InsideIff(r: Range, lo: Option<real>, hi: Option<real>)
    requires r.card > 0 && r.card == |r.values|
    ensures Between(SplitValue(r), lo, hi) <==>
            && (lo.Some? ==> RoomBelow(r.values, lo.value) <= Excess(r))
            && (hi.Some? ==> Excess(r) <= RoomBelow(r.values, hi.value))
  {
    hide Sum;
    if lo.Some? { QuotientBounds(r.uniqueSum, r.card as real, lo.value); }
    if hi.Some? { QuotientBounds(r.uniqueSum, r.card as real, hi.value); }
  }

  /**
   * For a collected range whose sampled values are sent as finite numbers the condition is about values
   * only: what they arrive as, together, is at most what the values sampled since then lie below the bound.
   * If they were below 2^62, two for each is room enough. Without an upper bound it always is inside.
   */
  lemma CollectedSplits(r: Range, seen: seq<NumEntry>, lo: Option<real>, hi: Option<real>)
    requires WfRange(r) && RangeInside(r, lo, hi) && r.card > 0
    requires AllSend(Sampled(seen)) && Excess(r) == SentSum(Sampled(seen))
    ensures Between(SplitValue(r), lo, hi) <==> (hi.Some? ==> SentSum(Sampled(seen)) <= RoomBelow(r.values, hi.value))
    ensures (forall i :: 0 <= i < |seen| ==> seen[i].value < TWO_62 as real)
            && (hi.Some? ==> 2.0 * (|Sampled(seen)| as real) <= RoomBelow(r.values, hi.value))
            ==> Between(SplitValue(r), lo, hi)
  {
    hide Sum, SplitValue, SentSum, Excess, RoomBelow, WfRange, Between, Sampled;
    assert r.card == |r.values| by { SampleCounted(r); }
    InsideIff(r, lo, hi);
    if lo.Some? { NoRoomBelow(r, lo, hi); }
    if forall i :: 0 <= i < |seen| ==> seen[i].value < TWO_62 as real {
      SampledSmall(seen);
      SmallSums(Sampled(seen));
    }
  }

  lemma SampleCounted(r: Range)
    requires WfRange(r)
    ensures r.card == |r.values|
  {
  }

  /** No sampled value is below the lower bound. */
  lemma NoRoomBelow(r: Range, lo: Option<real>, hi: Option<real>)
    requires RangeInside(r, lo, hi) && lo.Some?
    ensures RoomBelow(r.values, lo.value) <= 0.0
  {
    hide Sum;
    SumBounds(r.values, lo.value, true);
  }

  lemma SampledSmall(seen: seq<NumEntry>)
    requires forall i :: 0 <= i < |seen| ==> seen[i].value < TWO_62 as real
    ensures forall i :: 0 <= i < |Sampled(seen)| ==> Sampled(seen)[i].value < TWO_62 as real
  {
    forall i | 0 <= i < |Sampled(seen)| ensures Sampled(seen)[i].value < TWO_62 as real {
      assert Sampled(seen)[i] in seen;
    }
  }
}
