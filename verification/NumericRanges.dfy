/** Numeric ranges: a list of (document, value) entries with bounds on the values and a sample of them. */
module NumericRanges {
  import opened Bytes

  datatype NumEntry = NumEntry(docId: nat, value: real)

  datatype Sample = Sample(value: real, appearances: nat)

  /** numEntries is the index's own count of its entries. */
  datatype Range = Range(minVal: real, maxVal: real, entries: seq<NumEntry>, values: seq<Sample>,
                         uniqueSum: real, card: nat, cardCheck: nat, splitCard: nat, numEntries: nat)

  /** Every tenth value is looked at for the sample. */
  const CARD_CHECK: nat := 10
  const EXPONENT: nat := 4
  const MAXRANGE_CARD: nat := 2500
  const MAXRANGE_SIZE: nat := 10000

  // The largest and the smallest positive double, where an empty range's bounds start.
  const DBL_MAX: real := 179769313486231570814527423731704356798070567525844996598917476803157260780028538760589558632766878171540458953514382464234321326889464182768467546703537516986049910576551282076245490090389328944075868508455133942304583236903222948165808559332123348274797826204144723168738177180919299881250404026184124858368.0
  const DBL_MIN: real := 1.0 / 44942328371557897693232629769725618340449424473557664318357520289433168951375240783177119330601884005280028469967848339414697442203604155623211857659868531094441973356216371319075554900311523529863270738021251442209537670585615720368478277635206809290837627671146574559986811484619929076208839082406056034304.0

  function NewRange(splitCard: nat): Range {
    Range(DBL_MAX, DBL_MIN, [], [], 0.0, 0, CARD_CHECK, splitCard, 0)
  }

  ghost function Sum(vs: seq<Sample>): real {
    if vs == [] then 0.0 else Sum(vs[..|vs| - 1]) + vs[|vs| - 1].value
  }

  /** The entries' values are within the bounds, and the sample counts each value once. */
  ghost predicate WfRange(r: Range) {
    && (forall i :: 0 <= i < |r.entries| ==> r.minVal <= r.entries[i].value <= r.maxVal)
    && (forall i, j :: 0 <= i < j < |r.values| ==> r.values[i].value != r.values[j].value)
    && r.card == |r.values| && 1 <= r.cardCheck <= CARD_CHECK && r.splitCard >= 1
  }

  /** What the recorded sum has beside the sampled values. It is zero until the range is collected. */
  ghost function Excess(r: Range): real {
    r.uniqueSum - Sum(r.values)
  }

  /** The summary of a range that was never collected. */
  ghost predicate Exact(r: Range) {
    Excess(r) == 0.0 && r.numEntries == |r.entries|
  }

  /** A value in the half-open interval between two optional bounds. */
  predicate Inside(x: real, lo: Option<real>, hi: Option<real>) {
    (lo.Some? ==> lo.value <= x) && (hi.Some? ==> x < hi.value)
  }

  /** All entries and all sampled values are in the interval. */
  ghost predicate RangeInside(r: Range, lo: Option<real>, hi: Option<real>) {
    && (forall i :: 0 <= i < |r.entries| ==> Inside(r.entries[i].value, lo, hi))
    && (forall i :: 0 <= i < |r.values| ==> Inside(r.values[i].value, lo, hi))
  }

  /** Entries are in id order, up to last. */
  ghost predicate IdOrdered(es: seq<NumEntry>, last: nat) {
    && (forall i :: 0 <= i < |es| ==> es[i].docId <= last)
    && (forall i :: 1 <= i < |es| ==> es[i - 1].docId <= es[i].docId)
  }

  /** Where a value is in the sample, if it is. */
  function FindSample(vs: seq<Sample>, value: real, i: nat): (r: Option<nat>)
    requires i <= |vs|
    ensures r.Some? ==> r.value < |vs| && vs[r.value].value == value
    ensures r.None? ==> forall j :: i <= j < |vs| ==> vs[j].value != value
    decreases |vs| - i
  {
    if i == |vs| then None else if vs[i].value == value then Some(i) else FindSample(vs, value, i + 1)
  }

  /** Look at every tenth value: count it again, or add it to the sample. */
  function CheckCardinality(r: Range, value: real): Range {
    if r.cardCheck != 1 then r.(cardCheck := if r.cardCheck == 0 then 0 else r.cardCheck - 1)
    else
      match FindSample(r.values, value, 0)
      case Some(i) => r.(cardCheck := CARD_CHECK, values := r.values[i := Sample(value, r.values[i].appearances + 1)])
      case None =>
        r.(cardCheck := CARD_CHECK, values := r.values + [Sample(value, 1)], uniqueSum := r.uniqueSum + value, card := r.card + 1)
  }

  /** Append an entry and stretch the bounds. */
  function AddTo(r: Range, e: NumEntry, checkCard: bool): (r': Range)
    ensures r'.entries == r.entries + [e] && r'.splitCard == r.splitCard && r'.numEntries == r.numEntries + 1
  {
    var c := if checkCard then CheckCardinality(r, e.value) else r;
    c.(minVal := if e.value < c.minVal then e.value else c.minVal,
       maxVal := if e.value > c.maxVal then e.value else c.maxVal,
       entries := c.entries + [e], numEntries := c.numEntries + 1)
  }

  lemma {:induction false} SumUpdate(vs: seq<Sample>, i: nat, s: Sample)
    requires i < |vs| && s.value == vs[i].value
    ensures Sum(vs[i := s]) == Sum(vs)
  {
    var n := |vs| - 1;
    if i == n {
      assert vs[i := s][..n] == vs[..n];
    } else {
      SumUpdate(vs[..n], i, s);
      assert vs[i := s][..n] == vs[..n][i := s];
    }
  }

  lemma SumSnoc(vs: seq<Sample>, s: Sample)
    ensures Sum(vs + [s]) == Sum(vs) + s.value
  {
    assert (vs + [s])[..|vs|] == vs;
  }

  lemma CheckKeeps(r: Range, value: real, lo: Option<real>, hi: Option<real>)
    requires WfRange(r) && RangeInside(r, lo, hi) && Inside(value, lo, hi)
    ensures WfRange(CheckCardinality(r, value)) && RangeInside(CheckCardinality(r, value), lo, hi)
    ensures Excess(CheckCardinality(r, value)) == Excess(r)
  {
    hide Sum;
    if r.cardCheck == 1 {
      match FindSample(r.values, value, 0)
      case Some(i) => SumUpdate(r.values, i, Sample(value, r.values[i].appearances + 1));
      case None => SumSnoc(r.values, Sample(value, 1));
    }
  }

  lemma AddKeeps(r: Range, e: NumEntry, checkCard: bool, lo: Option<real>, hi: Option<real>)
    requires WfRange(r) && RangeInside(r, lo, hi) && Inside(e.value, lo, hi)
    ensures WfRange(AddTo(r, e, checkCard)) && RangeInside(AddTo(r, e, checkCard), lo, hi)
    ensures Excess(AddTo(r, e, checkCard)) == Excess(r)
  {
    hide Sum, CheckCardinality;
    if checkCard { CheckKeeps(r, e.value, lo, hi); }
    var c := if checkCard then CheckCardinality(r, e.value) else r;
    assert c.entries == r.entries by { CheckEntries(r, e.value); }
  }

  lemma CheckEntries(r: Range, value: real)
    ensures var c := CheckCardinality(r, value);
            c.entries == r.entries && c.splitCard == r.splitCard && c.numEntries == r.numEntries
  {
  }

  lemma AddIds(r: Range, e: NumEntry, checkCard: bool, last: nat)
    requires IdOrdered(r.entries, last) && last <= e.docId
    ensures IdOrdered(AddTo(r, e, checkCard).entries, e.docId)
  {
    hide CheckCardinality;
  }

  /** Add entries one after the other. */
  function Fill(r: Range, es: seq<NumEntry>): (r': Range)
    ensures r'.entries == r.entries + es && r'.splitCard == r.splitCard && r'.numEntries == r.numEntries + |es|
  {
    if es == [] then r
    else
      assert r.entries + es[..|es| - 1] + [es[|es| - 1]] == r.entries + es;
      AddTo(Fill(r, es[..|es| - 1]), es[|es| - 1], true)
  }

  lemma {:induction false} FillKeeps(r: Range, es: seq<NumEntry>, lo: Option<real>, hi: Option<real>)
    requires WfRange(r) && RangeInside(r, lo, hi) && forall i :: 0 <= i < |es| ==> Inside(es[i].value, lo, hi)
    ensures WfRange(Fill(r, es)) && RangeInside(Fill(r, es), lo, hi)
    ensures Excess(Fill(r, es)) == Excess(r)
  {
    hide WfRange, RangeInside, AddTo, Excess;
    if es != [] {
      FillKeeps(r, es[..|es| - 1], lo, hi);
      AddKeeps(Fill(r, es[..|es| - 1]), es[|es| - 1], true, lo, hi);
    }
  }

  /** How often sampled values were seen. */
  ghost function Seen(vs: seq<Sample>): nat {
    if vs == [] then 0 else Seen(vs[..|vs| - 1]) + vs[|vs| - 1].appearances
  }

  lemma {:induction false} SeenAgain(vs: seq<Sample>, i: nat)
    requires i < |vs|
    ensures Seen(vs[i := Sample(vs[i].value, vs[i].appearances + 1)]) == Seen(vs) + 1
  {
    var n, s := |vs| - 1, Sample(vs[i].value, vs[i].appearances + 1);
    if i == n {
      assert vs[i := s][..n] == vs[..n];
    } else {
      SeenAgain(vs[..n], i);
      assert vs[i := s][..n] == vs[..n][i := s];
    }
  }

  lemma SeenNew(vs: seq<Sample>, s: Sample)
    ensures Seen(vs + [s]) == Seen(vs) + s.appearances
  {
    assert (vs + [s])[..|vs|] == vs;
  }

  lemma CheckSeen(r: Range, value: real)
    requires 1 <= r.cardCheck <= CARD_CHECK
    ensures var c := CheckCardinality(r, value);
            if r.cardCheck == 1 then c.cardCheck == CARD_CHECK && Seen(c.values) == Seen(r.values) + 1
            else c.cardCheck == r.cardCheck - 1 && c.values == r.values
  {
    hide Seen;
    if r.cardCheck == 1 {
      match FindSample(r.values, value, 0)
      case Some(i) => SeenAgain(r.values, i);
      case None => SeenNew(r.values, Sample(value, 1));
    }
  }

  lemma Tenth(n: nat)
    ensures n % CARD_CHECK == CARD_CHECK - 1 ==> (n + 1) % CARD_CHECK == 0 && (n + 1) / CARD_CHECK == n / CARD_CHECK + 1
    ensures n % CARD_CHECK != CARD_CHECK - 1 ==> (n + 1) % CARD_CHECK == n % CARD_CHECK + 1 && (n + 1) / CARD_CHECK == n / CARD_CHECK
  {
  }

  /** Exactly every tenth entry is sampled. */
  lemma {:induction false} EveryTenth(splitCard: nat, es: seq<NumEntry>)
    ensures var r := Fill(NewRange(splitCard), es);
            r.cardCheck == CARD_CHECK - |es| % CARD_CHECK && Seen(r.values) == |es| / CARD_CHECK
  {
    if es != [] {
      hide Seen, CheckCardinality;
      var n := |es| - 1;
      EveryTenth(splitCard, es[..n]);
      CheckSeen(Fill(NewRange(splitCard), es[..n]), es[n].value);
      Tenth(n);
    }
  }

  lemma NewRangeWf(splitCard: nat, lo: Option<real>, hi: Option<real>)
    requires splitCard >= 1
    ensures WfRange(NewRange(splitCard)) && RangeInside(NewRange(splitCard), lo, hi) && Exact(NewRange(splitCard))
  {
  }

  /** The entries on one side of a split value, in order. */
  function Part(es: seq<NumEntry>, split: real, below: bool): seq<NumEntry> {
    if es == [] then []
    else
      var n := |es| - 1;
      Part(es[..n], split, below) + if (es[n].value < split) == below then [es[n]] else []
  }

  lemma {:induction false} PartMember(es: seq<NumEntry>, split: real, below: bool, i: nat)
    requires i < |Part(es, split, below)|
    ensures Part(es, split, below)[i] in es && (Part(es, split, below)[i].value < split <==> below)
  {
    var n := |es| - 1;
    if i < |Part(es[..n], split, below)| { PartMember(es[..n], split, below, i); }
  }

  lemma OneMore(es: seq<NumEntry>, e: NumEntry)
    ensures multiset(es + [e]) == multiset(es) + multiset{e}
  {
  }

  /** One entry more goes to one of two parts of a whole. */
  lemma OnePartGrows(a: seq<NumEntry>, b: seq<NumEntry>, es: seq<NumEntry>, e: NumEntry)
    requires multiset(a) + multiset(b) == multiset(es)
    ensures multiset(a + [e]) + multiset(b) == multiset(es + [e]) && multiset(a) + multiset(b + [e]) == multiset(es + [e])
  {
    OneMore(a, e);
    OneMore(b, e);
    OneMore(es, e);
  }

  lemma PartSnoc(p: seq<NumEntry>, e: NumEntry, split: real, below: bool)
    ensures Part(p + [e], split, below) == if (e.value < split) == below then Part(p, split, below) + [e] else Part(p, split, below)
  {
    assert (p + [e])[..|p|] == p;
  }

  lemma {:induction false} PartsTogether(es: seq<NumEntry>, split: real)
    ensures multiset(Part(es, split, true)) + multiset(Part(es, split, false)) == multiset(es)
  {
    if es != [] {
      hide Part;
      var p, e := es[..|es| - 1], es[|es| - 1];
      PartsTogether(p, split);
      assert es == p + [e];
      PartSnoc(p, e, split, true);
      PartSnoc(p, e, split, false);
      OnePartGrows(Part(p, split, true), Part(p, split, false), p, e);
    }
  }

  lemma IdOrderedSnoc(es: seq<NumEntry>, e: NumEntry, last: nat)
    requires IdOrdered(es, e.docId) && e.docId <= last
    ensures IdOrdered(es + [e], last) && IdOrdered(es, last)
  {
  }

  lemma IdOrderedPrefix(es: seq<NumEntry>, last: nat)
    requires IdOrdered(es, last) && es != []
    ensures IdOrdered(es[..|es| - 1], es[|es| - 1].docId) && es[|es| - 1].docId <= last
  {
    forall i | 0 <= i < |es| ensures es[i].docId <= es[|es| - 1].docId { IdOrder(es, i, |es| - 1); }
  }

  lemma {:induction false} PartIds(es: seq<NumEntry>, split: real, below: bool, last: nat)
    requires IdOrdered(es, last)
    ensures IdOrdered(Part(es, split, below), last)
  {
    if es != [] {
      hide IdOrdered;
      var n := |es| - 1;
      IdOrderedPrefix(es, last);
      PartIds(es[..n], split, below, es[n].docId);
      IdOrderedSnoc(Part(es[..n], split, below), es[n], last);
    }
  }

  lemma {:induction false} IdOrder(es: seq<NumEntry>, i: nat, j: nat)
    requires i <= j < |es| && forall i :: 1 <= i < |es| ==> es[i - 1].docId <= es[i].docId
    ensures es[i].docId <= es[j].docId
  {
    if i < j { IdOrder(es, i, j - 1); }
  }

  function Min(a: nat, b: nat): nat { if a < b then a else b }

  /** The cardinality at which the halves of a range will split. */
  function ChildSplitCard(r: Range): nat {
    Min(MAXRANGE_CARD, 1 + r.splitCard * EXPONENT)
  }

  /** The split value is the recorded sum over the number of sampled values: their mean, if the sum is right. */
  function SplitValue(r: Range): real
    requires r.card > 0
  {
    r.uniqueSum / (r.card as real)
  }

  lemma {:induction false} SumBounds(vs: seq<Sample>, x: real, above: bool)
    requires forall i :: 0 <= i < |vs| ==> if above then x <= vs[i].value else vs[i].value <= x
    ensures if above then x * (|vs| as real) <= Sum(vs) else Sum(vs) <= x * (|vs| as real)
  {
    if vs != [] {
      var n := |vs| - 1;
      SumBounds(vs[..n], x, above);
      assert x * (|vs| as real) == x * (n as real) + x;
    }
  }

  lemma Quotient(sum: real, n: real, x: real)
    requires n > 0.0
    ensures x * n <= sum ==> x <= sum / n
    ensures sum <= x * n ==> sum / n <= x
  {
  }

  /** A value in the closed interval between two optional bounds. */
  predicate Between(x: real, lo: Option<real>, hi: Option<real>) {
    (lo.Some? ==> lo.value <= x) && (hi.Some? ==> x <= hi.value)
  }

  /** The mean of values in an interval is not outside it. */
  lemma SplitInside(r: Range, lo: Option<real>, hi: Option<real>)
    requires WfRange(r) && RangeInside(r, lo, hi) && r.card > 0 && Excess(r) == 0.0
    ensures Between(SplitValue(r), lo, hi)
  {
    hide Sum;
    if lo.Some? {
      SumBounds(r.values, lo.value, true);
      Quotient(r.uniqueSum, r.card as real, lo.value);
    }
    if hi.Some? {
      SumBounds(r.values, hi.value, false);
      Quotient(r.uniqueSum, r.card as real, hi.value);
    }
  }

  /** Distribute a range's entries over two new ranges. */
  method Split(r: Range) returns (left: Range, right: Range, split: real)
    requires r.card > 0
    ensures split == SplitValue(r)
    ensures left == Fill(NewRange(ChildSplitCard(r)), Part(r.entries, split, true))
    ensures right == Fill(NewRange(ChildSplitCard(r)), Part(r.entries, split, false))
  {
    hide AddTo, NewRange, Part, Fill, ChildSplitCard;
    split := SplitValue(r);
    left, right := NewRange(ChildSplitCard(r)), NewRange(ChildSplitCard(r));
    ghost var es := r.entries;
    PartNone(NewRange(ChildSplitCard(r)), split);
    for i := 0 to |r.entries|
      invariant left == Fill(NewRange(ChildSplitCard(r)), Part(es[..i], split, true))
      invariant right == Fill(NewRange(ChildSplitCard(r)), Part(es[..i], split, false))
    {
      var e := r.entries[i];
      PartStep(es, i, split);
      FillSnoc(NewRange(ChildSplitCard(r)), Part(es[..i], split, e.value < split), e);
      if e.value < split {
        left := AddTo(left, e, true);
      } else {
        right := AddTo(right, e, true);
      }
    }
    assert es[..|es|] == es;
  }

  lemma PartNone(r: Range, split: real)
    ensures forall below :: Fill(r, Part([], split, below)) == r
  {
  }

  lemma PartStep(es: seq<NumEntry>, i: nat, split: real)
    requires i < |es|
    ensures forall below :: var p := Part(es[..i], split, below);
                            Part(es[..i + 1], split, below) == if (es[i].value < split) == below then p + [es[i]] else p
  {
    assert es[..i + 1][..i] == es[..i];
  }

  lemma FillSnoc(r: Range, es: seq<NumEntry>, e: NumEntry)
    ensures Fill(r, es + [e]) == AddTo(Fill(r, es), e, true)
  {
    assert (es + [e])[..|es|] == es;
  }
}
