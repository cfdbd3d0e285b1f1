/** Finding the ranges for a numeric filter, and what the iterators over them yield. */
module NumericLookup {
  import opened Bytes
  import opened NumericRanges
  import opened NumericTree

  /** The bounds (none means infinite), which of them are inclusive, and the optimizer's order, limit and offset. */
  datatype Filter = Filter(min: Option<real>, max: Option<real>, inclusiveMin: bool, inclusiveMax: bool,
                           asc: bool, limit: nat, offset: nat)

  predicate AboveMin(f: Filter, x: real) {
    f.min.None? || f.min.value <= x
  }

  predicate BelowMax(f: Filter, x: real) {
    f.max.None? || x <= f.max.value
  }

  predicate Match(f: Filter, score: real) {
    && (f.min.None? || (if f.inclusiveMin then score >= f.min.value else score > f.min.value))
    && (f.max.None? || (if f.inclusiveMax then score <= f.max.value else score < f.max.value))
  }

  predicate Contained(r: Range, f: Filter) {
    AboveMin(f, r.minVal) && BelowMax(f, r.maxVal)
  }

  predicate Overlaps(r: Range, f: Filter) {
    || (f.min.Some? && r.minVal <= f.min.value <= r.maxVal)
    || (f.max.Some? && r.minVal <= f.max.value <= r.maxVal)
  }

  function NumDocs(es: seq<NumEntry>): nat {
    if es == [] then 0
    else NumDocs(es[..|es| - 1]) + if |es| > 1 && es[|es| - 2].docId == es[|es| - 1].docId then 0 else 1
  }

  function OwnRangeOf(t: Tree): Option<Range> {
    if t.Leaf? then Some(t.leafRange) else t.range
  }

  /** Collect the ranges to read, as few as possible; total counts the documents for the limit. */
  function Select(t: Tree, f: Filter, total: nat): (seq<Range>, nat) {
    var own := OwnRangeOf(t);
    if f.limit > 0 && total >= f.offset + f.limit then ([], total)
    else if own.Some? && Contained(own.value, f) then
      var total' := total + NumDocs(own.value.entries);
      (if f.offset == 0 || total' > f.offset then [own.value] else [], total')
    else if own.Some? && !Overlaps(own.value, f) then ([], total)
    else
      match t
      case Leaf(r) =>
        var total' := total + if total == 0 && f.offset == 0 then 1 else NumDocs(r.entries);
        (if total' > f.offset then [r] else [], total')
      case Node(l, r, v, _, _) =>
        if f.asc then
          var (a, ta) := if AboveMin(f, v) then Select(l, f, total) else ([], total);
          var (b, tb) := if BelowMax(f, v) then Select(r, f, ta) else ([], ta);
          (a + b, tb)
        else
          var (b, tb) := if BelowMax(f, v) then Select(r, f, total) else ([], total);
          var (a, ta) := if AboveMin(f, v) then Select(l, f, tb) else ([], tb);
          (b + a, ta)
  }

  /** The entries that match, in order. */
  function Matching(es: seq<NumEntry>, f: Filter): seq<NumEntry> {
    if es == [] then []
    else Matching(es[..|es| - 1], f) + if Match(f, es[|es| - 1].value) then [es[|es| - 1]] else []
  }

  /** What the iterator over one selected range yields: the filter is dropped when both bounds match it. */
  function Yield(r: Range, f: Filter): seq<NumEntry> {
    if Match(f, r.minVal) && Match(f, r.maxVal) then r.entries else Matching(r.entries, f)
  }

  ghost function Yields(rs: seq<Range>, f: Filter): multiset<NumEntry> {
    if rs == [] then multiset{} else Yields(rs[..|rs| - 1], f) + multiset(Yield(rs[|rs| - 1], f))
  }

  ghost function Hits(es: seq<NumEntry>, f: Filter): multiset<NumEntry> {
    multiset(Matching(es, f))
  }

  lemma {:induction false} YieldsConcat(a: seq<Range>, b: seq<Range>, f: Filter)
    ensures Yields(a + b, f) == Yields(a, f) + Yields(b, f)
  {
    hide Yield;
    if b == [] {
      assert a + b == a;
    } else {
      hide Yields;
      var b0, x := b[..|b| - 1], b[|b| - 1];
      YieldsConcat(a, b0, f);
      assert b == b0 + [x] && a + b == (a + b0) + [x];
      YieldsSnoc(b0, x, f);
      YieldsSnoc(a + b0, x, f);
      SumAssoc(Yields(a, f), Yields(b0, f), multiset(Yield(x, f)));
    }
  }

  lemma YieldsSnoc(rs: seq<Range>, r: Range, f: Filter)
    ensures Yields(rs + [r], f) == Yields(rs, f) + multiset(Yield(r, f))
  {
    hide Yield;
    assert (rs + [r])[..|rs|] == rs;
  }

  lemma SumAssoc(a: multiset<NumEntry>, b: multiset<NumEntry>, c: multiset<NumEntry>)
    ensures (a + b) + c == a + (b + c)
  {
  }

  lemma {:induction false} MatchingConcat(a: seq<NumEntry>, b: seq<NumEntry>, f: Filter)
    ensures Matching(a + b, f) == Matching(a, f) + Matching(b, f)
  {
    if b == [] {
      assert a + b == a;
    } else {
      MatchingConcat(a, b[..|b| - 1], f);
      assert (a + b)[..|a + b| - 1] == a + b[..|b| - 1];
    }
  }

  /** How often an entry matches depends only on how often it is there. */
  lemma {:induction false} HitsCount(es: seq<NumEntry>, f: Filter, e: NumEntry)
    ensures Hits(es, f)[e] == if Match(f, e.value) then multiset(es)[e] else 0
  {
    if es != [] {
      HitsCount(es[..|es| - 1], f, e);
      assert es == es[..|es| - 1] + [es[|es| - 1]];
    }
  }

  lemma HitsAgree(a: seq<NumEntry>, b: seq<NumEntry>, f: Filter, docs: iset<nat>)
    requires Same(multiset(a), multiset(b), docs)
    ensures Same(Hits(a, f), Hits(b, f), docs)
  {
    hide Hits;
    forall e: NumEntry | e.docId in docs ensures Hits(a, f)[e] == Hits(b, f)[e] {
      HitsCount(a, f, e);
      HitsCount(b, f, e);
    }
  }

  lemma NoHits(es: seq<NumEntry>, f: Filter)
    requires forall i :: 0 <= i < |es| ==> !Match(f, es[i].value)
    ensures Hits(es, f) == multiset{}
  {
    hide Hits;
    forall e ensures Hits(es, f)[e] == 0 {
      HitsCount(es, f, e);
      assert e in multiset(es) ==> e in es;
    }
  }

  lemma {:induction false} AllMatch(es: seq<NumEntry>, f: Filter)
    requires forall i :: 0 <= i < |es| ==> Match(f, es[i].value)
    ensures Matching(es, f) == es
  {
    if es != [] { AllMatch(es[..|es| - 1], f); }
  }

  /** Dropping the filter never admits an entry that does not match. */
  lemma YieldExact(r: Range, f: Filter)
    requires WfRange(r)
    ensures Yield(r, f) == Matching(r.entries, f)
  {
    hide Sum;
    if Match(f, r.minVal) && Match(f, r.maxVal) { AllMatch(r.entries, f); }
  }

  ghost predicate AtMost(es: seq<NumEntry>, v: real) {
    forall i :: 0 <= i < |es| ==> es[i].value <= v
  }

  ghost predicate AtLeast(es: seq<NumEntry>, v: real) {
    forall i :: 0 <= i < |es| ==> v <= es[i].value
  }

  /** What the search relies on: at every node no larger values on the left, and no smaller ones on the right. */
  ghost predicate Parted(t: Tree) {
    t.Node? ==>
      && Parted(t.left) && Parted(t.right)
      && AtMost(Contents(t.left), t.value) && AtLeast(Contents(t.right), t.value)
  }

  ghost predicate WfRanges(t: Tree) {
    match t
    case Leaf(r) => WfRange(r)
    case Node(l, r, _, _, range) => WfRanges(l) && WfRanges(r) && (range.Some? ==> WfRange(range.value))
  }

  /** The search order says that values are in intervals, so it parts them. */
  lemma {:induction false} OrderedParted(t: Tree, lo: Option<real>, hi: Option<real>)
    requires Ordered(t, lo, hi)
    ensures Parted(t) && WfRanges(t)
    ensures forall i :: 0 <= i < |Contents(t)| ==> Inside(Contents(t)[i].value, lo, hi)
  {
    hide WfRange;
    if t.Node? {
      OrderedParted(t.left, lo, Some(t.value));
      OrderedParted(t.right, Some(t.value), hi);
    }
  }

  /** A range that is neither contained nor overlapping has no match. */
  lemma Apart(r: Range, f: Filter)
    requires WfRange(r) && !Contained(r, f) && !Overlaps(r, f)
    ensures Hits(r.entries, f) == multiset{}
  {
    hide Hits, Sum;
    NoHits(r.entries, f);
  }

  lemma OwnRangeFacts(t: Tree, f: Filter, docs: iset<nat>)
    requires WfRanges(t) && Copies(t, docs) && OwnRangeOf(t).Some?
    ensures WfRange(OwnRangeOf(t).value)
    ensures Same(Hits(OwnRangeOf(t).value.entries, f), Hits(Contents(t), f), docs)
  {
    hide Hits, WfRange;
    if t.Node? { HitsAgree(t.range.value.entries, Contents(t), f, docs); }
  }

  lemma OneYield(r: Range, f: Filter)
    requires WfRange(r)
    ensures Yields([r], f) == Hits(r.entries, f)
  {
    hide WfRange, Yield, Matching;
    YieldExact(r, f);
    assert [r][..0] == [];
  }

  /** A side of a node the search does not visit has no match. */
  lemma UnvisitedSides(t: Tree, f: Filter)
    requires t.Node? && Parted(t)
    ensures !AboveMin(f, t.value) ==> Hits(Contents(t.left), f) == multiset{}
    ensures !BelowMax(f, t.value) ==> Hits(Contents(t.right), f) == multiset{}
  {
    hide Hits, Contents;
    if !AboveMin(f, t.value) { NoHits(Contents(t.left), f); }
    if !BelowMax(f, t.value) { NoHits(Contents(t.right), f); }
  }

  lemma NodeHits(t: Tree, f: Filter)
    requires t.Node?
    ensures Hits(Contents(t), f) == Hits(Contents(t.left), f) + Hits(Contents(t.right), f)
  {
    hide Matching;
    MatchingConcat(Contents(t.left), Contents(t.right), f);
  }

  lemma NoYield(f: Filter)
    ensures Yields([], f) == multiset{}
  {
  }

  lemma SameSum(a: multiset<NumEntry>, a': multiset<NumEntry>, b: multiset<NumEntry>, b': multiset<NumEntry>, docs: iset<nat>)
    requires Same(a, a', docs) && Same(b, b', docs)
    ensures Same(a + b, a' + b', docs) && Same(b + a, a' + b', docs)
  {
  }

  lemma SameNothing(docs: iset<nat>)
    ensures Same(multiset{}, multiset{}, docs)
  {
  }

  /** What the search of a node yields: what its visited sides yield. */
  lemma NodeYields(t: Tree, f: Filter, total: nat)
    requires t.Node? && f.limit == 0 && (t.range.Some? ==> !Contained(t.range.value, f) && Overlaps(t.range.value, f))
    ensures var low, high := AboveMin(f, t.value), BelowMax(f, t.value);
            var (a, ta) := SelectIf(if f.asc then low else high, if f.asc then t.left else t.right, f, total);
            var (b, tb) := SelectIf(if f.asc then high else low, if f.asc then t.right else t.left, f, ta);
            Yields(Select(t, f, total).0, f) == Yields(a, f) + Yields(b, f)
  {
    hide Yields, Select, Contained, Overlaps;
    NodeSelect(t, f, total);
    var low, high := AboveMin(f, t.value), BelowMax(f, t.value);
    var (a, ta) := SelectIf(if f.asc then low else high, if f.asc then t.left else t.right, f, total);
    var (b, tb) := SelectIf(if f.asc then high else low, if f.asc then t.right else t.left, f, ta);
    YieldsConcat(a, b, f);
  }

  /** The search stops at a range that settles the matter. */
  predicate Settles(t: Tree, f: Filter) {
    var own := OwnRangeOf(t);
    t.Leaf? || (own.Some? && (Contained(own.value, f) || !Overlaps(own.value, f)))
  }

  lemma SettledYields(t: Tree, f: Filter, total: nat)
    requires f.limit == 0 && f.offset == 0 && Settles(t, f) && WfRanges(t)
    ensures Yields(Select(t, f, total).0, f) == Hits(OwnRangeOf(t).value.entries, f)
  {
    hide Hits, Yields, Contents, Contained, Overlaps, NumDocs, WfRange;
    var own := OwnRangeOf(t).value;
    NoYield(f);
    OneYield(own, f);
    if !Contained(own, f) && !Overlaps(own, f) { Apart(own, f); }
  }

  /**
   * The lookup is exact: without limit and offset the iterators over the selected ranges together yield
   * every matching entry of these documents, as often as the tree stores it, and no other.
   */
  lemma {:induction false} SelectExact(t: Tree, f: Filter, total: nat, docs: iset<nat>)
    requires f.limit == 0 && f.offset == 0 && Parted(t) && WfRanges(t) && Copies(t, docs)
    ensures Same(Yields(Select(t, f, total).0, f), Hits(Contents(t), f), docs)
  {
    hide Hits, Yields, Contents, WfRange, Contained, Overlaps, NumDocs, Select, Same;
    if Settles(t, f) {
      SettledYields(t, f, total);
      OwnRangeFacts(t, f, docs);
    } else {
      NodeHits(t, f);
      NodeYields(t, f, total);
      UnvisitedSides(t, f);
      NoYield(f);
      SameNothing(docs);
      var low, high := AboveMin(f, t.value), BelowMax(f, t.value);
      var first, second := if f.asc then t.left else t.right, if f.asc then t.right else t.left;
      var one, two := if f.asc then low else high, if f.asc then high else low;
      var (a, ta) := SelectIf(one, first, f, total);
      var (b, tb) := SelectIf(two, second, f, ta);
      if one { SelectExact(first, f, total, docs); }
      if two { SelectExact(second, f, ta, docs); }
      SameSum(Yields(a, f), Hits(Contents(first), f), Yields(b, f), Hits(Contents(second), f), docs);
      SumCommutes(Hits(Contents(t.left), f), Hits(Contents(t.right), f));
    }
  }

  lemma SumCommutes(a: multiset<NumEntry>, b: multiset<NumEntry>)
    ensures a + b == b + a
  {
  }

  /** The filter for one value. */
  function Exactly(x: real): Filter {
    Filter(Some(x), Some(x), true, true, true, 0, 0)
  }

  /** A search never yields an entry more often than the tree stores it. */
  lemma {:induction false} SelectNoMore(t: Tree, f: Filter, total: nat, e: NumEntry)
    requires f.limit == 0 && f.offset == 0 && WfRanges(t) && Shallow(t, 0)
    ensures Yields(Select(t, f, total).0, f)[e] <= multiset(Contents(t))[e]
  {
    hide Hits, Yields, WfRange, Contained, Overlaps, NumDocs, Select;
    if t.Leaf? {
      SettledYields(t, f, total);
      HitsCount(t.leafRange.entries, f, e);
    } else {
      NodeYields(t, f, total);
      NoYield(f);
      var low, high := AboveMin(f, t.value), BelowMax(f, t.value);
      var first, second := if f.asc then t.left else t.right, if f.asc then t.right else t.left;
      var one, two := if f.asc then low else high, if f.asc then high else low;
      var (a, ta) := SelectIf(one, first, f, total);
      if one { SelectNoMore(first, f, total, e); }
      if two { SelectNoMore(second, f, ta, e); }
    }
  }

  /** Without limit and offset the running total does not matter. */
  lemma {:induction false} AnyTotal(t: Tree, f: Filter, n: nat, m: nat)
    requires f.limit == 0 && f.offset == 0
    ensures Select(t, f, n).0 == Select(t, f, m).0
  {
    hide Contained, Overlaps, NumDocs;
    if t.Node? && !Settles(t, f) {
      hide Select;
      NodeSelect(t, f, n);
      NodeSelect(t, f, m);
      var low, high := AboveMin(f, t.value), BelowMax(f, t.value);
      var first, second := if f.asc then t.left else t.right, if f.asc then t.right else t.left;
      var one := if f.asc then low else high;
      AnyTotal(first, f, n, m);
      AnyTotal(second, f, SelectIf(one, first, f, n).1, SelectIf(one, first, f, m).1);
    }
  }

  /** The search for this entry's value yields it less often than the tree stores it. */
  ghost predicate Missed(t: Tree, e: NumEntry) {
    Yields(Select(t, Exactly(e.value), 0).0, Exactly(e.value))[e] < multiset(Contents(t))[e]
  }

  /** An entry missed on one side of a node is missed at the node, also if that side is not visited at all. */
  lemma MissedBelow(t: Tree, e: NumEntry, onLeft: bool)
    requires t.Node? && WfRanges(t) && Shallow(t, 0)
    requires if onLeft then Missed(t.left, e) || (t.value < e.value && e in Contents(t.left))
             else Missed(t.right, e) || (e.value < t.value && e in Contents(t.right))
    ensures Missed(t, e)
  {
    hide Yields, WfRange, NumDocs, Select;
    var f := Exactly(e.value);
    NodeYields(t, f, 0);
    NoYield(f);
    var (a, ta) := SelectIf(AboveMin(f, t.value), t.left, f, 0);
    SelectNoMore(t.left, f, 0, e);
    SelectNoMore(t.right, f, ta, e);
    AnyTotal(t.right, f, ta, 0);
    assert e in Contents(t.left) ==> multiset(Contents(t.left))[e] > 0;
    assert e in Contents(t.right) ==> multiset(Contents(t.right))[e] > 0;
  }

  /** In a tree that does not part its values, some stored entry is missed by the search for its value. */
  lemma {:induction false} Misses(t: Tree) returns (e: NumEntry)
    requires WfRanges(t) && Shallow(t, 0) && !Parted(t)
    ensures Missed(t, e)
  {
    hide WfRange, Contents, Missed;
    if !AtMost(Contents(t.left), t.value) {
      var i :| 0 <= i < |Contents(t.left)| && Contents(t.left)[i].value > t.value;
      e := Contents(t.left)[i];
      MissedBelow(t, e, true);
    } else if !AtLeast(Contents(t.right), t.value) {
      var i :| 0 <= i < |Contents(t.right)| && Contents(t.right)[i].value < t.value;
      e := Contents(t.right)[i];
      MissedBelow(t, e, false);
    } else if !Parted(t.left) {
      e := Misses(t.left);
      MissedBelow(t, e, true);
    } else {
      e := Misses(t.right);
      MissedBelow(t, e, false);
    }
  }

  lemma {:induction false} NothingCopied(t: Tree, docs: iset<nat>)
    requires Shallow(t, 0)
    ensures Copies(t, docs)
  {
    if t.Node? {
      NothingCopied(t.left, docs);
      NothingCopied(t.right, docs);
    }
  }

  /** The search with this filter yields exactly the matching entries. */
  ghost predicate FindsAll(t: Tree, f: Filter) {
    Yields(Select(t, f, 0).0, f) == Hits(Contents(t), f)
  }

  /** Where interior nodes keep no range, every search is exact if and only if the tree parts its values. */
  lemma ExactIffParted(t: Tree)
    requires WfRanges(t) && Shallow(t, 0)
    ensures Parted(t) <==> forall f: Filter :: f.limit == 0 && f.offset == 0 ==> FindsAll(t, f)
  {
    hide Yields, Hits, Select, Contents, WfRanges, Shallow, Same;
    if Parted(t) {
      forall f: Filter | f.limit == 0 && f.offset == 0 ensures FindsAll(t, f) {
        NothingCopied(t, AllDocs());
        SelectExact(t, f, 0, AllDocs());
        SameIsEqual(Yields(Select(t, f, 0).0, f), Hits(Contents(t), f));
      }
    } else {
      var e := Misses(t);
      HitsCount(Contents(t), Exactly(e.value), e);
      assert !FindsAll(t, Exactly(e.value));
    }
  }

  /** Two searches agree, or the first was stopped by its limit before the second was done. */
  ghost predicate CutShort(a: (seq<Range>, nat), b: (seq<Range>, nat), f: Filter) {
    a == b || (f.limit > 0 && a.0 <= b.0 && a.1 >= f.offset + f.limit)
  }

  /** A side that is not visited adds nothing. */
  function SelectIf(visit: bool, t: Tree, f: Filter, total: nat): (seq<Range>, nat) {
    if visit then Select(t, f, total) else ([], total)
  }

  lemma NodeSelect(t: Tree, f: Filter, total: nat)
    requires t.Node? && !(f.limit > 0 && total >= f.offset + f.limit)
    requires t.range.Some? ==> !Contained(t.range.value, f) && Overlaps(t.range.value, f)
    ensures var low, high := AboveMin(f, t.value), BelowMax(f, t.value);
            var (a, ta) := SelectIf(if f.asc then low else high, if f.asc then t.left else t.right, f, total);
            var (b, tb) := SelectIf(if f.asc then high else low, if f.asc then t.right else t.left, f, ta);
            Select(t, f, total) == (a + b, tb)
  {
    hide Contained, Overlaps, NumDocs;
  }

  lemma Joined(f: Filter, a: (seq<Range>, nat), a0: (seq<Range>, nat), b: (seq<Range>, nat), b0: (seq<Range>, nat))
    requires CutShort(a, a0, f) && (a == a0 ==> CutShort(b, b0, f)) && (a != a0 ==> b == ([], a.1))
    ensures CutShort((a.0 + b.0, b.1), (a0.0 + b0.0, b0.1), f)
  {
    if a != a0 { assert a.0 + b.0 == a.0; }
  }

  /** The search goes on below a node. */
  predicate Descends(t: Tree, f: Filter, total: nat) {
    && t.Node? && !(f.limit > 0 && total >= f.offset + f.limit)
    && (t.range.Some? ==> !Contained(t.range.value, f) && Overlaps(t.range.value, f))
  }

  lemma SameTest(f: Filter)
    ensures forall r :: Contained(r, f.(limit := 0)) == Contained(r, f) && Overlaps(r, f.(limit := 0)) == Overlaps(r, f)
  {
  }

  lemma NoDescent(t: Tree, f: Filter, total: nat)
    requires !Descends(t, f, total)
    ensures CutShort(Select(t, f, total), Select(t, f.(limit := 0), total), f)
  {
    hide Contained, Overlaps, NumDocs;
    SameTest(f);
  }

  /** A limit only cuts off the end of the selection, and not before enough documents were seen. */
  lemma {:induction false} LimitCutsTail(t: Tree, f: Filter, total: nat)
    ensures CutShort(Select(t, f, total), Select(t, f.(limit := 0), total), f)
  {
    hide Contained, Overlaps, NumDocs, Select, CutShort;
    var g := f.(limit := 0);
    if !Descends(t, f, total) {
      NoDescent(t, f, total);
    } else {
      SameTest(f);
      NodeSelect(t, f, total);
      NodeSelect(t, g, total);
      var low, high := AboveMin(f, t.value), BelowMax(f, t.value);
      var first, second := if f.asc then t.left else t.right, if f.asc then t.right else t.left;
      var one, two := if f.asc then low else high, if f.asc then high else low;
      var a, a0 := SelectIf(one, first, f, total), SelectIf(one, first, g, total);
      LimitCutsTail(first, f, total);
      CutSelf(a0, f);
      LimitCutsTail(second, f, a.1);
      CutSelf(SelectIf(two, second, g, a.1), f);
      StoppedAt(two, second, f, a, a0);
      Joined(f, a, a0, SelectIf(two, second, f, a.1), SelectIf(two, second, g, a0.1));
    }
  }

  lemma CutSelf(a: (seq<Range>, nat), f: Filter)
    ensures CutShort(a, a, f)
  {
  }

  /** After the limit was reached nothing is selected. */
  lemma StoppedAt(visit: bool, t: Tree, f: Filter, a: (seq<Range>, nat), a0: (seq<Range>, nat))
    requires CutShort(a, a0, f)
    ensures a != a0 ==> SelectIf(visit, t, f, a.1) == ([], a.1)
  {
  }
}
