/** Runs at whose end the numeric index has parted from its search order or from its copies. */
module NumericLimits {
  import opened Bytes
  import opened NumericRanges
  import opened NumericSample
  import opened NumericTree
  import opened NumericLookup
  import opened NumericIndex

  /** Document i has the i-th of a falling sequence of values, all of them doubles. */
  const BASE: int := 5_000_000_000_000_000_000

  function Val(i: int): real {
    (BASE - 1024 * i) as real
  }

  function Doc(i: nat): NumEntry {
    NumEntry(i, Val(i))
  }

  /** Documents a to b. */
  function Docs(a: nat, b: nat): seq<NumEntry>
    requires a <= b + 1
  {
    seq(b + 1 - a, i requires i >= 0 => Doc(a + i))
  }

  lemma DocsSnoc(a: nat, b: nat)
    requires 1 <= a <= b
    ensures Docs(a, b) == Docs(a, b - 1) + [Doc(b)]
  {
  }

  /** Larger ids have smaller values. */
  lemma DocsBelow(a: nat, b: nat, m: nat)
    requires 1 <= a <= b + 1
    ensures m < a ==> OneSide(Docs(a, b), Val(m), true)
    ensures b <= m ==> OneSide(Docs(a, b), Val(m), false)
  {
    var es := Docs(a, b);
    forall i | 0 <= i < |es| ensures es[i].value < Val(m) <==> m < a + i {
      assert es[i] == Doc(a + i);
    }
  }

  lemma {:induction false} PartConcat(x: seq<NumEntry>, y: seq<NumEntry>, v: real, below: bool)
    ensures Part(x + y, v, below) == Part(x, v, below) + Part(y, v, below)
    decreases |y|
  {
    if y == [] {
      assert x + y == x;
    } else {
      hide Part;
      var p, e := y[..|y| - 1], y[|y| - 1];
      PartConcat(x, p, v, below);
      assert y == p + [e] && x + y == (x + p) + [e];
      PartSnoc(p, e, v, below);
      PartSnoc(x + p, e, v, below);
      Regroup(Part(x, v, below), Part(p, v, below), e);
    }
  }

  lemma Regroup(x: seq<NumEntry>, y: seq<NumEntry>, e: NumEntry)
    ensures (x + y) + [e] == x + (y + [e])
  {
  }

  /** A split at the value of document m. */
  lemma PartDocs(a: nat, m: nat, b: nat)
    requires 1 <= a <= m + 1 <= b + 1
    ensures Part(Docs(a, b), Val(m), true) == Docs(m + 1, b) && Part(Docs(a, b), Val(m), false) == Docs(a, m)
  {
    hide Part, OneSide, Val;
    var x, y := Docs(a, m), Docs(m + 1, b);
    assert Docs(a, b) == x + y;
    PartConcat(x, y, Val(m), true);
    PartConcat(x, y, Val(m), false);
    DocsBelow(a, m, m);
    DocsBelow(m + 1, b, m);
    AllOneSide(x, Val(m), false);
    AllOneSide(y, Val(m), true);
  }

  lemma AllOneSide(es: seq<NumEntry>, v: real, below: bool)
    requires OneSide(es, v, below)
    ensures Part(es, v, below) == es && Part(es, v, !below) == []
  {
    hide Part, OneSide;
    WholePart(es, v, below);
    var none := Part(es, v, !below);
    if none != [] {
      PartMember(es, v, !below, 0);
      SideOf(es, v, below, none[0]);
    }
  }

  lemma SideOf(es: seq<NumEntry>, v: real, below: bool, e: NumEntry)
    requires OneSide(es, v, below) && e in es
    ensures e.value < v <==> below
  {
  }

  lemma {:induction false} WholePart(es: seq<NumEntry>, v: real, below: bool)
    requires OneSide(es, v, below)
    ensures Part(es, v, below) == es
  {
    if es != [] {
      var n := |es| - 1;
      assert (es[n].value < v) == below && OneSide(es[..n], v, below);
      hide OneSide;
      WholePart(es[..n], v, below);
      assert es == es[..n] + [es[n]];
    }
  }

  ghost predicate OneSide(es: seq<NumEntry>, v: real, below: bool) {
    forall i :: 0 <= i < |es| ==> (es[i].value < v <==> below)
  }

  /** A range with an empty sample, new or just collected. */
  ghost predicate Unsampled(r: Range) {
    r.values == [] && r.card == 0 && r.cardCheck == CARD_CHECK
  }

  /** The values of k sampled documents, the first of them the tenth from a on. */
  function Total(a: nat, k: nat): int {
    if k == 0 then 0 else Total(a, k - 1) + (BASE - 1024 * (a - 1 + 10 * k))
  }

  /** Their mean is the value of the document in the middle. */
  lemma {:induction false} Mean(a: nat, k: nat)
    ensures Total(a, k) == k * (BASE - 1024 * (a + 4 + 5 * k))
  {
    if k > 0 {
      Mean(a, k - 1);
      var x := BASE - 1024 * (a + 4 + 5 * k);
      assert (k - 1) * (x + 5120) == k * x - x + 5120 * k - 5120;
    }
  }

  lemma MeanValue(a: nat, k: nat)
    requires k > 0
    ensures Total(a, k) as real / k as real == Val(a + 4 + 5 * k)
  {
    hide Total;
    Mean(a, k);
    var x := BASE - 1024 * (a + 4 + 5 * k);
    assert (k * x) as real == k as real * x as real;
    assert (k as real * x as real) / k as real == x as real;
  }

  /** What a range holds after documents a to b were added. */
  ghost predicate Filled(r0: Range, a: nat, b: nat, r: Range)
    requires a <= b + 1
  {
    var n := b + 1 - a;
    && r.entries == r0.entries + Docs(a, b) && r.splitCard == r0.splitCard && r.numEntries == r0.numEntries + n
    && r.card == |r.values| == n / 10 && r.cardCheck == 10 - n % 10
    && r.uniqueSum == r0.uniqueSum + Total(a, n / 10) as real
    && forall i :: 0 <= i < |r.values| ==> r.values[i].value >= Val(b)
  }

  lemma {:induction false} FillDocs(r0: Range, a: nat, b: nat)
    requires Unsampled(r0) && 1 <= a <= b + 1
    ensures Filled(r0, a, b, Fill(r0, Docs(a, b)))
    decreases b
  {
    hide Fill, Total;
    if a == b + 1 {
      FillNone(r0, a);
    } else {
      FillDocs(r0, a, b - 1);
      DocsSnoc(a, b);
      FillSnoc(r0, Docs(a, b - 1), Doc(b));
      NextFilled(r0, a, b, Fill(r0, Docs(a, b - 1)));
    }
  }

  lemma FillNone(r0: Range, a: nat)
    requires Unsampled(r0) && a >= 1
    ensures Fill(r0, Docs(a, a - 1)) == r0 && Filled(r0, a, a - 1, r0)
  {
    assert Docs(a, a - 1) == [];
  }

  lemma NotSampled(vs: seq<Sample>, v: real)
    requires forall i :: 0 <= i < |vs| ==> vs[i].value > v
    ensures FindSample(vs, v, 0) == None
  {
  }

  lemma NextFilled(r0: Range, a: nat, b: nat, r: Range)
    requires Unsampled(r0) && 1 <= a <= b && Filled(r0, a, b - 1, r)
    ensures Filled(r0, a, b, AddTo(r, Doc(b), true))
  {
    var n := b - a;
    Tenth(n);
    DocsSnoc(a, b);
    assert r0.entries + Docs(a, b - 1) + [Doc(b)] == r0.entries + Docs(a, b);
    if r.cardCheck == 1 {
      NotSampled(r.values, Val(b));
      assert Total(a, n / 10 + 1) == Total(a, n / 10) + (BASE - 1024 * b);
    }
  }

  /** A step down to the left: the node's value and its right side, a leaf. */
  datatype Step = Step(value: real, right: Range)

  /** A path to the left down to a leaf; recorded depths are right, and no node keeps a range. */
  function Spine(steps: seq<Step>, r: Range): Tree {
    if steps == [] then Leaf(r)
    else Node(Spine(steps[1..], r), Leaf(steps[0].right), steps[0].value, |steps|, None)
  }

  ghost predicate AllAbove(steps: seq<Step>, v: real) {
    forall i :: 0 <= i < |steps| ==> v < steps[i].value
  }

  /** A small value goes down the path; a leaf that need not split just takes it. */
  lemma {:induction false} Stays(steps: seq<Step>, r: Range, e: NumEntry, limit: nat)
    requires Splittable(Spine(steps, r)) && AllAbove(steps, e.value) && !MustSplit(AddTo(r, e, true))
    ensures NumericTree.Add(Spine(steps, r), e, limit) == (Spine(steps, AddTo(r, e, true)), Report(false, 1, 0))
    decreases |steps|
  {
    hide AddTo, MustSplit;
    if steps != [] {
      Stays(steps[1..], r, e, limit);
      AddUnfold(Spine(steps, r), e, limit);
    }
  }

  /** One that splits makes the path longer; up to three steps nothing is rotated. */
  lemma {:induction false} Splits(steps: seq<Step>, r: Range, e: NumEntry, left: Range, step: Step)
    requires Splittable(Spine(steps, r)) && AllAbove(steps, e.value) && |steps| <= 3 && MustSplit(AddTo(r, e, true))
    requires AddTo(r, e, true).card > 0
    requires SplitLeaf(AddTo(r, e, true), 0) == Node(Leaf(left), Leaf(step.right), step.value, 1, None)
    ensures var (t, rv) := NumericTree.Add(Spine(steps, r), e, 0);
            t == Spine(steps + [step], left) && rv.changed
    decreases |steps|
  {
    hide AddTo, MustSplit, SplitLeaf;
    if steps == [] {
      assert Spine([step][1..], left) == Leaf(left);
    } else {
      Splits(steps[1..], r, e, left, step);
      AddUnfold(Spine(steps, r), e, 0);
      assert (steps + [step])[1..] == steps[1..] + [step];
      if |steps| > 1 { assert (steps[1..] + [step])[1..] == steps[2..] + [step]; }
    }
  }

  /** The split of a new range: the upper half of the documents goes left. */
  lemma SplitDocs(c: nat, a: nat, b: nat)
    requires 1 <= a && a + 9 <= b
    ensures var r := Fill(NewRange(c), Docs(a, b));
            var c', m := Min(MAXRANGE_CARD, 1 + c * EXPONENT), a + 4 + 5 * ((b + 1 - a) / 10);
            && r.card > 0 && m <= b
            && SplitLeaf(r, 0) == Node(Leaf(Fill(NewRange(c'), Docs(m + 1, b))), Leaf(Fill(NewRange(c'), Docs(a, m))), Val(m), 1, None)
  {
    hide Fill, Part, Total, Val;
    FillDocs(NewRange(c), a, b);
    var k, m := (b + 1 - a) / 10, a + 4 + 5 * ((b + 1 - a) / 10);
    MeanValue(a, k);
    PartDocs(a, m, b);
    assert [] + Docs(a, b) == Docs(a, b);
  }

  lemma NewIsUnsampled(c: nat)
    ensures Unsampled(NewRange(c)) && NewRange(c).splitCard == c && NewRange(c).numEntries == 0
  {
  }

  /** A new range that took documents a to b. */
  function Took(c: nat, a: nat, b: nat): Range
    requires a <= b + 1
  {
    Fill(NewRange(c), Docs(a, b))
  }

  lemma TookWf(c: nat, a: nat, b: nat)
    requires a <= b + 1 && c >= 1
    ensures WfRange(Took(c, a, b)) && Took(c, a, b).entries == Docs(a, b)
  {
    hide WfRange, RangeInside, Fill;
    NewRangeWf(c, None, None);
    FillKeeps(NewRange(c), Docs(a, b), None, None);
    assert [] + Docs(a, b) == Docs(a, b);
  }

  /** Nothing splits, so no split value is outside. */
  lemma {:induction false} StaysInside(steps: seq<Step>, r: Range, e: NumEntry, lo: Option<real>, hi: Option<real>)
    requires Splittable(Spine(steps, r)) && AllAbove(steps, e.value) && !MustSplit(AddTo(r, e, true))
    ensures SplitsInside(Spine(steps, r), e, lo, hi)
    decreases |steps|
  {
    hide AddTo, MustSplit;
    if steps != [] { StaysInside(steps[1..], r, e, lo, Some(steps[0].value)); }
  }

  lemma LowerStill(steps: seq<Step>, i: nat, j: nat)
    requires AllAbove(steps, Val(i)) && i <= j
    ensures AllAbove(steps, Val(j))
  {
    assert Val(j) <= Val(i);
  }

  /** Document b is the next one a leaf takes. */
  lemma NextDoc(r0: Range, a: nat, b: nat)
    requires Unsampled(r0) && 1 <= a <= b
    ensures AddTo(Fill(r0, Docs(a, b - 1)), Doc(b), true) == Fill(r0, Docs(a, b))
    ensures var r := Fill(r0, Docs(a, b));
            && r.card == (b + 1 - a) / 10 && r.splitCard == r0.splitCard && r.numEntries == r0.numEntries + (b + 1 - a)
  {
    hide Fill, Total, AddTo;
    DocsSnoc(a, b);
    FillSnoc(r0, Docs(a, b - 1), Doc(b));
    FillDocs(r0, a, b);
  }

  /** Add documents that all go to the leaf at the end of the path, which does not split. */
  method AddDocs(tree: RangeTree, ghost steps: seq<Step>, ghost r0: Range, ghost a: nat, from: nat, to: nat)
    requires tree.Sturdy() && tree.lastDocId + 1 == from <= to + 1 && 1 <= a <= from
    requires Unsampled(r0) && tree.root == Spine(steps, Fill(r0, Docs(a, from - 1))) && AllAbove(steps, Val(from))
    requires 10 * ((to + 1 - a) / 10) < r0.splitCard && r0.numEntries + to < MAXRANGE_SIZE
    modifies tree
    ensures tree.Sturdy() && tree.lastDocId == to && tree.root == Spine(steps, Fill(r0, Docs(a, to)))
    ensures old(tree.Valid()) ==> tree.Valid()
    ensures old(tree.Valid() && Uncollected(tree.root)) ==> Uncollected(tree.root)
  {
    hide Fill, Spine, AddTo, NumericTree.Add, Docs, Val, SplitsInside, Ordered, Splittable, Shallow, InIdOrder, Contents,
      Records, Ranges, Copies, Uncollected, AllAbove;
    var i := from;
    while i <= to
      invariant from <= i <= to + 1 && tree.Sturdy() && tree.lastDocId == i - 1
      invariant tree.root == Spine(steps, Fill(r0, Docs(a, i - 1)))
      invariant old(tree.Valid()) ==> tree.Valid()
      invariant old(tree.Valid() && Uncollected(tree.root)) ==> Uncollected(tree.root)
    {
      ghost var r := Fill(r0, Docs(a, i - 1));
      NextDoc(r0, a, i);
      LowerStill(steps, from, i);
      assert 10 * ((i + 1 - a) / 10) <= 10 * ((to + 1 - a) / 10);
      Stays(steps, r, Doc(i), tree.limit);
      StaysInside(steps, r, Doc(i), None, None);
      var rv := tree.Add(i, Val(i), false);
      i := i + 1;
    }
  }

  /** Add the document with which that leaf splits. */
  method AddLast(tree: RangeTree, ghost steps: seq<Step>, ghost r0: Range, ghost a: nat, b: nat, ghost left: Range, ghost step: Step)
    requires tree.Sturdy() && tree.limit == 0 && tree.lastDocId + 1 == b && 1 <= a <= b && |steps| <= 3
    requires Unsampled(r0) && tree.root == Spine(steps, Fill(r0, Docs(a, b - 1))) && AllAbove(steps, Val(b))
    requires r0.splitCard <= 10 * ((b + 1 - a) / 10)
    requires Fill(r0, Docs(a, b)).card > 0
    requires SplitLeaf(Fill(r0, Docs(a, b)), 0) == Node(Leaf(left), Leaf(step.right), step.value, 1, None)
    modifies tree
    ensures tree.Sturdy() && tree.lastDocId == b && tree.root == Spine(steps + [step], left)
    ensures old(tree.Valid() && Uncollected(tree.root)) ==> tree.Valid() && Uncollected(tree.root)
  {
    hide Fill, Spine, AddTo, NumericTree.Add, Docs, Val, SplitsInside, Ordered, Splittable, Shallow, InIdOrder, Contents,
      Records, Ranges, Copies, Uncollected, AllAbove, SplitLeaf;
    NextDoc(r0, a, b);
    Splits(steps, Fill(r0, Docs(a, b - 1)), Doc(b), left, step);
    var rv := tree.Add(b, Val(b), false);
  }

  /** The path after two splits: the values of documents 56 and on are left of that of document 55. */
  function TwoSteps(): seq<Step> {
    [Step(Val(15), Took(65, 1, 15)), Step(Val(55), Took(261, 16, 55))]
  }

  /** Documents 1 to 20 split the root. */
  method OneSplit() returns (tree: RangeTree)
    ensures fresh(tree) && tree.Valid() && Uncollected(tree.root) && tree.limit == 0 && tree.lastDocId == 20
    ensures tree.root == Spine([TwoSteps()[0]], Took(65, 16, 20))
  {
    hide Fill, SplitLeaf, Uncollected, Ordered, Copies, Docs, NewRange, Spine, Contents, Shallow, Splittable, InIdOrder;
    NewIsUnsampled(16);
    tree := new RangeTree(0);
    FillNone(NewRange(16), 1);
    NoSteps(NewRange(16));
    AddDocs(tree, [], NewRange(16), 1, 1, 19);
    SplitDocs(16, 1, 20);
    AddLast(tree, [], NewRange(16), 1, 20, Took(65, 16, 20), Step(Val(15), Took(65, 1, 15)));
    assert [] + [TwoSteps()[0]] == [TwoSteps()[0]];
  }

  /** Documents 1 to 85 split the tree twice. */
  method TwoSplits() returns (tree: RangeTree)
    ensures fresh(tree) && tree.Valid() && tree.limit == 0 && tree.lastDocId == 85
    ensures tree.root == Spine(TwoSteps(), Took(261, 56, 85))
  {
    hide Fill, SplitLeaf, Uncollected, Ordered, Copies, Docs, NewRange, Spine, Contents, Shallow, Splittable, InIdOrder;
    NewIsUnsampled(65);
    tree := OneSplit();
    ghost var one := [TwoSteps()[0]];
    AddDocs(tree, one, NewRange(65), 16, 21, 84);
    SplitDocs(65, 16, 85);
    AddLast(tree, one, NewRange(65), 16, 85, Took(261, 56, 85), Step(Val(55), Took(261, 16, 55)));
    assert one + [TwoSteps()[1]] == TwoSteps();
  }

  /** The child finds document 56 dead and samples documents 57, 67 and 77. */
  lemma WhatIsSent()
    ensures Sampled(Docs(57, 85)) == [Doc(57), Doc(67), Doc(77)] && AllSend(Sampled(Docs(57, 85)))
  {
    var es := Docs(57, 85);
    assert es[10..] == Docs(67, 85) && Docs(67, 85)[10..] == Docs(77, 85);
    assert Sampled(Docs(77, 85)) == [Doc(77)] + Sampled([]);
  }

  lemma {:induction false} FirstCounts(es: seq<NumEntry>)
    requires AllSend(es) && es != []
    ensures SentSum(es) >= Reinterpreted(Key(es[0].value))
  {
    hide Reinterpreted;
    if |es| > 1 { FirstCounts(es[..|es| - 1]); }
  }

  lemma Pow2At35()
    ensures Pow2(35) == 0x8_0000_0000
  {
    assert Pow2(10) == 1024;
    assert Pow2(20) == 1024 * 1024;
    assert Pow2(30) == 1024 * 1024 * 1024;
  }

  /** The whole number 5e18, read as the bits of a double, is more than 1e26. */
  lemma Blown(i: nat)
    requires 1 <= i <= 1000
    ensures Sends(Val(i)) && Reinterpreted(Key(Val(i))) > 100_000_000_000_000_000_000_000_000.0
  {
    hide Pow2;
    Pow2At35();
    var u: nat := BASE - 1024 * i;
    assert Key(Val(i)) == u;
    assert u / TWO_52 == 1110;
    Larger((TWO_52 + u % TWO_52) as real, TWO_52 as real, 0x8_0000_0000 as real);
  }

  lemma Larger(a: real, b: real, c: real)
    requires a >= b && c >= 0.0
    ensures a * c >= b * c
  {
  }

  /** What a sample of these documents arrives as, and a range with that sum and no sample. */
  function Reset(r: Range, es: seq<NumEntry>, seen: seq<NumEntry>, n: nat): Range
    requires AllSend(Sampled(seen))
  {
    r.(entries := es, values := [], card := 0, uniqueSum := SentSum(Sampled(seen)), numEntries := n)
  }

  lemma DocsSend(a: nat, b: nat)
    requires 1 <= a <= b + 1 && b <= 1000
    ensures AllSend(Sampled(Docs(a, b)))
  {
    hide Sampled;
    var es := Docs(a, b);
    forall i | 0 <= i < |Sampled(es)| ensures Sends(Sampled(es)[i].value) {
      assert Sampled(es)[i] in es;
      var j :| 0 <= j < |es| && es[j] == Sampled(es)[i];
      assert es[j] == Doc(a + j);
    }
  }

  lemma DropFirst(a: nat, b: nat, live: iset<nat>)
    requires a <= b && a !in live
    ensures Thinned(Docs(a, b), Docs(a + 1, b), live)
  {
    var gone, rest := [Doc(a)], Docs(a + 1, b);
    assert Thinned(gone, [], live) by { assert gone[..0] == []; }
    assert Docs(a, b) == gone + rest && [] + rest == rest;
    hide Thinned;
    ThinnedSelf(rest, live);
    ThinnedConcat(gone, [], rest, rest, live);
  }

  lemma {:induction false} NoneLeft(es: seq<NumEntry>)
    ensures Thinned(es, [], iset{})
  {
    if es != [] { NoneLeft(es[..|es| - 1]); }
  }

  /** The documents after the first one up to b are some of all. */
  lemma SomeOf(a: nat, b: nat, c: nat)
    requires a <= b <= c
    ensures Thinned(Docs(a, c), Docs(a + 1, b), iset{})
  {
    hide Thinned;
    var more := Docs(b + 1, c);
    assert Docs(a, c) == Docs(a, b) + more && Docs(a + 1, b) + [] == Docs(a + 1, b);
    DropFirst(a, b, iset{});
    NoneLeft(more);
    ThinnedConcat(Docs(a, b), Docs(a + 1, b), more, [], iset{});
  }

  lemma SweptReset(r: Range, es: seq<NumEntry>, seen: seq<NumEntry>, n: nat, live: iset<nat>)
    requires Thinned(r.entries, es, live) && Thinned(r.entries, seen, iset{}) && AllSend(Sampled(seen))
    ensures SweptRange(r, Reset(r, es, seen, n), live)
  {
    hide Thinned, SentSum, Sampled;
    assert Arrives(r.entries, SentSum(Sampled(seen)));
  }

  /** The leaf of documents 56 to 85 after the collection. */
  function Collected(): (r: Range)
    ensures Unsampled(r) && r.entries == Docs(57, 85) && r.splitCard == 261 && r.numEntries == 29
    ensures r.uniqueSum > 100_000_000_000_000_000_000_000_000.0
  {
    WhatIsSent();
    FillDocs(NewRange(261), 56, 85);
    FirstCounts(Sampled(Docs(57, 85)));
    Blown(57);
    Reset(Took(261, 56, 85), Docs(57, 85), Docs(57, 85), 29)
  }

  lemma CollectedIsSwept(live: iset<nat>)
    requires 56 !in live
    ensures SweptRange(Took(261, 56, 85), Collected(), live)
  {
    hide Fill, SentSum, Sampled, Thinned, Docs;
    TookWf(261, 56, 85);
    WhatIsSent();
    DropFirst(56, 85, live);
    DropFirst(56, 85, iset{});
    SweptReset(Took(261, 56, 85), Docs(57, 85), Docs(57, 85), 29, live);
  }

  /** A collection that only swept the leaf at the end of the path. */
  lemma {:induction false} SweptSpine(steps: seq<Step>, r: Range, r': Range, live: iset<nat>)
    requires SweptRange(r, r', live)
    ensures Swept(Spine(steps, r), Spine(steps, r'), live)
    decreases |steps|
  {
    hide Arrives, Thinned;
    if steps != [] {
      SweptSpine(steps[1..], r, r', live);
      ThinnedSelf(steps[0].right.entries, live);
    }
  }

  /** The split value after the next 27 samples: far above every value. */
  ghost function Misplaced(): (q: real)
    ensures Fill(Collected(), Docs(86, 355)).card == 27 && q == SplitValue(Fill(Collected(), Docs(86, 355)))
    ensures q > BASE as real
  {
    hide Fill, Collected;
    FillDocs(Collected(), 86, 355);
    Mean(86, 27);
    var r := Fill(Collected(), Docs(86, 355));
    QuotientBounds(r.uniqueSum, 27.0, BASE as real + 1.0);
    SplitValue(r)
  }

  /** So all entries go to the left of it. */
  lemma SplitMisplaced()
    ensures Fill(Collected(), Docs(86, 355)).card > 0
    ensures SplitLeaf(Fill(Collected(), Docs(86, 355)), 0)
            == Node(Leaf(Took(1045, 57, 355)), Leaf(NewRange(1045)), Misplaced(), 1, None)
  {
    hide Fill, Part, Collected, Misplaced, SplitValue, OneSide;
    var r := Fill(Collected(), Docs(86, 355));
    FillDocs(Collected(), 86, 355);
    assert r.entries == Docs(57, 355);
    BelowBase(57, 355, Misplaced());
    AllOneSide(r.entries, Misplaced(), true);
    FillNone(NewRange(1045), 1);
  }

  lemma BelowBase(a: nat, b: nat, q: real)
    requires 1 <= a <= b + 1 && q > BASE as real
    ensures OneSide(Docs(a, b), q, true)
  {
    var es := Docs(a, b);
    forall i | 0 <= i < |es| ensures es[i].value < q {
      assert es[i] == Doc(a + i);
    }
  }

  ghost function ThreeSteps(): seq<Step> {
    TwoSteps() + [Step(Misplaced(), NewRange(1045))]
  }

  lemma SpineStep(steps: seq<Step>, r: Range)
    requires steps != []
    ensures Spine(steps, r) == Node(Spine(steps[1..], r), Leaf(steps[0].right), steps[0].value, |steps|, None)
  {
  }

  /** A misplaced node is out of the interval its parent sets. */
  lemma NotOrdered(steps: seq<Step>, r: Range)
    requires |steps| >= 3 && steps[1].value < steps[2].value
    ensures !Ordered(Spine(steps, r), None, None)
  {
    hide WfRange, RangeInside, Spine;
    SpineStep(steps, r);
    SpineStep(steps[1..], r);
    SpineStep(steps[1..][1..], r);
    var t := Spine(steps, r);
    Outside(t.left, None, Some(t.value));
  }

  lemma Outside(t: Tree, lo: Option<real>, hi: Option<real>)
    requires t.Node? && t.left.Node? && t.value < t.left.value
    ensures !Ordered(t, lo, hi)
  {
    hide WfRange, RangeInside;
  }

  /** Documents 1 to 85, and a collection that takes document 56. */
  method CollectOne() returns (tree: RangeTree)
    ensures fresh(tree) && tree.Valid() && tree.limit == 0 && tree.lastDocId == 85
    ensures tree.root == Spine(TwoSteps(), Fill(Collected(), Docs(86, 85)))
  {
    hide Fill, Ordered, Copies, Docs, Collected, Took, Spine, TwoSteps, Contents, Thinned, Swept, SweptRange, Shallow,
      Splittable, InIdOrder;
    tree := TwoSplits();
    ghost var live := iset d | IsDoc(d) && d != 56;
    CollectedIsSwept(live);
    SweptSpine(TwoSteps(), Took(261, 56, 85), Collected(), live);
    tree.Collect(Spine(TwoSteps(), Collected()), 1, live);
    FillNone(Collected(), 86);
  }

  lemma UpToBase(i: nat)
    ensures Val(i) <= BASE as real
  {
  }

  lemma TwoAbove(i: nat)
    requires i > 55
    ensures AllAbove(TwoSteps(), Val(i))
  {
  }

  /** The tree stays in search order up to document 354. With document 355 the collected leaf splits outside its interval. */
  method SplitOutside() returns (tree: RangeTree, ghost before: bool)
    ensures fresh(tree) && before && !tree.Valid()
    ensures tree.Sturdy() && tree.limit == 0 && tree.lastDocId == 355
    ensures tree.root == Spine(ThreeSteps(), Took(1045, 57, 355))
  {
    hide Fill, SplitLeaf, Uncollected, Ordered, Copies, Docs, Collected, Misplaced, Took, Spine, Contents, Val, AllAbove,
      Shallow, Splittable, InIdOrder;
    tree := CollectOne();
    TwoAbove(86);
    AddDocs(tree, TwoSteps(), Collected(), 86, 86, 354);
    before := tree.Valid();
    SplitMisplaced();
    TwoAbove(355);
    AddLast(tree, TwoSteps(), Collected(), 86, 355, Took(1045, 57, 355), Step(Misplaced(), NewRange(1045)));
    UpToBase(55);
    NotOrdered(ThreeSteps(), Took(1045, 57, 355));
  }

  ghost function FourSteps(): seq<Step> {
    ThreeSteps() + [Step(Val(586), Took(2500, 57, 586))]
  }

  lemma ThreeAbove(i: nat)
    requires i > 55
    ensures AllAbove(ThreeSteps(), Val(i))
  {
    hide Misplaced, Took, NewRange;
    UpToBase(i);
    TwoAbove(i);
  }

  method ThreeSplits() returns (tree: RangeTree)
    ensures fresh(tree) && tree.Sturdy() && tree.limit == 0 && tree.lastDocId == 1105
    ensures tree.root == Spine(ThreeSteps(), Took(1045, 57, 1105))
  {
    hide Fill, SplitLeaf, Uncollected, Ordered, Copies, Docs, Misplaced, Spine, Contents, Val, AllAbove,
      Shallow, Splittable, InIdOrder, ThreeSteps, NewRange;
    NewIsUnsampled(1045);
    ghost var before;
    tree, before := SplitOutside();
    ThreeAbove(356);
    AddDocs(tree, ThreeSteps(), NewRange(1045), 57, 356, 1105);
  }

  /** With document 1106 the path gets a fourth step. */
  method FourSplits() returns (tree: RangeTree)
    ensures fresh(tree) && tree.Sturdy() && tree.limit == 0 && tree.lastDocId == 1106
    ensures tree.root == Spine(FourSteps(), Took(2500, 587, 1106))
  {
    hide Fill, SplitLeaf, Uncollected, Ordered, Copies, Docs, Misplaced, Spine, Contents, Val, AllAbove,
      Shallow, Splittable, InIdOrder, ThreeSteps, NewRange;
    NewIsUnsampled(1045);
    tree := ThreeSplits();
    assert |ThreeSteps()| == 3 by { ThreeLong(); }
    SplitDocs(1045, 57, 1106);
    ThreeAbove(1106);
    AddLast(tree, ThreeSteps(), NewRange(1045), 57, 1106, Took(2500, 587, 1106), Step(Val(586), Took(2500, 57, 586)));
  }

  lemma ThreeLong()
    ensures |ThreeSteps()| == 3 && ThreeSteps()[0] == TwoSteps()[0] && ThreeSteps()[1] == TwoSteps()[1]
    ensures ThreeSteps()[2] == Step(Misplaced(), NewRange(1045))
  {
    hide Misplaced, Took, NewRange;
  }

  /** A leaf that splits at the end of four steps has the second node rotated: the third one is lifted above it. */
  lemma Rotates(steps: seq<Step>, r: Range, e: NumEntry, left: Range, step: Step)
    requires |steps| == 4 && Splittable(Spine(steps, r)) && AllAbove(steps, e.value) && MustSplit(AddTo(r, e, true))
    requires AddTo(r, e, true).card > 0
    requires SplitLeaf(AddTo(r, e, true), 0) == Node(Leaf(left), Leaf(step.right), step.value, 1, None)
    ensures NumericTree.Add(Spine(steps, r), e, 0).0
            == Node(Node(Spine([steps[3], step], left),
                         Node(Leaf(steps[2].right), Leaf(steps[1].right), steps[1].value, 3, None),
                         steps[2].value, 3, None),
                    Leaf(steps[0].right), steps[0].value, 5, None)
  {
    hide AddTo, MustSplit, SplitLeaf, Spine, NumericTree.Add;
    var rest := steps[1..];
    SpineStep(steps, r);
    Splits(rest, r, e, left, step);
    AddUnfold(Spine(steps, r), e, 0);
    SpineStep(rest + [step], left);
    assert (rest + [step])[1..] == steps[2..] + [step];
    SpineStep(steps[2..] + [step], left);
    assert (steps[2..] + [step])[1..] == [steps[3], step];
  }

  lemma FourLong()
    ensures |FourSteps()| == 4 && FourSteps()[0] == TwoSteps()[0] && FourSteps()[1] == TwoSteps()[1]
    ensures FourSteps()[2] == Step(Misplaced(), NewRange(1045)) && FourSteps()[3] == Step(Val(586), Took(2500, 57, 586))
  {
    hide ThreeSteps;
    ThreeLong();
  }

  lemma FourAbove(i: nat)
    requires i > 586
    ensures AllAbove(FourSteps(), Val(i))
  {
    hide ThreeSteps;
    ThreeAbove(i);
  }

  /** The tree after the rotation: the misplaced node is above documents 16 to 55, which are right of it. */
  ghost function Rotated(): Tree {
    Node(Node(Spine([Step(Val(586), Took(2500, 57, 586)), Step(Val(1841), Took(2500, 587, 1841))], Took(2500, 1842, 3086)),
              Node(Leaf(NewRange(1045)), Leaf(Took(261, 16, 55)), Val(55), 3, None),
              Misplaced(), 3, None),
         Leaf(Took(65, 1, 15)), Val(15), 5, None)
  }

  lemma LastRotates(r: Range)
    requires r == Took(2500, 587, 3085) && Splittable(Spine(FourSteps(), r))
    ensures NumericTree.Add(Spine(FourSteps(), r), Doc(3086), 0).0 == Rotated()
  {
    hide Fill, SplitLeaf, Spine, Misplaced, AllAbove, Docs, NumericTree.Add, AddTo, FourSteps, NewRange;
    NewIsUnsampled(2500);
    FourLong();
    FourAbove(3086);
    SplitDocs(2500, 587, 3086);
    NextDoc(NewRange(2500), 587, 3086);
    Rotates(FourSteps(), r, Doc(3086), Took(2500, 1842, 3086), Step(Val(1841), Took(2500, 587, 1841)));
  }

  lemma RotatedWf()
    ensures WfRanges(Rotated())
  {
    hide WfRange, Took, Misplaced, Val, Spine, NewRange;
    TookWf(2500, 57, 586);
    TookWf(2500, 587, 1841);
    TookWf(2500, 1842, 3086);
    TookWf(261, 16, 55);
    TookWf(65, 1, 15);
    NewRangeWf(1045, None, None);
    var two := [Step(Val(586), Took(2500, 57, 586)), Step(Val(1841), Took(2500, 587, 1841))];
    SpineStep(two, Took(2500, 1842, 3086));
    SpineStep(two[1..], Took(2500, 1842, 3086));
    assert two[1..][1..] == [];
    assert Spine([], Took(2500, 1842, 3086)) == Leaf(Took(2500, 1842, 3086)) by { NoSteps(Took(2500, 1842, 3086)); }
  }

  lemma NoSteps(r: Range)
    ensures Spine([], r) == Leaf(r)
  {
  }

  /** An entry to the right of a node with a larger value is missed there, and above. */
  lemma BuriedMisses(t: Tree, e: NumEntry)
    requires WfRanges(t) && Shallow(t, 0) && t.Node? && t.left.Node? && t.left.right.Node? && t.left.right.right.Leaf?
    requires e in t.left.right.right.leafRange.entries && e.value < t.left.value
    ensures Missed(t, e) && e in Contents(t)
  {
    hide WfRange, Missed;
    assert e in Contents(t.left.right);
    MissedBelow(t.left, e, false);
    MissedBelow(t, e, true);
  }

  /** A tree in search order misses nothing. */
  lemma MissedNotOrdered(t: Tree, e: NumEntry)
    requires Missed(t, e) && Shallow(t, 0)
    ensures !Ordered(t, None, None)
  {
    hide Ordered, Parted, WfRanges, Shallow, Contents, Yields, Select, Hits, FindsAll;
    if Ordered(t, None, None) {
      OrderedParted(t, None, None);
      ExactIffParted(t);
      HitsCount(Contents(t), Exactly(e.value), e);
      assert FindsAll(t, Exactly(e.value));
      FoundAll(t, e);
    }
  }

  lemma FoundAll(t: Tree, e: NumEntry)
    requires FindsAll(t, Exactly(e.value))
    ensures !Missed(t, e)
  {
    hide Contents, Yields, Select, Hits;
    HitsCount(Contents(t), Exactly(e.value), e);
  }

  lemma FirstOf(a: nat, b: nat)
    requires a <= b
    ensures Doc(a) in Docs(a, b)
  {
    assert Docs(a, b)[0] == Doc(a);
  }

  /** A lookup for the value of document 16 misses it. */
  lemma RotatedMisses()
    requires Shallow(Rotated(), 0)
    ensures Missed(Rotated(), Doc(16)) && Doc(16) in Contents(Rotated()) && !Ordered(Rotated(), None, None)
  {
    hide Misplaced, WfRanges, Missed, Spine, Contents, Shallow, Ordered, Took, NewRange, Docs, Val;
    RotatedWf();
    TookWf(261, 16, 55);
    FirstOf(16, 55);
    UpToBase(16);
    BuriedMisses(Rotated(), Doc(16));
    MissedNotOrdered(Rotated(), Doc(16));
  }

  /**
   * The run goes on to document 3086. The split it makes rotates the misplaced node above its parent, and
   * from then on the lookup for the value of document 16 does not find it, although it is stored.
   */
  method RotationMisses() returns (tree: RangeTree, rs: seq<Range>)
    ensures fresh(tree) && tree.limit == 0 && tree.Sturdy() && !tree.Valid()
    ensures Doc(16) in Contents(tree.root)
    ensures Yields(rs, Exactly(Val(16)))[Doc(16)] < multiset(Contents(tree.root))[Doc(16)]
  {
    hide Fill, Uncollected, Copies, Docs, Misplaced, Spine, Contents, AllAbove, FourSteps, Rotated, NumericTree.Add,
      Shallow, Splittable, InIdOrder, Yields, Ordered, Parted, Select, WfRanges, Val, SplitsInside, Records, Ranges, NewRange;
    NewIsUnsampled(2500);
    tree := FourSplits();
    FourAbove(1107);
    AddDocs(tree, FourSteps(), NewRange(2500), 587, 1107, 3085);
    LastRotates(Took(2500, 587, 3085));
    var rv := tree.Add(3086, Val(3086), false);
    RotatedMisses();
    rs := tree.Find(Exactly(Val(16)));
  }

  /** The range the root keeps when it may: documents 1 to 20, which split it, and 21. */
  function Kept(): (r: Range)
    ensures r.entries == Docs(1, 21)
  {
    TookEntries(16, 1, 20);
    AddTo(Took(16, 1, 20), Doc(21), false)
  }

  lemma TookEntries(c: nat, a: nat, b: nat)
    requires a <= b + 1
    ensures Took(c, a, b).entries == Docs(a, b)
  {
    hide Fill;
    assert [] + Docs(a, b) == Docs(a, b);
  }

  function WithRange(left: Range, right: Range, kept: Range): Tree {
    Node(Leaf(left), Leaf(right), Val(15), 1, Some(kept))
  }

  lemma SplitKeeps()
    ensures Took(16, 1, 20).card == 2
    ensures SplitLeaf(Took(16, 1, 20), 1) == WithRange(Took(65, 16, 20), Took(65, 1, 15), Took(16, 1, 20))
  {
    hide Fill;
    FillDocs(NewRange(16), 1, 20);
    SplitDocs(16, 1, 20);
  }

  /** The twentieth document splits the root. */
  lemma TwentiethSplits()
    ensures var r := Took(16, 1, 19);
            && Splittable(Leaf(r)) && Copies(Leaf(r), AllDocs())
            && NumericTree.Add(Leaf(r), Doc(20), 1).0 == WithRange(Took(65, 16, 20), Took(65, 1, 15), Took(16, 1, 20))
  {
    hide Fill, AddTo, SplitLeaf;
    NextDoc(NewRange(16), 1, 20);
    SplitKeeps();
  }

  /** The next one goes to the left leaf and into the kept range. */
  lemma NextIsKept()
    ensures var t := WithRange(Took(65, 16, 20), Took(65, 1, 15), Took(16, 1, 20));
            && Splittable(t)
            && NumericTree.Add(t, Doc(21), 1).0 == WithRange(Took(65, 16, 21), Took(65, 1, 15), Kept())
  {
    hide Fill, AddTo, NumericTree.Add, Docs, NewRange;
    NewIsUnsampled(65);
    NewIsUnsampled(16);
    NextDoc(NewRange(65), 16, 21);
    LeftTakes(Took(65, 16, 20), Took(65, 1, 15), Took(16, 1, 20), Doc(21), 1);
  }

  /** A node over two leaves takes an entry on the left that splits nothing. */
  lemma LeftTakes(left: Range, right: Range, kept: Range, e: NumEntry, limit: nat)
    requires left.splitCard >= 1 && right.splitCard >= 1 && e.value < Val(15) && !MustSplit(AddTo(left, e, true))
    ensures var t := WithRange(left, right, kept);
            && Splittable(t)
            && NumericTree.Add(t, e, limit).0 == WithRange(AddTo(left, e, true), right, AddTo(kept, e, false))
  {
    hide AddTo, MustSplit, Val;
    AddUnfold(WithRange(left, right, kept), e, limit);
  }

  method FirstTwenty() returns (tree: RangeTree)
    ensures fresh(tree) && tree.Valid() && Uncollected(tree.root) && tree.limit == 1 && tree.lastDocId == 20
    ensures Copies(tree.root, AllDocs())
    ensures tree.root == WithRange(Took(65, 16, 20), Took(65, 1, 15), Took(16, 1, 20))
  {
    hide Fill, Uncollected, Ordered, Copies, Docs, NumericTree.Add, Contents, WithRange, Shallow, Splittable, InIdOrder;
    tree := new RangeTree(1);
    FillNone(NewRange(16), 1);
    NoSteps(NewRange(16));
    AddDocs(tree, [], NewRange(16), 1, 1, 19);
    NoSteps(Took(16, 1, 19));
    TwentiethSplits();
    var rv := tree.Add(20, Val(20), false);
  }

  /** Documents 1 to 21 in a tree whose interior nodes may keep their range. */
  method OneKept() returns (tree: RangeTree)
    ensures fresh(tree) && tree.Valid() && tree.limit == 1 && Copies(tree.root, AllDocs())
    ensures tree.root == WithRange(Took(65, 16, 21), Took(65, 1, 15), Kept())
  {
    hide Fill, Uncollected, Ordered, Copies, Docs, NumericTree.Add, Contents, WithRange, Shallow, Splittable, InIdOrder, Kept;
    tree := FirstTwenty();
    NextIsKept();
    var rv := tree.Add(21, Val(21), false);
  }

  /** Document 1 is dead at the fork, and document 21 comes after it: the right leaf loses document 1, the kept range does not. */
  function OneSwept(): Tree {
    DocsSend(2, 15);
    DocsSend(2, 20);
    WithRange(Took(65, 16, 21), Reset(Took(65, 1, 15), Docs(2, 15), Docs(2, 15), 14),
              Reset(Kept(), Docs(1, 21), Docs(2, 20), 20))
  }

  lemma OneSweptIsSwept(live: iset<nat>)
    requires 1 !in live
    ensures Swept(WithRange(Took(65, 16, 21), Took(65, 1, 15), Kept()), OneSwept(), live)
  {
    hide Thinned, Docs, Reset, Fill, Kept, SentSum, Sampled, Arrives;
    DocsSend(2, 15);
    DocsSend(2, 20);
    TookEntries(65, 1, 15);
    DropFirst(1, 15, live);
    SomeOf(1, 15, 15);
    SweptReset(Took(65, 1, 15), Docs(2, 15), Docs(2, 15), 14, live);
    ThinnedSelf(Docs(1, 21), live);
    SomeOf(1, 20, 21);
    SweptReset(Kept(), Docs(1, 21), Docs(2, 20), 20, live);
    ThinnedSelf(Took(65, 16, 21).entries, live);
  }

  lemma NoCopy()
    ensures !Copies(OneSwept(), AllDocs())
  {
    hide Fill, Kept, SentSum, Sampled;
    var t := OneSwept();
    TookEntries(65, 16, 21);
    var kept, below := t.range.value.entries, Contents(t);
    assert kept == Docs(1, 21) && kept[0] == Doc(1);
    assert below == Docs(16, 21) + Docs(2, 15);
    assert forall i :: 0 <= i < |below| ==> below[i].docId != 1;
    assert Doc(1) in multiset(kept) && Doc(1) !in multiset(below);
    assert IsDoc(Doc(1).docId);
  }

  /**
   * A collection of a tree that may keep interior ranges: the root's range, whose last block was written to
   * meanwhile, keeps the entry of a dead document that the leaf below has lost.
   */
  method CopiesDiverge() returns (tree: RangeTree, ghost before: bool)
    ensures fresh(tree) && tree.Valid() && before && !Copies(tree.root, AllDocs())
  {
    hide Ordered, Copies, Contents, Thinned, Swept, Shallow, Splittable, InIdOrder, OneSwept, WithRange;
    tree := OneKept();
    before := Copies(tree.root, AllDocs());
    ghost var live := iset d | IsDoc(d) && d != 1;
    OneSweptIsSwept(live);
    tree.Collect(OneSwept(), 2, live);
    NoCopy();
  }
}
