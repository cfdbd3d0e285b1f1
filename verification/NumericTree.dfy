/** The tree of numeric ranges: splitting leaves, rotations, and interior nodes that keep copies of what is below. */
module NumericTree {
  import opened Bytes
  import opened NumericRanges

  /** A leaf has a range; an interior node may have kept its own, with a copy of every entry below it. */
  datatype Tree = Leaf(leafRange: Range)
                | Node(left: Tree, right: Tree, value: real, maxDepth: nat, range: Option<Range>)

  /** The largest difference in depth that is tolerated, and the largest depth at which a range may be kept. */
  const MAX_DEPTH_BALANCE: nat := 2

  function Depth(t: Tree): nat {
    if t.Leaf? then 0 else t.maxDepth
  }

  /** The entries in the leaves, from left to right. */
  ghost function Contents(t: Tree): seq<NumEntry> {
    match t
    case Leaf(r) => r.entries
    case Node(l, r, _, _, _) => Contents(l) + Contents(r)
  }

  /** How many nodes hold a range. */
  ghost function Ranges(t: Tree): int {
    match t
    case Leaf(_) => 1
    case Node(l, r, _, _, range) => Ranges(l) + Ranges(r) + if range.Some? then 1 else 0
  }

  /** How many entries all ranges count together, copies included. */
  ghost function Records(t: Tree): int {
    match t
    case Leaf(r) => r.numEntries
    case Node(l, r, _, _, range) => Records(l) + Records(r) + RangeSize(range)
  }

  /** Search order: left of a node only smaller values, right of it only values not smaller; ranges are well formed. */
  ghost predicate Ordered(t: Tree, lo: Option<real>, hi: Option<real>) {
    match t
    case Leaf(r) => WfRange(r) && RangeInside(r, lo, hi)
    case Node(l, r, v, _, range) =>
      && Ordered(l, lo, Some(v)) && Ordered(r, Some(v), hi)
      && (lo.Some? ==> lo.value <= v) && (hi.Some? ==> v <= hi.value)
      && (range.Some? ==> WfRange(range.value) && RangeInside(range.value, lo, hi))
  }

  predicate IsDoc(d: nat) { true }

  ghost function AllDocs(): iset<nat> {
    iset d | IsDoc(d)
  }

  lemma SameIsEqual(a: multiset<NumEntry>, b: multiset<NumEntry>)
    requires Same(a, b, AllDocs())
    ensures a == b
  {
    forall e: NumEntry ensures a[e] == b[e] {
      assert IsDoc(e.docId);
    }
  }

  /** The entries of these documents are in both, equally often. */
  ghost predicate Same(a: multiset<NumEntry>, b: multiset<NumEntry>, docs: iset<nat>) {
    forall e: NumEntry :: e.docId in docs ==> a[e] == b[e]
  }

  /** A kept range holds exactly the entries of these documents that the leaves below it hold. */
  ghost predicate Copies(t: Tree, docs: iset<nat>) {
    match t
    case Leaf(_) => true
    case Node(l, r, _, _, range) =>
      && Copies(l, docs) && Copies(r, docs)
      && (range.Some? ==> Same(multiset(range.value.entries), multiset(Contents(t)), docs))
  }

  /** No leaf was ever collected. */
  ghost predicate Uncollected(t: Tree) {
    match t
    case Leaf(r) => Exact(r)
    case Node(l, r, _, _, _) => Uncollected(l) && Uncollected(r)
  }

  /** Every range is in id order. */
  ghost predicate InIdOrder(t: Tree, last: nat) {
    match t
    case Leaf(r) => IdOrdered(r.entries, last)
    case Node(l, r, _, _, range) =>
      InIdOrder(l, last) && InIdOrder(r, last) && (range.Some? ==> IdOrdered(range.value.entries, last))
  }

  /** Recorded depths grow towards the root. */
  ghost predicate Tidy(t: Tree) {
    t.Node? ==> Tidy(t.left) && Tidy(t.right) && Depth(t.left) < t.maxDepth && Depth(t.right) < t.maxDepth
  }

  /** Only shallow interior nodes keep a range, and nothing below them was ever rotated. */
  ghost predicate Shallow(t: Tree, limit: nat) {
    t.Node? ==>
      && Shallow(t.left, limit) && Shallow(t.right, limit) && t.maxDepth >= 1
      && (t.range.Some? ==> t.maxDepth <= limit && Tidy(t))
  }

  function Max(a: nat, b: nat): nat { if a > b then a else b }

  /** The recorded depth is refreshed before anything else. */
  function Refreshed(t: Tree): Tree
    requires t.Node?
  {
    t.(maxDepth := Max(Depth(t.left), Depth(t.right)) + 1)
  }

  predicate RollsLeft(t: Tree) {
    t.Node? && Depth(t.right) > Depth(t.left) + MAX_DEPTH_BALANCE
  }

  predicate RollsRight(t: Tree) {
    t.Node? && Depth(t.left) > Depth(t.right) + MAX_DEPTH_BALANCE
  }

  /** Refresh a node's depth and rotate it if one side is too deep. */
  function Balance(t: Tree): Tree
    requires t.Node?
  {
    var n := Refreshed(t);
    if RollsLeft(n) then
      // a side that deep is an interior node
      if n.right.Leaf? then n
      else n.right.(left := n.(right := n.right.left, maxDepth := n.maxDepth - 1))
    else if RollsRight(n) then
      if n.left.Leaf? then n
      else n.left.(right := n.(left := n.left.right, maxDepth := n.maxDepth - 1))
    else n
  }

  /** Rotations keep the leaves in order. */
  lemma BalanceContents(t: Tree)
    requires t.Node?
    ensures Contents(Balance(t)) == Contents(t)
  {
    var n := Refreshed(t);
    if RollsLeft(n) && n.right.Node? {
      assert Contents(t) == Contents(t.left) + (Contents(t.right.left) + Contents(t.right.right));
    } else if RollsRight(n) && n.left.Node? {
      assert Contents(t) == (Contents(t.left.left) + Contents(t.left.right)) + Contents(t.right);
    }
  }

  lemma BalanceCounts(t: Tree)
    requires t.Node?
    ensures Ranges(Balance(t)) == Ranges(t) && Records(Balance(t)) == Records(t)
  {
  }

  /** A wider interval is no harder to be in. */
  lemma {:induction false} Widen(t: Tree, lo: Option<real>, hi: Option<real>, lo': Option<real>, hi': Option<real>)
    requires Ordered(t, lo, hi)
    requires lo'.Some? ==> lo.Some? && lo'.value <= lo.value
    requires hi'.Some? ==> hi.Some? && hi.value <= hi'.value
    ensures Ordered(t, lo', hi')
  {
    if t.Node? {
      Widen(t.left, lo, Some(t.value), lo', Some(t.value));
      Widen(t.right, Some(t.value), hi, Some(t.value), hi');
    }
  }

  /** With depth limits up to 2, a rotation never moves a node that has a range. */
  lemma RotationMovesNoRange(t: Tree, limit: nat)
    requires t.Node? && Shallow(t, limit) && limit <= MAX_DEPTH_BALANCE
    ensures RollsLeft(t) ==> t.right.Node? && t.range.None? && t.right.range.None?
    ensures RollsRight(t) ==> t.left.Node? && t.range.None? && t.left.range.None?
  {
  }

  /** Rotating nodes without ranges neither breaks nor mends the search order. */
  lemma BalanceOrdered(t: Tree, limit: nat, lo: Option<real>, hi: Option<real>)
    requires t.Node? && Shallow(t, limit) && limit <= MAX_DEPTH_BALANCE
    ensures Ordered(Balance(t), lo, hi) <==> Ordered(t, lo, hi)
  {
    hide WfRange, RangeInside;
    RotationMovesNoRange(t, limit);
  }

  lemma BalanceCopies(t: Tree, limit: nat, docs: iset<nat>)
    requires t.Node? && Shallow(t, limit) && limit <= MAX_DEPTH_BALANCE && Copies(t, docs)
    ensures Copies(Balance(t), docs)
  {
    hide Contents, Same;
    RotationMovesNoRange(t, limit);
    assert RollsLeft(t) == RollsLeft(Refreshed(t)) && RollsRight(t) == RollsRight(Refreshed(t));
    if !RollsLeft(t) && !RollsRight(t) { BalanceContents(t); }
  }

  lemma BalanceShallow(t: Tree, limit: nat)
    requires t.Node? && Shallow(t, limit) && limit <= MAX_DEPTH_BALANCE
    ensures Shallow(Balance(t), limit) && Balance(t).Node?
  {
    RotationMovesNoRange(t, limit);
  }

  /** In a shallow tidy tree there is nothing to rotate. */
  lemma BalanceTidy(t: Tree)
    requires t.Node? && Tidy(t) && t.maxDepth <= MAX_DEPTH_BALANCE + 1
    ensures Tidy(Balance(t)) && Depth(Balance(t)) <= Depth(t)
  {
  }

  lemma BalanceIds(t: Tree, last: nat)
    requires t.Node? && InIdOrder(t, last)
    ensures InIdOrder(Balance(t), last)
  {
    hide IdOrdered;
  }

  /** What an operation reports: whether nodes changed, and how many records and ranges there are more than before. */
  datatype Report = Report(changed: bool, numRecords: int, numRanges: int)

  /** Enough sampled values, or too many entries. */
  predicate MustSplit(r: Range) {
    r.card * CARD_CHECK >= r.splitCard || (r.numEntries > MAXRANGE_SIZE && r.card > 1)
  }

  /** No leaf splits without a sampled value. */
  ghost predicate Splittable(t: Tree) {
    match t
    case Leaf(r) => r.splitCard >= 1
    case Node(l, r, _, _, _) => Splittable(l) && Splittable(r)
  }

  /** A split leaf: two leaves below it, and the range itself unless none may be kept. */
  function SplitLeaf(r: Range, limit: nat): Tree
    requires r.card > 0
  {
    var v := SplitValue(r);
    var blank := NewRange(ChildSplitCard(r));
    Node(Leaf(Fill(blank, Part(r.entries, v, true))), Leaf(Fill(blank, Part(r.entries, v, false))), v, 1,
         if limit == 0 then None else Some(r))
  }

  function AddLeaf(r: Range, e: NumEntry, limit: nat): (Tree, Report)
    requires r.splitCard >= 1
  {
    var r' := AddTo(r, e, true);
    if MustSplit(r') then
      (SplitLeaf(r', limit),
       Report(true, 1 + |r'.entries| - if limit == 0 then r'.numEntries else 0, 2 - if limit == 0 then 1 else 0))
    else (Leaf(r'), Report(false, 1, 0))
  }

  /** An interior node after one of its children took the entry. */
  function Rejoin(t: Tree, own: Option<Range>, goLeft: bool, child: Tree, rv: Report, limit: nat): (Tree, Report)
    requires t.Node? && (rv.changed ==> child.Node?)
  {
    var records := rv.numRecords + if own.Some? then 1 else 0;
    if !rv.changed then
      (t.(left := if goLeft then child else t.left, right := if goLeft then t.right else child, range := own),
       rv.(numRecords := records))
    else
      var drops := t.maxDepth + 1 > limit && own.Some?;
      var c := Balance(child);
      (Node(if goLeft then c else t.left, if goLeft then t.right else c, t.value, t.maxDepth + 1,
            if drops then None else own),
       Report(true, records - (if drops then own.value.numEntries else 0), rv.numRanges - if drops then 1 else 0))
  }

  function OwnRange(t: Tree, e: NumEntry): Option<Range>
    requires t.Node?
  {
    if t.range.Some? then Some(AddTo(t.range.value, e, false)) else None
  }

  /** Add an entry below a node. A node that becomes too deep gives up its range. */
  function Add(t: Tree, e: NumEntry, limit: nat): (r: (Tree, Report))
    requires Splittable(t)
    ensures r.1.changed ==> r.0.Node?
  {
    match t
    case Leaf(r) => AddLeaf(r, e, limit)
    case Node(l, r, v, _, _) =>
      var goLeft := e.value < v;
      var (child, rv) := Add(if goLeft then l else r, e, limit);
      Rejoin(t, OwnRange(t, e), goLeft, child, rv, limit)
  }

  /** The child an entry goes to. */
  function Toward(t: Tree, e: NumEntry): Tree
    requires t.Node?
  {
    if e.value < t.value then t.left else t.right
  }

  lemma AddUnfold(t: Tree, e: NumEntry, limit: nat)
    requires Splittable(t) && t.Node?
    ensures Splittable(Toward(t, e))
    ensures var (child, rv) := Add(Toward(t, e), e, limit);
            Add(t, e, limit) == Rejoin(t, OwnRange(t, e), e.value < t.value, child, rv, limit)
  {
  }

  lemma SplitContents(r: Range, limit: nat)
    requires r.card > 0
    ensures multiset(Contents(SplitLeaf(r, limit))) == multiset(r.entries)
    ensures Records(SplitLeaf(r, limit)) == |r.entries| + if limit == 0 then 0 else r.numEntries
    ensures Ranges(SplitLeaf(r, limit)) == 2 + if limit == 0 then 0 else 1
  {
    hide Part, Fill;
    PartsTogether(r.entries, SplitValue(r));
    var a, b := Part(r.entries, SplitValue(r), true), Part(r.entries, SplitValue(r), false);
    assert |a| + |b| == |multiset(a)| + |multiset(b)| == |multiset(r.entries)| == |r.entries|;
    assert [] + a == a && [] + b == b;
  }

  /** The leaves hold one entry more, and the report says how the counts really changed. */
  ghost predicate Grew(t: Tree, t': Tree, e: NumEntry, rv: Report) {
    && multiset(Contents(t')) == multiset(Contents(t)) + multiset{e}
    && rv.numRecords == Records(t') - Records(t) && rv.numRanges == Ranges(t') - Ranges(t)
  }

  lemma LeafGrew(r: Range, e: NumEntry, limit: nat)
    requires r.splitCard >= 1
    ensures Grew(Leaf(r), AddLeaf(r, e, limit).0, e, AddLeaf(r, e, limit).1)
  {
    hide AddTo, SplitLeaf;
    var r' := AddTo(r, e, true);
    assert multiset(r'.entries) == multiset(r.entries) + multiset{e};
    if MustSplit(r') { SplitContents(r', limit); }
  }

  lemma BalancedGrew(t: Tree, t': Tree, e: NumEntry, rv: Report)
    requires t'.Node? && Grew(t, t', e, rv)
    ensures Grew(t, Balance(t'), e, rv)
  {
    hide Balance, Contents, Records, Ranges;
    BalanceContents(t');
    BalanceCounts(t');
  }

  lemma RejoinGrew(t: Tree, e: NumEntry, child: Tree, rv: Report, limit: nat)
    requires t.Node? && (rv.changed ==> child.Node?) && Grew(Toward(t, e), child, e, rv)
    ensures var (t', rv') := Rejoin(t, OwnRange(t, e), e.value < t.value, child, rv, limit);
            Grew(t, t', e, rv')
  {
    hide Balance, AddTo, Grew;
    var c := if rv.changed then Balance(child) else child;
    if rv.changed { BalancedGrew(Toward(t, e), child, e, rv); }
    var (t', rv') := Rejoin(t, OwnRange(t, e), e.value < t.value, child, rv, limit);
    if e.value < t.value { JoinedGrew(t, t', c, true, e, rv, rv'); } else { JoinedGrew(t, t', c, false, e, rv, rv'); }
  }

  /** A node grew as much as the child that took the entry, and by the entry in its own range. */
  lemma JoinedGrew(t: Tree, t': Tree, c: Tree, onLeft: bool, e: NumEntry, rv: Report, rv': Report)
    requires t.Node? && t'.Node? && Grew(if onLeft then t.left else t.right, c, e, rv)
    requires if onLeft then t'.left == c && t'.right == t.right else t'.left == t.left && t'.right == c
    requires rv'.numRecords == rv.numRecords + RangeSize(t'.range) - RangeSize(t.range)
    requires rv'.numRanges == rv.numRanges + RangeCount(t'.range) - RangeCount(t.range)
    ensures Grew(t, t', e, rv')
  {
  }

  ghost function RangeSize(r: Option<Range>): int { if r.Some? then r.value.numEntries else 0 }

  ghost function RangeCount(r: Option<Range>): int { if r.Some? then 1 else 0 }

  lemma {:induction false} AddGrew(t: Tree, e: NumEntry, limit: nat)
    requires Splittable(t)
    ensures Grew(t, Add(t, e, limit).0, e, Add(t, e, limit).1)
  {
    hide Grew, Rejoin, AddLeaf;
    match t
    case Leaf(r) => LeafGrew(r, e, limit);
    case Node(_, _, _, _, _) =>
      AddUnfold(t, e, limit);
      AddGrew(Toward(t, e), e, limit);
      RejoinGrew(t, e, Add(Toward(t, e), e, limit).0, Add(Toward(t, e), e, limit).1, limit);
  }

  /** A tidy tree that is shallow enough stays tidy, and gets at most one level deeper. */
  lemma {:induction false} AddTidy(t: Tree, e: NumEntry, limit: nat)
    requires Splittable(t) && Tidy(t) && Depth(t) <= MAX_DEPTH_BALANCE
    ensures var (t', rv) := Add(t, e, limit);
            Tidy(t') && if rv.changed then Depth(t') == Depth(t) + 1 else Depth(t') == Depth(t)
  {
    hide AddTo, Part, Fill, Balance;
    if t.Node? {
      AddUnfold(t, e, limit);
      var c := Toward(t, e);
      AddTidy(c, e, limit);
      var (child, rv) := Add(c, e, limit);
      if rv.changed { BalanceTidy(child); }
    }
  }

  lemma {:induction false} AddShallow(t: Tree, e: NumEntry, limit: nat)
    requires Splittable(t) && Shallow(t, limit) && limit <= MAX_DEPTH_BALANCE
    ensures Shallow(Add(t, e, limit).0, limit)
  {
    hide AddTo, Part, Fill, Balance, SplitLeaf;
    if t.Leaf? {
      var r' := AddTo(t.leafRange, e, true);
      if MustSplit(r') { SplitShallow(r', limit); }
    } else {
      hide Add, Tidy;
      AddUnfold(t, e, limit);
      var c := Toward(t, e);
      AddShallow(c, e, limit);
      var (child, rv) := Add(c, e, limit);
      if rv.changed { BalanceShallow(child, limit); }
      if t.range.Some? { AddTidy(t, e, limit); }
    }
  }

  lemma SplitShallow(r: Range, limit: nat)
    requires r.card > 0
    ensures Shallow(SplitLeaf(r, limit), limit)
  {
    hide Part, Fill;
    var t := SplitLeaf(r, limit);
    assert Tidy(t.left) && Tidy(t.right);
  }

  lemma {:induction false} AddSplittable(t: Tree, e: NumEntry, limit: nat)
    requires Splittable(t)
    ensures Splittable(Add(t, e, limit).0)
  {
    hide AddTo, Part, Fill, Balance, SplitLeaf;
    if t.Leaf? {
      var r' := AddTo(t.leafRange, e, true);
      if MustSplit(r') { SplitSplittable(r', limit); }
    } else {
      AddUnfold(t, e, limit);
      AddSplittable(Toward(t, e), e, limit);
      var (child, rv) := Add(Toward(t, e), e, limit);
      if rv.changed { BalanceSplittable(child); }
    }
  }

  lemma SplitSplittable(r: Range, limit: nat)
    requires r.card > 0
    ensures Splittable(SplitLeaf(r, limit))
  {
    hide Part, Fill;
  }

  lemma BalanceSplittable(t: Tree)
    requires t.Node? && Splittable(t)
    ensures Splittable(Balance(t))
  {
  }

  /** A split keeps the search order if and only if the split value is not outside the leaf's interval. */
  lemma SplitOrdered(r: Range, limit: nat, lo: Option<real>, hi: Option<real>)
    requires WfRange(r) && RangeInside(r, lo, hi) && r.card > 0
    ensures Ordered(SplitLeaf(r, limit), lo, hi) <==> Between(SplitValue(r), lo, hi)
  {
    hide WfRange, SplitValue, Part, Fill, Exact;
    var v, blank := SplitValue(r), NewRange(ChildSplitCard(r));
    var a, b := Part(r.entries, v, true), Part(r.entries, v, false);
    NewRangeWf(ChildSplitCard(r), lo, Some(v));
    NewRangeWf(ChildSplitCard(r), Some(v), hi);
    forall i | 0 <= i < |a| ensures Inside(a[i].value, lo, Some(v)) { PartMember(r.entries, v, true, i); }
    forall i | 0 <= i < |b| ensures Inside(b[i].value, Some(v), hi) { PartMember(r.entries, v, false, i); }
    FillKeeps(blank, a, lo, Some(v));
    FillKeeps(blank, b, Some(v), hi);
  }

  /** If the leaf that takes the entry splits, its split value is not outside the leaf's interval. */
  ghost predicate SplitsInside(t: Tree, e: NumEntry, lo: Option<real>, hi: Option<real>)
    requires Splittable(t)
  {
    match t
    case Leaf(r) =>
      var r' := AddTo(r, e, true);
      MustSplit(r') ==> Between(SplitValue(r'), lo, hi)
    case Node(l, r, v, _, _) =>
      if e.value < v then SplitsInside(l, e, lo, Some(v)) else SplitsInside(r, e, Some(v), hi)
  }

  /** Adding keeps the search order, also across splits and rotations, if and only if a split value is inside. */
  lemma {:induction false} AddOrdered(t: Tree, e: NumEntry, limit: nat, lo: Option<real>, hi: Option<real>)
    requires Splittable(t) && Shallow(t, limit) && limit <= MAX_DEPTH_BALANCE
    requires Ordered(t, lo, hi) && Inside(e.value, lo, hi)
    ensures Ordered(Add(t, e, limit).0, lo, hi) <==> SplitsInside(t, e, lo, hi)
  {
    hide AddTo, Part, Fill, Balance, WfRange, RangeInside, SplitLeaf, SplitValue;
    match t
    case Leaf(r) =>
      AddKeeps(r, e, true, lo, hi);
      var r' := AddTo(r, e, true);
      if MustSplit(r') { SplitOrdered(r', limit, lo, hi); }
    case Node(_, _, v, _, range) =>
      AddUnfold(t, e, limit);
      var c := Toward(t, e);
      var lo', hi' := if e.value < v then lo else Some(v), if e.value < v then Some(v) else hi;
      AddOrdered(c, e, limit, lo', hi');
      AddShallow(c, e, limit);
      var (child, rv) := Add(c, e, limit);
      if rv.changed { BalanceOrdered(child, limit, lo', hi'); }
      if range.Some? { AddKeeps(range.value, e, false, lo, hi); }
  }

  /** In a tree that was never collected every split value is a mean of values in the interval. */
  lemma {:induction false} UncollectedSplits(t: Tree, e: NumEntry, lo: Option<real>, hi: Option<real>)
    requires Splittable(t) && Ordered(t, lo, hi) && Inside(e.value, lo, hi) && Uncollected(t)
    ensures SplitsInside(t, e, lo, hi)
  {
    hide AddTo, WfRange, RangeInside, SplitValue, Excess;
    match t
    case Leaf(r) =>
      AddKeeps(r, e, true, lo, hi);
      if MustSplit(AddTo(r, e, true)) { SplitInside(AddTo(r, e, true), lo, hi); }
    case Node(l, r, v, _, _) =>
      if e.value < v { UncollectedSplits(l, e, lo, Some(v)); } else { UncollectedSplits(r, e, Some(v), hi); }
  }

  lemma LeafUncollected(r: Range, e: NumEntry, limit: nat, lo: Option<real>, hi: Option<real>)
    requires r.splitCard >= 1 && WfRange(r) && RangeInside(r, lo, hi) && Inside(e.value, lo, hi) && Exact(r)
    ensures Uncollected(AddLeaf(r, e, limit).0)
  {
    hide AddTo, WfRange, RangeInside, Part, Fill, SplitValue, Excess;
    AddKeeps(r, e, true, lo, hi);
    var r' := AddTo(r, e, true);
    if MustSplit(r') {
      var blank := NewRange(ChildSplitCard(r'));
      NewRangeWf(ChildSplitCard(r'), None, None);
      FillKeeps(blank, Part(r'.entries, SplitValue(r'), true), None, None);
      FillKeeps(blank, Part(r'.entries, SplitValue(r'), false), None, None);
    }
  }

  lemma BalanceUncollected(t: Tree)
    requires t.Node? && Uncollected(t)
    ensures Uncollected(Balance(t))
  {
    hide Exact;
  }

  lemma {:induction false} AddUncollected(t: Tree, e: NumEntry, limit: nat, lo: Option<real>, hi: Option<real>)
    requires Splittable(t) && Ordered(t, lo, hi) && Inside(e.value, lo, hi) && Uncollected(t)
    ensures Uncollected(Add(t, e, limit).0)
  {
    hide AddLeaf, Balance, WfRange, RangeInside, Exact;
    match t
    case Leaf(r) => LeafUncollected(r, e, limit, lo, hi);
    case Node(l, r, v, _, _) =>
      AddUnfold(t, e, limit);
      var lo', hi' := if e.value < v then lo else Some(v), if e.value < v then Some(v) else hi;
      AddUncollected(Toward(t, e), e, limit, lo', hi');
      var (child, rv) := Add(Toward(t, e), e, limit);
      if rv.changed { BalanceUncollected(child); }
  }

  /** Adding keeps every kept range a copy of what is below it. */
  lemma {:induction false} AddCopies(t: Tree, e: NumEntry, limit: nat, docs: iset<nat>)
    requires Splittable(t) && Shallow(t, limit) && limit <= MAX_DEPTH_BALANCE && Copies(t, docs)
    ensures Copies(Add(t, e, limit).0, docs)
  {
    hide AddTo, Part, Fill, Balance, SplitLeaf, Contents;
    match t
    case Leaf(r) =>
      var r' := AddTo(r, e, true);
      if MustSplit(r') { SplitCopies(r', limit, docs); }
    case Node(_, _, _, _, range) =>
      AddUnfold(t, e, limit);
      var c := Toward(t, e);
      AddCopies(c, e, limit, docs);
      AddShallow(c, e, limit);
      var (child, rv) := Add(c, e, limit);
      if rv.changed { BalanceCopies(child, limit, docs); }
      AddGrew(t, e, limit);
      if range.Some? { assert multiset(AddTo(range.value, e, false).entries) == multiset(range.value.entries) + multiset{e}; }
  }

  lemma SplitCopies(r: Range, limit: nat, docs: iset<nat>)
    requires r.card > 0
    ensures Copies(SplitLeaf(r, limit), docs)
  {
    SplitContents(r, limit);
  }

  lemma {:induction false} AddInIdOrder(t: Tree, e: NumEntry, limit: nat, last: nat)
    requires Splittable(t) && InIdOrder(t, last) && last <= e.docId
    ensures InIdOrder(Add(t, e, limit).0, e.docId)
  {
    hide AddTo, Part, Fill, Balance, IdOrdered;
    match t
    case Leaf(r) =>
      AddIds(r, e, true, last);
      var r' := AddTo(r, e, true);
      if MustSplit(r') {
        var a, b := Part(r'.entries, SplitValue(r'), true), Part(r'.entries, SplitValue(r'), false);
        assert [] + a == a && [] + b == b;
        PartIds(r'.entries, SplitValue(r'), true, e.docId);
        PartIds(r'.entries, SplitValue(r'), false, e.docId);
      }
    case Node(_, _, _, _, range) =>
      AddUnfold(t, e, limit);
      AddInIdOrder(Toward(t, e), e, limit, last);
      LaterIds(t, last, e.docId);
      var (child, rv) := Add(Toward(t, e), e, limit);
      if rv.changed { BalanceIds(child, e.docId); }
      if range.Some? { AddIds(range.value, e, false, last); }
  }

  lemma {:induction false} LaterIds(t: Tree, last: nat, later: nat)
    requires InIdOrder(t, last) && last <= later
    ensures InIdOrder(t, later)
  {
    if t.Node? {
      LaterIds(t.left, last, later);
      LaterIds(t.right, last, later);
    }
  }
}
