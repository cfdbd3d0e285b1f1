/** Removing empty leaves from the numeric tree. */
module NumericTrim {
  import opened Bytes
  import opened NumericRanges
  import opened NumericTree

  /** How many interior nodes keep a range. */
  ghost function InnerRanges(t: Tree): int {
    match t
    case Leaf(_) => 0
    case Node(l, r, _, _, range) => InnerRanges(l) + InnerRanges(r) + RangeCount(range)
  }

  ghost predicate EmptyLeaf(t: Tree) {
    t.Leaf? && t.leafRange.entries == []
  }

  /** A node whose children were trimmed: keep it, or replace it by a child. */
  function Prune(n: Tree, leftEmpty: bool, rightEmpty: bool, rv: Report): (Tree, bool, Report)
    requires n.Node?
  {
    if !leftEmpty && !rightEmpty then (if rv.changed then Balance(n) else n, false, rv)
    else if n.range.Some? && n.range.value.entries != [] then (n, false, rv.(changed := true))
    else
      // a range kept here is given up, and taken off the count twice
      var count := rv.numRanges - (if n.range.Some? then 2 else 0) - 1;
      (if rightEmpty && !leftEmpty then n.left else n.right, leftEmpty && rightEmpty, Report(true, rv.numRecords, count))
  }

  /** Trim the right side, then the left; the result is the tree, whether it is empty, and the report so far. */
  function Trim(t: Tree, rv: Report): (Tree, bool, Report) {
    match t
    case Leaf(r) => (t, r.entries == [], rv)
    case Node(l, r, _, _, _) =>
      var (r', re, rv1) := Trim(r, rv);
      var (l', le, rv2) := Trim(l, rv1);
      Prune(t.(left := l', right := r'), le, re, rv2)
  }

  lemma PruneContents(n: Tree, le: bool, re: bool, rv: Report)
    requires n.Node? && (le ==> EmptyLeaf(n.left)) && (re ==> EmptyLeaf(n.right))
    ensures var (t', empty, rv') := Prune(n, le, re, rv);
            && (empty ==> EmptyLeaf(t')) && Contents(t') == Contents(n)
            && rv'.numRanges - rv.numRanges == Ranges(t') - Ranges(n) + InnerRanges(t') - InnerRanges(n)
  {
    hide Balance;
    BalanceContents(n);
    BalanceCounts(n);
    BalanceInner(n);
  }

  lemma BalanceInner(t: Tree)
    requires t.Node?
    ensures InnerRanges(Balance(t)) == InnerRanges(t)
  {
  }

  /**
   * Trimming keeps the stored entries, in order. An empty result is a single empty leaf. The reported change of
   * the range count is off by the number of interior ranges that were given up.
   */
  lemma {:induction false} TrimContents(t: Tree, rv: Report)
    ensures var (t', empty, rv') := Trim(t, rv);
            && (empty ==> EmptyLeaf(t')) && Contents(t') == Contents(t)
            && rv'.numRanges - rv.numRanges == Ranges(t') - Ranges(t) + InnerRanges(t') - InnerRanges(t)
  {
    match t
    case Leaf(_) =>
    case Node(l, r, _, _, _) =>
      hide Prune;
      TrimContents(r, rv);
      var (r', re, rv1) := Trim(r, rv);
      TrimContents(l, rv1);
      var (l', le, rv2) := Trim(l, rv1);
      PruneContents(t.(left := l', right := r'), le, re, rv2);
  }

  /** A range kept by a node that is trimmed is counted twice. */
  lemma TrimMiscounts()
    ensures var r := NewRange(16);
            var t := Node(Leaf(r), Leaf(r), 0.0, 1, Some(r));
            var (t', _, rv) := Trim(t, Report(false, 0, 0));
            Ranges(t) + rv.numRanges != Ranges(t')
  {
    var r := NewRange(16);
    var t := Node(Leaf(r), Leaf(r), 0.0, 1, Some(r));
    assert Trim(t.left, Report(false, 0, 0)).1 && Trim(t.right, Report(false, 0, 0)).1;
  }

  /** Without interior ranges there are none to count twice. */
  lemma {:induction false} NoInnerRanges(t: Tree)
    requires Shallow(t, 0)
    ensures InnerRanges(t) == 0
  {
    if t.Node? {
      NoInnerRanges(t.left);
      NoInnerRanges(t.right);
    }
  }

  lemma PruneTidy(n: Tree, le: bool, re: bool, rv: Report)
    requires n.Node? && Tidy(n) && n.maxDepth <= MAX_DEPTH_BALANCE + 1
    ensures var t' := Prune(n, le, re, rv).0;
            Tidy(t') && Depth(t') <= n.maxDepth
  {
    hide Balance;
    BalanceTidy(n);
  }

  /** A tidy tree that is shallow enough stays tidy, and gets no deeper. */
  lemma {:induction false} TrimTidy(t: Tree, rv: Report)
    requires Tidy(t) && Depth(t) <= MAX_DEPTH_BALANCE + 1
    ensures Tidy(Trim(t, rv).0) && Depth(Trim(t, rv).0) <= Depth(t)
  {
    if t.Node? {
      hide Prune;
      TrimTidy(t.right, rv);
      var (r', re, rv1) := Trim(t.right, rv);
      TrimTidy(t.left, rv1);
      var (l', le, rv2) := Trim(t.left, rv1);
      PruneTidy(t.(left := l', right := r'), le, re, rv2);
    }
  }

  lemma PruneShallow(n: Tree, le: bool, re: bool, rv: Report, limit: nat)
    requires n.Node? && Shallow(n, limit) && limit <= MAX_DEPTH_BALANCE && Splittable(n)
    ensures var t' := Prune(n, le, re, rv).0; Shallow(t', limit) && Splittable(t')
  {
    hide Balance;
    BalanceShallow(n, limit);
    BalanceSplittable(n);
  }

  /** The node with its trimmed children. */
  ghost function Joined(t: Tree, rv: Report): Tree
    requires t.Node?
  {
    var (r', re, rv1) := Trim(t.right, rv);
    t.(left := Trim(t.left, rv1).0, right := r')
  }

  lemma TrimUnfold(t: Tree, rv: Report)
    requires t.Node?
    ensures exists le, re, rv' :: Trim(t, rv) == Prune(Joined(t, rv), le, re, rv')
  {
    var (r', re, rv1) := Trim(t.right, rv);
    var (l', le, rv2) := Trim(t.left, rv1);
    assert Trim(t, rv) == Prune(Joined(t, rv), le, re, rv2);
  }

  /** Trimming keeps a shallow tree shallow. */
  lemma {:induction false} TrimShallow(t: Tree, rv: Report, limit: nat)
    requires Shallow(t, limit) && limit <= MAX_DEPTH_BALANCE && Splittable(t)
    ensures Shallow(Trim(t, rv).0, limit) && Splittable(Trim(t, rv).0)
    ensures t.Node? ==> Shallow(Joined(t, rv), limit) && Splittable(Joined(t, rv))
  {
    if t.Node? {
      hide Prune;
      var rv1 := Trim(t.right, rv).2;
      TrimShallow(t.right, rv, limit);
      TrimShallow(t.left, rv1, limit);
      if t.range.Some? {
        TrimTidy(t.right, rv);
        TrimTidy(t.left, rv1);
      }
      TrimUnfold(t, rv);
      var le, re, rv' :| Trim(t, rv) == Prune(Joined(t, rv), le, re, rv');
      PruneShallow(Joined(t, rv), le, re, rv', limit);
    }
  }

  lemma PruneOrdered(n: Tree, le: bool, re: bool, rv: Report, limit: nat, lo: Option<real>, hi: Option<real>)
    requires n.Node? && Ordered(n, lo, hi) && Shallow(n, limit) && limit <= MAX_DEPTH_BALANCE
    ensures Ordered(Prune(n, le, re, rv).0, lo, hi)
  {
    hide WfRange, RangeInside, Balance;
    BalanceOrdered(n, limit, lo, hi);
    Widen(n.left, lo, Some(n.value), lo, hi);
    Widen(n.right, Some(n.value), hi, lo, hi);
  }

  /** Trimming keeps the search order. */
  lemma {:induction false} TrimOrdered(t: Tree, rv: Report, limit: nat, lo: Option<real>, hi: Option<real>)
    requires Ordered(t, lo, hi) && Shallow(t, limit) && limit <= MAX_DEPTH_BALANCE && Splittable(t)
    ensures Ordered(Trim(t, rv).0, lo, hi)
  {
    hide WfRange, RangeInside;
    if t.Node? {
      hide Prune, Shallow;
      TrimOrdered(t.right, rv, limit, Some(t.value), hi) by { ShallowSides(t, limit); }
      TrimOrdered(t.left, Trim(t.right, rv).2, limit, lo, Some(t.value)) by { ShallowSides(t, limit); }
      TrimShallow(t, rv, limit);
      TrimUnfold(t, rv);
      var le, re, rv' :| Trim(t, rv) == Prune(Joined(t, rv), le, re, rv');
      PruneOrdered(Joined(t, rv), le, re, rv', limit, lo, hi);
    }
  }

  lemma ShallowSides(t: Tree, limit: nat)
    requires t.Node? && Shallow(t, limit)
    ensures Shallow(t.left, limit) && Shallow(t.right, limit)
  {
  }

  lemma PruneCopies(n: Tree, le: bool, re: bool, rv: Report, limit: nat, docs: iset<nat>)
    requires n.Node? && Shallow(n, limit) && limit <= MAX_DEPTH_BALANCE && Copies(n, docs)
    ensures Copies(Prune(n, le, re, rv).0, docs)
  {
    hide Balance, Same, Contents;
    BalanceCopies(n, limit, docs);
  }

  /** Trimming keeps every kept range a copy of what is below it. */
  lemma {:induction false} TrimCopies(t: Tree, rv: Report, limit: nat, docs: iset<nat>)
    requires Shallow(t, limit) && limit <= MAX_DEPTH_BALANCE && Splittable(t) && Copies(t, docs)
    ensures Copies(Trim(t, rv).0, docs)
  {
    hide Same;
    if t.Node? {
      hide Prune, Contents;
      var rv1 := Trim(t.right, rv).2;
      TrimCopies(t.right, rv, limit, docs);
      TrimCopies(t.left, rv1, limit, docs);
      TrimContents(t.right, rv);
      TrimContents(t.left, rv1);
      NodeContents(t, Trim(t.left, rv1).0, Trim(t.right, rv).0);
      TrimShallow(t, rv, limit);
      TrimUnfold(t, rv);
      var le, re, rv' :| Trim(t, rv) == Prune(Joined(t, rv), le, re, rv');
      PruneCopies(Joined(t, rv), le, re, rv', limit, docs);
    }
  }

  lemma NodeContents(t: Tree, l': Tree, r': Tree)
    requires t.Node? && Contents(l') == Contents(t.left) && Contents(r') == Contents(t.right)
    ensures Contents(t.(left := l', right := r')) == Contents(t)
  {
  }

  lemma PruneIds(n: Tree, le: bool, re: bool, rv: Report, last: nat)
    requires n.Node? && InIdOrder(n, last)
    ensures InIdOrder(Prune(n, le, re, rv).0, last)
  {
    hide IdOrdered, Balance;
    BalanceIds(n, last);
  }

  lemma {:induction false} TrimIds(t: Tree, rv: Report, last: nat)
    requires InIdOrder(t, last)
    ensures InIdOrder(Trim(t, rv).0, last)
  {
    hide IdOrdered;
    match t
    case Leaf(_) =>
    case Node(l, r, _, _, _) =>
      hide Prune;
      TrimIds(r, rv, last);
      var (r', re, rv1) := Trim(r, rv);
      TrimIds(l, rv1, last);
      var (l', le, rv2) := Trim(l, rv1);
      PruneIds(t.(left := l', right := r'), le, re, rv2, last);
  }
}
