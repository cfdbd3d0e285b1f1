/** The numeric index of a field: the tree with its counters, over runs of adding, collecting and trimming. */
module NumericIndex {
  import opened Bytes
  import opened NumericRanges
  import opened NumericSample
  import opened NumericTree
  import opened NumericLookup
  import opened NumericTrim

  /** es' is es without some entries of documents that are not live. */
  ghost predicate Thinned(es: seq<NumEntry>, es': seq<NumEntry>, live: iset<nat>) {
    if es == [] then es' == []
    else
      var n := |es| - 1;
      || (es' != [] && es'[|es'| - 1] == es[n] && Thinned(es[..n], es'[..|es'| - 1], live))
      || (es[n].docId !in live && Thinned(es[..n], es', live))
  }

  /**
   * The sum that arrives for a sample of these entries: the child samples those of them that it finds alive.
   * What arrives for a negative or a too large value is no real number, and left open.
   */
  ghost predicate Arrives(es: seq<NumEntry>, sum: real) {
    exists seen :: Thinned(es, seen, iset{}) && (AllSend(Sampled(seen)) ==> sum == SentSum(Sampled(seen)))
  }

  /**
   * What the collector leaves of a range: entries of dead documents are gone, but maybe not all of them.
   * Of the sample it sends only the sum arrives, and the sample is empty afterwards. The count of entries
   * can be anything.
   */
  ghost predicate SweptRange(r: Range, r': Range, live: iset<nat>) {
    && Thinned(r.entries, r'.entries, live) && r'.minVal == r.minVal && r'.maxVal == r.maxVal
    && r'.splitCard == r.splitCard && r'.cardCheck == r.cardCheck
    && (r' == r || (r'.values == [] && r'.card == 0 && Arrives(r.entries, r'.uniqueSum)))
  }

  /** The excess of a swept range comes from what its own values arrive as. */
  lemma SweptExcess(r: Range, r': Range, live: iset<nat>) returns (seen: seq<NumEntry>)
    requires SweptRange(r, r', live) && r' != r
    ensures forall i :: 0 <= i < |seen| ==> seen[i] in r.entries
    ensures AllSend(Sampled(seen)) ==> Excess(r') == SentSum(Sampled(seen))
  {
    hide Thinned, SentSum, Sampled;
    seen :| Thinned(r.entries, seen, iset{}) && (AllSend(Sampled(seen)) ==> r'.uniqueSum == SentSum(Sampled(seen)));
    ThinnedMembers(r.entries, seen, iset{});
  }

  /** The collector visits ranges one by one and leaves the nodes alone. */
  ghost predicate Swept(t: Tree, t': Tree, live: iset<nat>) {
    match t
    case Leaf(r) => t'.Leaf? && SweptRange(r, t'.leafRange, live)
    case Node(l, r, v, d, range) =>
      && t'.Node? && t'.value == v && t'.maxDepth == d && t'.range.Some? == range.Some?
      && Swept(l, t'.left, live) && Swept(r, t'.right, live)
      && (range.Some? ==> SweptRange(range.value, t'.range.value, live))
  }

  /** Nothing new, and of live documents nothing less. */
  lemma {:induction false} ThinnedCounts(es: seq<NumEntry>, es': seq<NumEntry>, live: iset<nat>, e: NumEntry)
    requires Thinned(es, es', live)
    ensures multiset(es')[e] <= multiset(es)[e]
    ensures e.docId in live ==> multiset(es')[e] == multiset(es)[e]
    decreases |es|
  {
    if es != [] {
      var n := |es| - 1;
      assert es == es[..n] + [es[n]];
      if es' != [] && es'[|es'| - 1] == es[n] && Thinned(es[..n], es'[..|es'| - 1], live) {
        ThinnedCounts(es[..n], es'[..|es'| - 1], live, e);
        assert es' == es'[..|es'| - 1] + [es[n]];
      } else {
        ThinnedCounts(es[..n], es', live, e);
      }
    }
  }

  lemma ThinnedMembers(es: seq<NumEntry>, es': seq<NumEntry>, live: iset<nat>)
    requires Thinned(es, es', live)
    ensures Same(multiset(es'), multiset(es), live)
    ensures forall i :: 0 <= i < |es'| ==> es'[i] in es
  {
    hide Thinned;
    forall e: NumEntry | e.docId in live ensures multiset(es')[e] == multiset(es)[e] {
      ThinnedCounts(es, es', live, e);
    }
    forall i | 0 <= i < |es'| ensures es'[i] in es {
      ThinnedCounts(es, es', live, es'[i]);
      assert es'[i] in multiset(es');
    }
  }

  lemma {:induction false} ThinnedConcat(a: seq<NumEntry>, a': seq<NumEntry>, b: seq<NumEntry>, b': seq<NumEntry>, live: iset<nat>)
    requires Thinned(a, a', live) && Thinned(b, b', live)
    ensures Thinned(a + b, a' + b', live)
    decreases |b|
  {
    if b == [] {
      assert a + b == a && a' + b' == a';
    } else {
      var n := |b| - 1;
      assert (a + b)[..|a + b| - 1] == a + b[..n];
      if b' != [] && b'[|b'| - 1] == b[n] && Thinned(b[..n], b'[..|b'| - 1], live) {
        ThinnedConcat(a, a', b[..n], b'[..|b'| - 1], live);
        assert (a' + b')[..|a' + b'| - 1] == a' + b'[..|b'| - 1];
      } else {
        ThinnedConcat(a, a', b[..n], b', live);
      }
    }
  }

  lemma {:induction false} ThinnedIds(es: seq<NumEntry>, es': seq<NumEntry>, live: iset<nat>, last: nat)
    requires Thinned(es, es', live) && IdOrdered(es, last)
    ensures IdOrdered(es', last)
    decreases |es|
  {
    if es != [] {
      hide IdOrdered;
      var n := |es| - 1;
      IdOrderedPrefix(es, last);
      if es' != [] && es'[|es'| - 1] == es[n] && Thinned(es[..n], es'[..|es'| - 1], live) {
        ThinnedIds(es[..n], es'[..|es'| - 1], live, es[n].docId);
        IdOrderedSnoc(es'[..|es'| - 1], es[n], last);
        assert es' == es'[..|es'| - 1] + [es[n]];
      } else {
        ThinnedIds(es[..n], es', live, es[n].docId);
        WiderIds(es', es[n].docId, last);
      }
    }
  }

  lemma WiderIds(es: seq<NumEntry>, last: nat, later: nat)
    requires IdOrdered(es, last) && last <= later
    ensures IdOrdered(es, later)
  {
  }

  lemma {:induction false} ThinnedSelf(es: seq<NumEntry>, live: iset<nat>)
    ensures Thinned(es, es, live)
  {
    if es != [] { ThinnedSelf(es[..|es| - 1], live); }
  }

  lemma SweptInside(r: Range, r': Range, live: iset<nat>, lo: Option<real>, hi: Option<real>)
    requires SweptRange(r, r', live) && WfRange(r) && RangeInside(r, lo, hi)
    ensures WfRange(r') && RangeInside(r', lo, hi)
  {
    hide Thinned, Arrives;
    ThinnedMembers(r.entries, r'.entries, live);
  }

  /**
   * A leaf is collected and takes entries until it splits. The split keeps the search order if and only if what the
   * sampled entries arrive as is at most the room that the values sampled since leave below the upper bound; entries
   * from 0 up to 2^62 need room for two each.
   */
  lemma SplitAfterSweep(r: Range, r': Range, live: iset<nat>, es: seq<NumEntry>, limit: nat, lo: Option<real>, hi: Option<real>)
    returns (seen: seq<NumEntry>)
    requires WfRange(r) && RangeInside(r, lo, hi) && SweptRange(r, r', live) && r' != r
    requires (forall i :: 0 <= i < |es| ==> Inside(es[i].value, lo, hi)) && Fill(r', es).card > 0
    ensures forall i :: 0 <= i < |seen| ==> seen[i] in r.entries
    ensures AllSend(Sampled(seen)) ==>
              (Ordered(SplitLeaf(Fill(r', es), limit), lo, hi) <==>
               (hi.Some? ==> SentSum(Sampled(seen)) <= RoomBelow(Fill(r', es).values, hi.value)))
    ensures (forall i :: 0 <= i < |r.entries| ==> 0.0 <= r.entries[i].value < TWO_62 as real)
            && (hi.Some? ==> 2.0 * (|Sampled(seen)| as real) <= RoomBelow(Fill(r', es).values, hi.value))
            ==> Ordered(SplitLeaf(Fill(r', es), limit), lo, hi)
  {
    hide Ordered, SplitLeaf, Fill, Sampled, SentSum, RoomBelow, Excess, SweptRange, WfRange, RangeInside, SplitValue, Between;
    seen := SweptExcess(r, r', live);
    SweptInside(r, r', live, lo, hi);
    FillKeeps(r', es, lo, hi);
    SplitOrdered(Fill(r', es), limit, lo, hi);
    if forall i :: 0 <= i < |r.entries| ==> 0.0 <= r.entries[i].value < TWO_62 as real {
      SmallSend(r.entries, seen);
    }
    if AllSend(Sampled(seen)) {
      CollectedSplits(Fill(r', es), seen, lo, hi);
    }
  }

  lemma SmallSend(es: seq<NumEntry>, seen: seq<NumEntry>)
    requires forall i :: 0 <= i < |es| ==> 0.0 <= es[i].value < TWO_62 as real
    requires forall i :: 0 <= i < |seen| ==> seen[i] in es
    ensures AllSend(Sampled(seen)) && forall i :: 0 <= i < |seen| ==> seen[i].value < TWO_62 as real
  {
    forall i | 0 <= i < |seen| ensures 0.0 <= seen[i].value < TWO_62 as real {
      assert seen[i] in es;
    }
    forall i | 0 <= i < |Sampled(seen)| ensures Sends(Sampled(seen)[i].value) {
      assert Sampled(seen)[i] in seen;
    }
  }

  /** Collecting keeps the search order. */
  lemma {:induction false} SweptOrdered(t: Tree, t': Tree, live: iset<nat>, lo: Option<real>, hi: Option<real>)
    requires Swept(t, t', live) && Ordered(t, lo, hi)
    ensures Ordered(t', lo, hi)
  {
    hide WfRange, RangeInside, SweptRange;
    match t
    case Leaf(r) => SweptInside(r, t'.leafRange, live, lo, hi);
    case Node(l, r, v, _, range) =>
      SweptOrdered(l, t'.left, live, lo, Some(v));
      SweptOrdered(r, t'.right, live, Some(v), hi);
      if range.Some? { SweptInside(range.value, t'.range.value, live, lo, hi); }
  }

  lemma SweptEntries(r: Range, r': Range, live: iset<nat>, last: nat)
    requires SweptRange(r, r', live) && IdOrdered(r.entries, last)
    ensures Thinned(r.entries, r'.entries, live) && IdOrdered(r'.entries, last) && r'.splitCard == r.splitCard
  {
    hide Thinned, IdOrdered, Arrives;
    ThinnedIds(r.entries, r'.entries, live, last);
  }

  /** Collecting keeps the id order, the nodes, and every entry of a live document. */
  lemma {:induction false} SweptKeeps(t: Tree, t': Tree, live: iset<nat>, last: nat)
    requires Swept(t, t', live) && InIdOrder(t, last) && Splittable(t)
    ensures InIdOrder(t', last) && Splittable(t')
    ensures Thinned(Contents(t), Contents(t'), live) && Ranges(t') == Ranges(t)
  {
    hide Thinned, IdOrdered, SweptRange;
    match t
    case Leaf(r) => SweptEntries(r, t'.leafRange, live, last);
    case Node(l, r, _, _, range) =>
      SweptKeeps(l, t'.left, live, last);
      SweptKeeps(r, t'.right, live, last);
      ThinnedConcat(Contents(l), Contents(t'.left), Contents(r), Contents(t'.right), live);
      if range.Some? { SweptEntries(range.value, t'.range.value, live, last); }
  }

  lemma {:induction false} SweptTidy(t: Tree, t': Tree, live: iset<nat>)
    requires Swept(t, t', live) && Tidy(t)
    ensures Tidy(t') && Depth(t') == Depth(t)
  {
    hide SweptRange;
    if t.Node? {
      SweptTidy(t.left, t'.left, live);
      SweptTidy(t.right, t'.right, live);
    }
  }

  lemma {:induction false} SweptShallow(t: Tree, t': Tree, live: iset<nat>, limit: nat)
    requires Swept(t, t', live) && Shallow(t, limit)
    ensures Shallow(t', limit)
  {
    hide SweptRange;
    if t.Node? {
      SweptShallow(t.left, t'.left, live, limit);
      SweptShallow(t.right, t'.right, live, limit);
      if t.range.Some? { SweptTidy(t, t', live); }
    }
  }

  lemma SameFewer(a: multiset<NumEntry>, a': multiset<NumEntry>, b: multiset<NumEntry>, b': multiset<NumEntry>, live: iset<nat>, docs: iset<nat>)
    requires Same(a', a, live) && Same(b', b, live) && Same(a, b, docs) && docs <= live
    ensures Same(a', b', docs)
  {
  }

  /** Ranges are swept one by one, so a kept range may lose other entries than the leaves, but none of a live document. */
  lemma {:induction false} SweptCopies(t: Tree, t': Tree, live: iset<nat>, docs: iset<nat>)
    requires Swept(t, t', live) && Copies(t, docs) && docs <= live
    ensures Copies(t', docs) && Thinned(Contents(t), Contents(t'), live)
  {
    hide Thinned, Same, Arrives;
    if t.Node? {
      SweptCopies(t.left, t'.left, live, docs);
      SweptCopies(t.right, t'.right, live, docs);
      ThinnedConcat(Contents(t.left), Contents(t'.left), Contents(t.right), Contents(t'.right), live);
      ThinnedMembers(Contents(t), Contents(t'), live);
      if t.range.Some? {
        ThinnedMembers(t.range.value.entries, t'.range.value.entries, live);
        SameFewer(multiset(t.range.value.entries), multiset(t'.range.value.entries),
                  multiset(Contents(t)), multiset(Contents(t')), live, docs);
      }
    }
  }

  class RangeTree {
    /** The depth up to which interior nodes keep their range. */
    const limit: nat
    var root: Tree
    /** How many entries were added, less what collections reported. */
    var numEntries: int
    var numRanges: int
    /** The statistic that adds up what every Add reports. */
    var numRecords: int
    var revisionId: nat
    var lastDocId: nat

    ghost predicate Valid()
      reads this
    {
      Sturdy() && Ordered(root, None, None)
    }

    /** What no operation breaks. */
    ghost predicate Sturdy()
      reads this
    {
      limit <= MAX_DEPTH_BALANCE && Splittable(root) && Shallow(root, limit) && InIdOrder(root, lastDocId)
    }

    ghost function All(): multiset<NumEntry>
      reads this
    {
      multiset(Contents(root))
    }

    constructor (limit: nat)
      requires limit <= MAX_DEPTH_BALANCE
      ensures Valid() && Uncollected(root) && Copies(root, AllDocs()) && All() == multiset{} && this.limit == limit
      ensures root == Leaf(NewRange(16))
      ensures numEntries == 0 && numRecords == Records(root) == 0 && numRanges == Ranges(root) && lastDocId == 0
    {
      this.limit := limit;
      root := Leaf(NewRange(16));
      numEntries, numRanges, numRecords, revisionId, lastDocId := 0, 1, 0, 0, 0;
      NewRangeWf(16, None, None);
    }

    /**
     * Add a value for a document. A repeated document is refused unless the field has several values per
     * document. A tree in search order stays so if and only if a split value is inside; it always is
     * while nothing was collected.
     */
    method Add(docId: nat, value: real, isMulti: bool) returns (rv: Report)
      requires Sturdy() && (isMulti ==> lastDocId <= docId)
      modifies this
      ensures docId <= old(lastDocId) && !isMulti ==> unchanged(this) && rv == Report(false, 0, 0)
      ensures old(lastDocId) < docId || isMulti ==>
                && (root, rv) == old(NumericTree.Add(root, NumEntry(docId, value), limit))
                && Sturdy() && All() == old(All()) + multiset{NumEntry(docId, value)} && lastDocId == docId
                && numEntries == old(numEntries) + 1
                && numRecords - Records(root) == old(numRecords - Records(root))
                && numRanges - Ranges(root) == old(numRanges - Ranges(root))
                && revisionId == old(revisionId) + (if rv.changed then 1 else 0)
                && (old(Valid()) ==> (Valid() <==> old(SplitsInside(root, NumEntry(docId, value), None, None))))
      ensures old(Valid() && Uncollected(root)) ==> Valid() && Uncollected(root)
      ensures forall docs :: old(Copies(root, docs)) ==> Copies(root, docs)
    {
      hide NumericTree.Add, Ordered, Copies, Shallow, Splittable, InIdOrder, Contents, Records, Ranges, Uncollected, SplitsInside;
      if docId <= lastDocId && !isMulti {
        return Report(false, 0, 0);
      }
      var e, old0 := NumEntry(docId, value), lastDocId;
      AddGrew(root, e, limit);
      AddShallow(root, e, limit);
      AddSplittable(root, e, limit);
      AddInIdOrder(root, e, limit, old0);
      if Ordered(root, None, None) {
        AddOrdered(root, e, limit, None, None);
        if Uncollected(root) {
          UncollectedSplits(root, e, None, None);
          AddUncollected(root, e, limit, None, None);
        }
      }
      forall docs | Copies(root, docs) ensures Copies(NumericTree.Add(root, e, limit).0, docs) {
        AddCopies(root, e, limit, docs);
      }
      lastDocId := docId;
      var (t, r) := NumericTree.Add(root, e, limit);
      rv := r;
      root := t;
      if rv.changed {
        revisionId := revisionId + 1;
      }
      numRanges := numRanges + rv.numRanges;
      numRecords := numRecords + rv.numRecords;
      numEntries := numEntries + 1;
    }

    /** The collector has swept ranges, and reports how many entries it collected. */
    method Collect(root': Tree, reported: nat, ghost live: iset<nat>)
      requires Sturdy() && Swept(root, root', live)
      modifies this`root, this`numEntries
      ensures Sturdy() && root == root' && (old(Valid()) ==> Valid())
      ensures Thinned(old(Contents(root)), Contents(root), live) && Same(All(), old(All()), live)
      ensures Ranges(root) == old(Ranges(root)) && numEntries == old(numEntries) - reported
      ensures forall docs :: docs <= live && old(Copies(root, docs)) ==> Copies(root, docs)
    {
      hide Ordered, Copies, Shallow, Splittable, InIdOrder, Contents, Ranges, Swept, Thinned, Same;
      SweptKeeps(root, root', live, lastDocId);
      SweptShallow(root, root', live, limit);
      if Ordered(root, None, None) { SweptOrdered(root, root', live, None, None); }
      ThinnedMembers(Contents(root), Contents(root'), live);
      forall docs | docs <= live && Copies(root, docs) ensures Copies(root', docs) {
        SweptCopies(root, root', live, docs);
      }
      root := root';
      numEntries := numEntries - reported;
    }

    /** Remove empty leaves. The count of ranges is off afterwards by the interior ranges given up. */
    method TrimEmptyLeaves() returns (rv: Report)
      requires Sturdy()
      modifies this`root, this`numRanges
      ensures Sturdy() && (old(Valid()) ==> Valid()) && Contents(root) == old(Contents(root))
      ensures numRanges - Ranges(root) == old(numRanges - Ranges(root)) + InnerRanges(root) - old(InnerRanges(root))
      ensures limit == 0 ==> numRanges - Ranges(root) == old(numRanges - Ranges(root))
      ensures forall docs :: old(Copies(root, docs)) ==> Copies(root, docs)
    {
      hide Ordered, Shallow, Splittable, InIdOrder, Contents, Ranges, Trim, Copies, InnerRanges;
      var start := Report(false, 0, 0);
      TrimContents(root, start);
      TrimShallow(root, start, limit);
      if Ordered(root, None, None) { TrimOrdered(root, start, limit, None, None); }
      TrimIds(root, start, lastDocId);
      forall docs | Copies(root, docs) ensures Copies(Trim(root, start).0, docs) {
        TrimCopies(root, start, limit, docs);
      }
      var (t, empty, r) := Trim(root, start);
      if limit == 0 {
        NoInnerRanges(root);
        NoInnerRanges(t);
      }
      rv := r;
      root := t;
      numRanges := numRanges + rv.numRanges;
    }

    /**
     * The ranges to read for a filter: in a tree in search order their iterators together yield exactly the
     * matching entries of the documents the kept ranges have in common with the leaves, and of all if no
     * range is kept.
     */
    method Find(f: Filter) returns (rs: seq<Range>)
      requires Sturdy()
      ensures Valid() && f.limit == 0 && f.offset == 0 ==>
                forall docs :: Copies(root, docs) ==> Same(Yields(rs, f), Hits(Contents(root), f), docs)
      ensures Valid() && f.limit == 0 && f.offset == 0 && limit == 0 ==> Yields(rs, f) == Hits(Contents(root), f)
      ensures CutShort((rs, Select(root, f, 0).1), Select(root, f.(limit := 0), 0), f) && rs == Select(root, f, 0).0
    {
      hide Ordered, Shallow, Splittable, InIdOrder, Contents, Ranges, Copies, Select, Hits, Yields, Parted, WfRanges, Same;
      if Valid() && f.limit == 0 && f.offset == 0 {
        OrderedParted(root, None, None);
        forall docs | Copies(root, docs) ensures Same(Yields(Select(root, f, 0).0, f), Hits(Contents(root), f), docs) {
          SelectExact(root, f, 0, docs);
        }
        if limit == 0 {
          NothingCopied(root, AllDocs());
          SameIsEqual(Yields(Select(root, f, 0).0, f), Hits(Contents(root), f));
        }
      }
      LimitCutsTail(root, f, 0);
      var (r, _) := Select(root, f, 0);
      rs := r;
    }
  }
}
