/** The slop checks: are there positions of all terms close enough together, in order or in any order. */
module Slop {

  /** A vector of term positions: not decreasing, starting at 1. */
  ghost predicate Offsets(v: seq<nat>) {
    (forall i :: 0 <= i < |v| ==> v[i] >= 1) && forall i, j :: 0 <= i < j < |v| ==> v[i] <= v[j]
  }

  ghost predicate AllOffsets(vs: seq<seq<nat>>) {
    forall i :: 0 <= i < |vs| ==> Offsets(vs[i])
  }

  /** One position from every vector. */
  ghost predicate Choice(vs: seq<seq<nat>>, c: seq<nat>) {
    |c| == |vs| && forall i :: 0 <= i < |vs| ==> c[i] in vs[i]
  }

  /** Positions in order, where up to every term the words in between are within the slop. */
  ghost predicate InOrder(c: seq<nat>, maxSlop: int) {
    && (forall i :: 1 <= i < |c| ==> c[i - 1] <= c[i])
    && (forall i :: 1 <= i < |c| ==> c[i] - c[0] - i <= maxSlop)
    && (|c| == 1 ==> 0 <= maxSlop)
  }

  ghost predicate OrderedChoice(vs: seq<seq<nat>>, maxSlop: int, c: seq<nat>) {
    Choice(vs, c) && InOrder(c, maxSlop)
  }

  /** positions are below c everywhere. */
  ghost predicate Floor(positions: seq<nat>, c: seq<nat>) {
    |positions| == |c| && forall i :: 0 <= i < |c| ==> positions[i] <= c[i]
  }

  /** No solution is below the cursors. */
  ghost predicate OrderedFloor(vs: seq<seq<nat>>, maxSlop: int, positions: seq<nat>) {
    forall c :: OrderedChoice(vs, maxSlop, c) ==> Floor(positions, c)
  }

  /** The position of a cursor that has read idx entries: 0 before the first. */
  function At(v: seq<nat>, idx: nat): nat
    requires idx <= |v|
  {
    if idx == 0 then 0 else v[idx - 1]
  }

  /** Advance a cursor to the first position that is not below low, if there is one. */
  method Catch(v: seq<nat>, idx: nat, low: nat) returns (k: nat)
    requires idx <= |v| && Offsets(v)
    ensures k > |v| ==> forall i :: 0 <= i < |v| ==> v[i] < low
    ensures k <= |v| ==> idx <= k && low <= At(v, k) && forall i :: 0 <= i < |v| && v[i] >= low && v[i] >= At(v, idx) ==> At(v, k) <= v[i]
  {
    k := idx;
    while k <= |v| && At(v, k) < low
      invariant idx <= k <= |v| + 1
      invariant forall i :: 0 <= i < k && i < |v| && v[i] >= low ==> k == idx || i == k - 1
      invariant k > idx ==> At(v, k - 1) < low
    {
      k := k + 1;
    }
  }

  ghost predicate Cursors(vs: seq<seq<nat>>, idx: seq<nat>) {
    |idx| == |vs| && forall i :: 0 <= i < |vs| ==> idx[i] <= |vs[i]|
  }

  /** Where all cursors stand. */
  ghost function Positions(vs: seq<seq<nat>>, idx: seq<nat>): (p: seq<nat>)
    requires Cursors(vs, idx)
    ensures |p| == |vs| && forall i :: 0 <= i < |vs| ==> p[i] == At(vs[i], idx[i])
  {
    seq(|vs|, i requires 0 <= i < |vs| => At(vs[i], idx[i]))
  }

  /** Nothing is found at or below the first cursor any more. */
  ghost predicate FirstDone(vs: seq<seq<nat>>, maxSlop: int, idx: seq<nat>)
    requires Cursors(vs, idx) && vs != []
  {
    forall c :: OrderedChoice(vs, maxSlop, c) ==> At(vs[0], idx[0]) < c[0]
  }

  lemma FirstAdvance(vs: seq<seq<nat>>, maxSlop: int, idx: seq<nat>)
    requires AllOffsets(vs) && Cursors(vs, idx) && vs != []
    requires OrderedFloor(vs, maxSlop, Positions(vs, idx)) && FirstDone(vs, maxSlop, idx)
    ensures idx[0] == |vs[0]| ==> !exists c :: OrderedChoice(vs, maxSlop, c)
    ensures idx[0] < |vs[0]| ==>
              && Cursors(vs, idx[0 := idx[0] + 1])
              && OrderedFloor(vs, maxSlop, Positions(vs, idx[0 := idx[0] + 1]))
  {
    hide InOrder;
    forall c | OrderedChoice(vs, maxSlop, c) ensures idx[0] < |vs[0]| && vs[0][idx[0]] <= c[0] {
      var j :| 0 <= j < |vs[0]| && vs[0][j] == c[0];
      assert Offsets(vs[0]);
    }
  }

  /** Catching up with the cursor before loses nothing. */
  lemma CatchAdvance(vs: seq<seq<nat>>, maxSlop: int, idx: seq<nat>, i: nat, k: nat)
    requires AllOffsets(vs) && Cursors(vs, idx) && 1 <= i < |vs|
    requires OrderedFloor(vs, maxSlop, Positions(vs, idx))
    requires var v, low := vs[i], At(vs[i - 1], idx[i - 1]);
             if k > |v| then forall j :: 0 <= j < |v| ==> v[j] < low
             else forall j :: 0 <= j < |v| && v[j] >= low && v[j] >= At(v, idx[i]) ==> At(v, k) <= v[j]
    ensures k > |vs[i]| ==> !exists c :: OrderedChoice(vs, maxSlop, c)
    ensures k <= |vs[i]| ==> Cursors(vs, idx[i := k]) && OrderedFloor(vs, maxSlop, Positions(vs, idx[i := k]))
  {
    forall c | OrderedChoice(vs, maxSlop, c) ensures k <= |vs[i]| && At(vs[i], k) <= c[i] {
      assert Floor(Positions(vs, idx), c);
      assert c[i - 1] <= c[i];
      var j :| 0 <= j < |vs[i]| && vs[i][j] == c[i];
    }
  }

  /** The cursors up to i are in order, and up to the one before the last within the slop. */
  ghost predicate Chain(p: seq<nat>, i: nat, maxSlop: int) {
    && 1 <= i <= |p|
    && (forall j :: 1 <= j < i ==> p[j - 1] <= p[j])
    && (forall j :: 1 <= j < i - 1 ==> p[j] - p[0] - j <= maxSlop)
  }

  lemma ChainStep(vs: seq<seq<nat>>, idx: seq<nat>, i: nat, k: nat, maxSlop: int)
    requires Cursors(vs, idx) && 1 <= i < |vs| && k <= |vs[i]| && Chain(Positions(vs, idx), i, maxSlop)
    requires At(vs[i - 1], idx[i - 1]) <= At(vs[i], k)
    requires var p := Positions(vs, idx); i > 1 ==> p[i - 1] - p[0] - (i - 1) <= maxSlop
    ensures Chain(Positions(vs, idx[i := k]), i + 1, maxSlop)
  {
    var p, q := Positions(vs, idx), Positions(vs, idx[i := k]);
    assert forall j :: 0 <= j < i ==> q[j] == p[j];
  }

  /** Beyond the slop at cursor i: every solution starts later. */
  lemma TooFar(vs: seq<seq<nat>>, maxSlop: int, idx: seq<nat>, i: nat)
    requires Cursors(vs, idx) && 1 <= i <= |vs| && OrderedFloor(vs, maxSlop, Positions(vs, idx))
    requires var p := Positions(vs, idx); p[i - 1] - p[0] - (i - 1) > maxSlop && (i == 1 ==> |vs| == 1)
    ensures FirstDone(vs, maxSlop, idx)
  {
    var p := Positions(vs, idx);
    forall c | OrderedChoice(vs, maxSlop, c) ensures p[0] < c[0] {
      assert Floor(p, c);
      assert i > 1 ==> c[i - 1] - c[0] - (i - 1) <= maxSlop;
    }
  }

  lemma FoundChoice(vs: seq<seq<nat>>, maxSlop: int, idx: seq<nat>)
    requires Cursors(vs, idx) && vs != [] && Chain(Positions(vs, idx), |vs|, maxSlop)
    requires var p, n := Positions(vs, idx), |vs|; p[n - 1] - p[0] - (n - 1) <= maxSlop
    requires forall i :: 0 <= i < |vs| ==> idx[i] >= 1
    ensures exists c :: OrderedChoice(vs, maxSlop, c)
  {
    var p := Positions(vs, idx);
    forall i | 0 <= i < |vs| ensures p[i] in vs[i] { assert p[i] == vs[i][idx[i] - 1]; }
    assert OrderedChoice(vs, maxSlop, p);
  }

  lemma StartFloor(vs: seq<seq<nat>>, maxSlop: int, idx: seq<nat>)
    requires AllOffsets(vs) && Cursors(vs, idx) && vs != [] && forall i :: 0 <= i < |vs| ==> idx[i] == 0
    ensures OrderedFloor(vs, maxSlop, Positions(vs, idx)) && FirstDone(vs, maxSlop, idx)
  {
    forall c | OrderedChoice(vs, maxSlop, c) ensures 0 < c[0] {
      assert c[0] in vs[0] && Offsets(vs[0]);
    }
  }

  /** Find positions in order: the cursors only move forward, and lose no solution. */
  method WithinInOrder(vs: seq<seq<nat>>, maxSlop: int) returns (ok: bool)
    requires vs != [] && AllOffsets(vs)
    ensures ok <==> exists c :: OrderedChoice(vs, maxSlop, c)
  {
    hide OrderedChoice, OrderedFloor, FirstDone, Chain, Offsets;
    var n := |vs|;
    var idx: seq<nat> := seq(n, _ => 0);
    StartFloor(vs, maxSlop, idx);
    while true
      invariant Cursors(vs, idx) && OrderedFloor(vs, maxSlop, Positions(vs, idx)) && FirstDone(vs, maxSlop, idx)
      decreases |vs[0]| - idx[0]
    {
      FirstAdvance(vs, maxSlop, idx);
      if idx[0] == |vs[0]| {
        return false;
      }
      idx := idx[0 := idx[0] + 1];
      var span: int, i: nat := 0, 1;
      assert Chain(Positions(vs, idx), 1, maxSlop) by { ChainOne(Positions(vs, idx), maxSlop); }
      ghost var first := idx[0];
      while i < n && (i == 1 || span <= maxSlop)
        invariant 1 <= i <= n && Cursors(vs, idx) && OrderedFloor(vs, maxSlop, Positions(vs, idx)) && idx[0] == first
        invariant Chain(Positions(vs, idx), i, maxSlop)
        invariant span == At(vs[i - 1], idx[i - 1]) - At(vs[0], idx[0]) - (i - 1)
        invariant forall j :: 0 <= j < i ==> idx[j] >= 1
      {
        var low := At(vs[i - 1], idx[i - 1]);
        assert low >= 1 by { PositiveAt(vs, idx, i - 1); }
        assert Offsets(vs[i]);
        var k := Catch(vs[i], idx[i], low);
        CatchAdvance(vs, maxSlop, idx, i, k);
        if k > |vs[i]| {
          return false;
        }
        ChainStep(vs, idx, i, k, maxSlop);
        span := span + (At(vs[i], k) - low - 1);
        idx := idx[i := k];
        i := i + 1;
      }
      if span <= maxSlop {
        FoundChoice(vs, maxSlop, idx);
        return true;
      }
      TooFar(vs, maxSlop, idx, i);
    }
  }

  lemma ChainOne(p: seq<nat>, maxSlop: int)
    requires p != []
    ensures Chain(p, 1, maxSlop)
  {
  }

  lemma PositiveAt(vs: seq<seq<nat>>, idx: seq<nat>, i: nat)
    requires AllOffsets(vs) && Cursors(vs, idx) && i < |vs| && idx[i] >= 1
    ensures At(vs[i], idx[i]) >= 1
  {
    assert Offsets(vs[i]);
  }

  ghost function MinOf(c: seq<nat>): (m: nat)
    requires c != []
    ensures m in c && forall i :: 0 <= i < |c| ==> m <= c[i]
  {
    if |c| == 1 then c[0]
    else
      var m := MinOf(c[..|c| - 1]);
      if c[|c| - 1] < m then c[|c| - 1] else m
  }

  ghost function MaxOf(c: seq<nat>): (m: nat)
    requires c != []
    ensures m in c && forall i :: 0 <= i < |c| ==> c[i] <= m
  {
    if |c| == 1 then c[0]
    else
      var m := MaxOf(c[..|c| - 1]);
      if c[|c| - 1] > m then c[|c| - 1] else m
  }

  /** The least element and the first place it is at. */
  method ArrayMin(arr: seq<nat>) returns (m: nat, pos: nat)
    requires arr != []
    ensures pos < |arr| && m == arr[pos] == MinOf(arr) && forall i :: 0 <= i < pos ==> m < arr[i]
  {
    m, pos := arr[0], 0;
    for i := 1 to |arr|
      invariant pos < i && m == arr[pos]
      invariant (forall j :: 0 <= j < i ==> m <= arr[j]) && forall j :: 0 <= j < pos ==> m < arr[j]
    {
      if arr[i] < m {
        m, pos := arr[i], i;
      }
    }
  }

  /** The greatest element and the last place it is at. */
  method ArrayMax(arr: seq<nat>) returns (m: nat, pos: nat)
    requires arr != []
    ensures pos < |arr| && m == arr[pos] == MaxOf(arr) && forall i :: pos < i < |arr| ==> arr[i] < m
  {
    m, pos := arr[0], 0;
    for i := 1 to |arr|
      invariant pos < i && m == arr[pos]
      invariant (forall j :: 0 <= j < i ==> arr[j] <= m) && forall j :: pos < j < i ==> arr[j] < m
    {
      if arr[i] >= m {
        m, pos := arr[i], i;
      }
    }
  }

  /** A choice of different positions that is within the slop. */
  ghost predicate CloseChoice(vs: seq<seq<nat>>, maxSlop: int, c: seq<nat>) {
    c != [] && Choice(vs, c) && MinOf(c) < MaxOf(c) && MaxOf(c) - MinOf(c) - (|c| - 1) <= maxSlop
  }

  /** x is a position of every term. */
  ghost predicate Common(vs: seq<seq<nat>>, x: nat) {
    forall i :: 0 <= i < |vs| ==> x in vs[i]
  }

  /** The choices the check cannot see: they start, with the first term, at a position all terms have. */
  ghost predicate Unseen(vs: seq<seq<nat>>, c: seq<nat>)
    requires c != []
  {
    c[0] == MinOf(c) && Common(vs, MinOf(c))
  }

  ghost predicate Visible(vs: seq<seq<nat>>, maxSlop: int, c: seq<nat>) {
    CloseChoice(vs, maxSlop, c) && !Unseen(vs, c)
  }

  ghost predicate VisibleFloor(vs: seq<seq<nat>>, maxSlop: int, p: seq<nat>) {
    forall c :: Visible(vs, maxSlop, c) ==> Floor(p, c)
  }

  /** The cursors stand at entries. */
  ghost predicate Standing(vs: seq<seq<nat>>, idx: seq<nat>, p: seq<nat>) {
    |idx| == |vs| == |p| && forall i :: 0 <= i < |vs| ==> idx[i] < |vs[i]| && p[i] == vs[i][idx[i]]
  }

  /** What the other cursors have passed, the first has passed too. */
  ghost predicate FirstLeads(vs: seq<seq<nat>>, p: seq<nat>)
    requires |p| == |vs| && vs != []
  {
    forall i, x :: 1 <= i < |vs| && x in vs[i] && x < p[i] ==> x < p[0]
  }

  /** The window at the cursors: either it is the answer, or no visible choice uses the minimal cursor's position. */
  lemma MinimumIsSpent(vs: seq<seq<nat>>, maxSlop: int, idx: seq<nat>, p: seq<nat>, at: nat)
    requires AllOffsets(vs) && vs != [] && Standing(vs, idx, p) && VisibleFloor(vs, maxSlop, p)
    requires at < |p| && p[at] == MinOf(p) && forall i :: 0 <= i < at ==> p[at] < p[i]
    requires MinOf(p) == MaxOf(p) || MaxOf(p) - MinOf(p) - (|p| - 1) > maxSlop
    ensures forall c :: Visible(vs, maxSlop, c) ==> p[at] < c[at]
  {
    forall c | Visible(vs, maxSlop, c) ensures p[at] < c[at] {
      assert Floor(p, c);
      if c[at] == p[at] {
        Spent(vs, maxSlop, idx, p, c, at);
      }
    }
  }

  lemma FloorSpan(p: seq<nat>, c: seq<nat>, at: nat)
    requires Floor(p, c) && at < |p| && p[at] == MinOf(p) && c[at] == p[at]
    ensures MinOf(c) == MinOf(p) && MaxOf(p) <= MaxOf(c)
  {
    hide MinOf, MaxOf;
    var j :| 0 <= j < |c| && c[j] == MinOf(c);
    assert p[at] <= p[j] <= c[j];
    assert MinOf(c) <= c[at];
    var k :| 0 <= k < |p| && p[k] == MaxOf(p);
    assert p[k] <= c[k] <= MaxOf(c);
  }

  lemma Spent(vs: seq<seq<nat>>, maxSlop: int, idx: seq<nat>, p: seq<nat>, c: seq<nat>, at: nat)
    requires vs != [] && Standing(vs, idx, p) && Floor(p, c) && CloseChoice(vs, maxSlop, c)
    requires at < |p| && p[at] == MinOf(p) && forall i :: 0 <= i < at ==> p[at] < p[i]
    requires MinOf(p) == MaxOf(p) || MaxOf(p) - MinOf(p) - (|p| - 1) > maxSlop
    requires c[at] == p[at]
    ensures Unseen(vs, c)
  {
    hide MinOf, MaxOf, Choice;
    FloorSpan(p, c, at);
    assert MinOf(p) == MaxOf(p);
    assert p[0] <= MaxOf(p);
    assert at == 0;
    forall i | 0 <= i < |vs| ensures MinOf(c) in vs[i] { assert MinOf(p) <= p[i] <= MaxOf(p) && p[i] == vs[i][idx[i]]; }
  }

  /** Moving the minimal cursor on. */
  lemma MinimumMoves(vs: seq<seq<nat>>, maxSlop: int, idx: seq<nat>, p: seq<nat>, at: nat)
    requires AllOffsets(vs) && vs != [] && Standing(vs, idx, p) && VisibleFloor(vs, maxSlop, p) && FirstLeads(vs, p)
    requires at < |p| && p[at] == MinOf(p) && (forall i :: 0 <= i < at ==> p[at] < p[i])
    requires forall c :: Visible(vs, maxSlop, c) ==> p[at] < c[at]
    ensures idx[at] + 1 == |vs[at]| ==> !exists c :: Visible(vs, maxSlop, c)
    ensures idx[at] + 1 < |vs[at]| ==>
              var i', p' := idx[at := idx[at] + 1], p[at := vs[at][idx[at] + 1]];
              Standing(vs, i', p') && VisibleFloor(vs, maxSlop, p') && FirstLeads(vs, p')
  {
    hide CloseChoice, MinOf;
    assert Offsets(vs[at]);
    forall c | Visible(vs, maxSlop, c) ensures idx[at] + 1 < |vs[at]| && vs[at][idx[at] + 1] <= c[at] {
      assert c[at] in vs[at] by { ChosenFrom(vs, maxSlop, c, at); }
      var j :| 0 <= j < |vs[at]| && vs[at][j] == c[at];
      assert j > idx[at];
    }
    if idx[at] + 1 < |vs[at]| {
      var p' := p[at := vs[at][idx[at] + 1]];
      assert p[at] <= p'[at];
      forall i, x | 1 <= i < |vs| && x in vs[i] && x < p'[i] ensures x < p'[0] {
        if i == at {
          var j :| 0 <= j < |vs[at]| && vs[at][j] == x;
          assert j <= idx[at];
          assert x <= p[at] < p[0];
        }
      }
    }
  }

  lemma ChosenFrom(vs: seq<seq<nat>>, maxSlop: int, c: seq<nat>, i: nat)
    requires CloseChoice(vs, maxSlop, c) && i < |vs|
    ensures |c| == |vs| && c[i] in vs[i]
  {
  }

  /** A window within the slop is a visible choice. */
  lemma WindowIsVisible(vs: seq<seq<nat>>, maxSlop: int, idx: seq<nat>, p: seq<nat>)
    requires vs != [] && Standing(vs, idx, p) && FirstLeads(vs, p)
    requires MinOf(p) < MaxOf(p) && MaxOf(p) - MinOf(p) - (|p| - 1) <= maxSlop
    ensures Visible(vs, maxSlop, p)
  {
    hide MinOf, MaxOf;
    forall i | 0 <= i < |vs| ensures p[i] in vs[i] { assert p[i] == vs[i][idx[i]]; }
    var k :| 0 <= k < |p| && p[k] == MaxOf(p);
    assert Common(vs, MinOf(p)) ==> MinOf(p) in vs[k];
  }

  /** How many entries the cursors have before them. */
  ghost function Ahead(vs: seq<seq<nat>>, idx: seq<nat>): nat
    requires |idx| == |vs| && forall i :: 0 <= i < |vs| ==> idx[i] <= |vs[i]|
  {
    if vs == [] then 0
    else Ahead(vs[..|vs| - 1], idx[..|vs| - 1]) + |vs[|vs| - 1]| - idx[|vs| - 1]
  }

  lemma {:induction false} AheadMoves(vs: seq<seq<nat>>, idx: seq<nat>, at: nat)
    requires |idx| == |vs| && (forall i :: 0 <= i < |vs| ==> idx[i] <= |vs[i]|) && at < |vs| && idx[at] < |vs[at]|
    ensures Ahead(vs, idx[at := idx[at] + 1]) == Ahead(vs, idx) - 1
  {
    var n := |vs| - 1;
    if at == n {
      assert idx[at := idx[at] + 1][..n] == idx[..n];
    } else {
      AheadMoves(vs[..n], idx[..n], at);
      assert idx[at := idx[at] + 1][..n] == idx[..n][at := idx[..n][at] + 1];
    }
  }

  lemma StartVisible(vs: seq<seq<nat>>, maxSlop: int, idx: seq<nat>, p: seq<nat>)
    requires AllOffsets(vs) && vs != [] && Standing(vs, idx, p) && forall i :: 0 <= i < |vs| ==> idx[i] == 0
    ensures VisibleFloor(vs, maxSlop, p) && FirstLeads(vs, p)
  {
    hide MinOf, MaxOf;
    forall i, x | 0 <= i < |vs| && x in vs[i] ensures p[i] <= x {
      assert Offsets(vs[i]);
      var j :| 0 <= j < |vs[i]| && vs[i][j] == x;
    }
    forall c | Visible(vs, maxSlop, c) ensures Floor(p, c) {
      forall i | 0 <= i < |vs| ensures p[i] <= c[i] { assert c[i] in vs[i]; }
    }
  }

  /** The largest position after the minimal one moved on. */
  lemma MaxMoves(p: seq<nat>, at: nat, x: nat)
    requires at < |p| && p[at] == MinOf(p) && p[at] <= x
    ensures MaxOf(p[at := x]) == if x > MaxOf(p) then x else MaxOf(p)
  {
    hide MinOf, MaxOf;
    var q := p[at := x];
    assert q[at] == x <= MaxOf(q);
    var k :| 0 <= k < |p| && p[k] == MaxOf(p);
    assert q[k] <= MaxOf(q);
    var j :| 0 <= j < |q| && q[j] == MaxOf(q);
    assert j != at ==> q[j] == p[j] <= MaxOf(p);
    if x <= MaxOf(p) && k == at {
      assert MinOf(p) == MaxOf(p) <= x;
    }
  }

  /**
   * Slide a window over the vectors, always moving the least position on. Exactly the visible close
   * choices are found.
   */
  method WithinUnordered(vs: seq<seq<nat>>, maxSlop: int) returns (ok: bool)
    requires vs != [] && AllOffsets(vs) && forall i :: 0 <= i < |vs| ==> vs[i] != []
    ensures ok <==> exists c :: Visible(vs, maxSlop, c)
  {
    hide Visible, VisibleFloor, FirstLeads, MinOf, MaxOf, Offsets, Ahead;
    var idx: seq<nat> := seq(|vs|, _ => 0);
    var positions: seq<nat> := seq(|vs|, i requires 0 <= i < |vs| => vs[i][0]);
    StartVisible(vs, maxSlop, idx, positions);
    var max, maxPos := ArrayMax(positions);
    while true
      invariant Standing(vs, idx, positions) && VisibleFloor(vs, maxSlop, positions) && FirstLeads(vs, positions)
      invariant max == MaxOf(positions)
      decreases Ahead(vs, idx)
    {
      var min, at := ArrayMin(positions);
      if min != max {
        var span := max - min - (|vs| - 1);
        if span <= maxSlop {
          WindowIsVisible(vs, maxSlop, idx, positions);
          return true;
        }
      }
      MinimumIsSpent(vs, maxSlop, idx, positions, at);
      MinimumMoves(vs, maxSlop, idx, positions, at);
      if idx[at] + 1 == |vs[at]| {
        return false;
      }
      AheadMoves(vs, idx, at);
      var next := vs[at][idx[at] + 1];
      assert positions[at] <= next by { NextIsNotLess(vs, idx, at); }
      MaxMoves(positions, at, next);
      idx, positions := idx[at := idx[at] + 1], positions[at := next];
      if next > max {
        maxPos, max := at, next;
      }
    }
  }

  lemma NextIsNotLess(vs: seq<seq<nat>>, idx: seq<nat>, at: nat)
    requires AllOffsets(vs) && at < |vs| == |idx| && idx[at] + 1 < |vs[at]|
    ensures vs[at][idx[at]] <= vs[at][idx[at] + 1]
  {
    assert Offsets(vs[at]);
  }

  /** If no position is common to all terms, every close choice is visible. */
  lemma AllVisible(vs: seq<seq<nat>>, maxSlop: int)
    requires vs != [] && forall x: nat :: x in vs[0] ==> !Common(vs, x)
    ensures (exists c :: Visible(vs, maxSlop, c)) <==> (exists c :: CloseChoice(vs, maxSlop, c))
  {
    hide MinOf, MaxOf;
    forall c | CloseChoice(vs, maxSlop, c) ensures Visible(vs, maxSlop, c) {
      assert c[0] in vs[0];
    }
  }

  /** A common position can hide the only close choice. */
  lemma CommonPositionHides()
    ensures CloseChoice([[5], [5, 6]], 0, [5, 6])
    ensures forall c :: !Visible([[5], [5, 6]], 0, c)
  {
    assert MinOf([5, 6]) == 5 && MaxOf([5, 6]) == 6 by { assert [5, 6][..1] == [5]; }
    var vs: seq<seq<nat>> := [[5], [5, 6]];
    forall c | CloseChoice(vs, 0, c) ensures Unseen(vs, c) {
      hide MinOf, MaxOf;
      assert c[0] in vs[0] && c[1] in vs[1];
      assert c[0] == 5 && c[1] >= 5;
      assert MinOf(c) == 5;
    }
  }

  /** The children that have positions. */
  ghost function WithOffsets(children: seq<seq<nat>>): (vs: seq<seq<nat>>)
    ensures forall i :: 0 <= i < |vs| ==> vs[i] != [] && vs[i] in children
  {
    if children == [] then []
    else
      var n := |children| - 1;
      WithOffsets(children[..n]) + if children[n] != [] then [children[n]] else []
  }

  /** The test an intersection makes: trivial for a single child or without positions, else one of the two checks. */
  method IsWithinRange(children: seq<seq<nat>>, maxSlop: int, inOrder: bool) returns (ok: bool)
    requires AllOffsets(children)
    ensures |children| <= 1 || WithOffsets(children) == [] ==> ok
    ensures |children| > 1 && WithOffsets(children) != [] ==>
              var vs := WithOffsets(children);
              ok <==> if inOrder then exists c :: OrderedChoice(vs, maxSlop, c) else exists c :: Visible(vs, maxSlop, c)
  {
    hide OrderedChoice, Visible, Offsets;
    if |children| <= 1 {
      return true;
    }
    var vs: seq<seq<nat>> := [];
    for i := 0 to |children|
      invariant vs == WithOffsets(children[..i])
    {
      assert children[..i + 1][..i] == children[..i];
      if children[i] != [] {
        vs := vs + [children[i]];
      }
    }
    assert children[..|children|] == children;
    if |vs| == 0 {
      return true;
    }
    forall i | 0 <= i < |vs| ensures Offsets(vs[i]) { assert vs[i] in children; }
    if inOrder {
      ok := WithinInOrder(vs, maxSlop);
    } else {
      ok := WithinUnordered(vs, maxSlop);
    }
  }
}
