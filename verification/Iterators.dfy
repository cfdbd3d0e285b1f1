/**
 * The sorted query iterators: id lists, unions (flat and over a heap) and intersections, in trees of any
 * shape. Every one keeps the same contract: Read and SkipTo deliver the least remaining id.
 */
module Iterators {
  import opened IteratorContract
  import opened MinHeap
  import opened KidSets

  datatype Kind = Leaf | Union | HeapUnion | Intersect

  ghost predicate Increasing(ids: seq<nat>) {
    forall i, j :: 0 <= i < j < |ids| ==> ids[i] < ids[j]
  }

  /** The ids from place p on. */
  ghost function Tail(ids: seq<nat>, p: nat): set<nat> {
    set i | p <= i < |ids| :: ids[i]
  }

  /** A linear search in sorted ids meets the contract. */
  lemma TailSkip(ids: seq<nat>, p: nat, q: nat, d: nat)
    requires Increasing(ids) && p <= q <= |ids|
    requires (forall i :: p <= i < q ==> ids[i] < d) && (q < |ids| ==> d <= ids[q])
    ensures q == |ids| ==> From(Tail(ids, p), d) == {}
    ensures q < |ids| ==> SkipSpec(Tail(ids, p), d, if ids[q] == d then Ok else NotFound, ids[q], Tail(ids, q + 1))
  {
    var r := From(Tail(ids, p), d);
    if q < |ids| {
      assert ids[q] in r;
      var a, b := Tail(ids, q + 1), From(Tail(ids, p), ids[q] + 1);
      forall x | x in a ensures x in b {
        var i :| q + 1 <= i < |ids| && ids[i] == x;
        assert ids[q] < ids[i];
      }
      forall x | x in b ensures x in a {
        var i :| p <= i < |ids| && ids[i] == x;
        assert i > q;
      }
    }
  }

  lemma TailRead(ids: seq<nat>, p: nat)
    requires Increasing(ids) && p < |ids|
    ensures ReadSpec(Tail(ids, p), Ok, ids[p], Tail(ids, p + 1))
  {
    TailSkip(ids, p, p, ids[p]);
    assert ids[p] in Tail(ids, p);
    forall x | x in Tail(ids, p) ensures ids[p] <= x {
      var i :| p <= i < |ids| && ids[i] == x;
    }
    SkipToLeast(Tail(ids, p), ids[p], Ok, ids[p], Tail(ids, p + 1));
  }

  /** hits are those of the children ks that stand at x. */
  ghost predicate Collected(hits: seq<nat>, ks: seq<nat>, docIds: seq<nat>, x: nat) {
    forall k :: k in hits <==> k in ks && k < |docIds| && docIds[k] == x
  }

  lemma CollectNone(docIds: seq<nat>, x: nat)
    ensures Collected([], [], docIds, x)
  {
  }

  lemma CollectOne(hits: seq<nat>, ks: seq<nat>, docIds: seq<nat>, docIds': seq<nat>, x: nat, k: nat)
    requires Collected(hits, ks, docIds, x) && k < |docIds'|
    requires forall q :: 0 <= q < |ks| ==> ks[q] < |docIds| == |docIds'| && docIds[ks[q]] == docIds'[ks[q]]
    ensures Collected(if docIds'[k] == x then hits + [k] else hits, ks + [k], docIds', x)
    ensures Collected(hits, ks, docIds', x)
  {
  }

  /** Descending from the root collects exactly the children that stand at the root's id. */
  lemma CollectHeap(h: seq<nat>, docIds: seq<nat>)
    requires h != [] && Items(h, |docIds|) && IsHeap(h, docIds)
    ensures Collected(Matching(h, docIds, 0), h, docIds, docIds[h[0]])
  {
    forall k: nat ensures k in Matching(h, docIds, 0) <==> k in h && docIds[k] == docIds[h[0]] {
      MatchingExact(h, docIds, k);
    }
  }

  class Iter {
    const kind: Kind
    /** The sorted ids of a leaf. */
    const ids: seq<nat>
    /** All children, in their original order. */
    const kids: seq<Iter>
    /** A union may stop at the first child that has the id it looks for. */
    const quickExit: bool
    /** The slop and order test of an intersection. */
    const within: nat -> bool
    /** This iterator and everything below it. */
    ghost const Repr: set<Iter>
    ghost const height: nat
    /** No id is above this. */
    ghost const limit: nat

    var isValid: bool
    /** The id delivered last. */
    var currentId: nat
    /** The next entry of a leaf. */
    var pos: nat
    /** The children of a union that have not ended: a list, or a heap. */
    var active: seq<nat>
    /** The id each child delivered last. */
    var docIds: seq<nat>
    /** The children whose records make up a union's current result. */
    var merged: seq<nat>
    /** The id an intersection is looking for. */
    var lastDocId: nat
    /** The ids still to be delivered. */
    ghost var rem: set<nat>
    /** The end was reported; only a rewind is allowed now. */
    ghost var ended: bool

    /** The fixed structure: a tree. */
    ghost predicate Shape()
      decreases height
    {
      && this in Repr
      && (forall i :: 0 <= i < |kids| ==>
            kids[i].height < height && kids[i].limit <= limit && kids[i] in Repr && kids[i].Repr <= Repr && this !in kids[i].Repr && kids[i].Shape())
      && (forall i, j :: 0 <= i < j < |kids| ==> kids[i].Repr !! kids[j].Repr)
      && (kind.Leaf? ==> kids == [] && Increasing(ids) && forall i :: 0 <= i < |ids| ==> 1 <= ids[i] <= limit)
      && (kind.Intersect? ==> kids != [])
    }

    /** The children as their parent sees them. */
    ghost function View(): (v: seq<Kid>)
      reads kids
      ensures |v| == |kids| && forall i :: 0 <= i < |kids| ==> v[i] == Kid(kids[i].rem, kids[i].currentId, kids[i].ended)
    {
      seq(|kids|, i requires 0 <= i < |kids| reads kids => Kid(kids[i].rem, kids[i].currentId, kids[i].ended))
    }

    ghost predicate KidsValid()
      requires Shape()
      reads Repr - {this}
      decreases height, 0
    {
      forall i :: 0 <= i < |kids| ==> kids[i].Valid()
    }

    /** How the state of an iterator that has not ended determines what it will deliver. */
    ghost predicate Tied()
      reads this, kids
    {
      && currentId <= limit && (forall x :: x in rem ==> currentId < x <= limit) && (!isValid ==> rem == {})
      && match kind
         case Leaf => pos <= |ids| && rem == Tail(ids, pos)
         case Union => Active(View(), docIds, active) && UnionOffers(rem, View(), docIds, active, currentId + 1)
         case HeapUnion =>
           && Active(View(), docIds, active) && UnionOffers(rem, View(), docIds, active, currentId + 1)
           && IsHeap(active, docIds)
         case Intersect =>
           && isValid && |docIds| == |kids| && MeetOffers(rem, View(), docIds, within, lastDocId)
           && lastDocId == (if currentId == 0 then 0 else currentId + 1)
           && forall k :: 0 <= k < |kids| ==> docIds[k] == currentId == kids[k].currentId && !kids[k].ended
    }

    ghost predicate Valid()
      reads Repr
      decreases height, 1
    {
      Shape() && KidsValid() && (ended || Tied())
    }

    /** Seek in child k. */
    method SkipKid(k: nat, d: nat) returns (rc: Status)
      requires Shape() && KidsValid() && |docIds| == |kids| && k < |kids|
      requires !kids[k].ended && kids[k].currentId == docIds[k] < d
      modifies kids[k].Repr, this`docIds
      ensures KidsValid()
      ensures View() == old(View())[k := Kid(View()[k].rem, View()[k].cur, rc == Eof)]
      ensures docIds == if rc == Eof then old(docIds) else old(docIds)[k := View()[k].cur]
      ensures SkipSpec(old(View())[k].rem, d, rc, docIds[k], View()[k].rem)
      decreases height, 0
    {
      hide Tied;
      rc := kids[k].SkipTo(d);
      if rc != Eof {
        docIds := docIds[k := kids[k].currentId];
      }
    }

    /** Read the next id of child k. */
    method ReadKid(k: nat) returns (rc: Status)
      requires Shape() && KidsValid() && |docIds| == |kids| && k < |kids|
      requires !kids[k].ended && kids[k].currentId == docIds[k]
      modifies kids[k].Repr, this`docIds
      ensures KidsValid()
      ensures View() == old(View())[k := Kid(View()[k].rem, View()[k].cur, rc == Eof)]
      ensures docIds == if rc == Eof then old(docIds) else old(docIds)[k := View()[k].cur]
      ensures ReadSpec(old(View())[k].rem, rc, docIds[k], View()[k].rem)
      decreases height, 0
    {
      hide Tied;
      rc := kids[k].Read();
      if rc != Eof {
        docIds := docIds[k := kids[k].currentId];
      }
    }

    /** What children still have to deliver is above what they delivered. */
    lemma KidsAscend()
      requires Shape() && KidsValid()
      ensures Ascending(View())
      ensures forall k, x :: 0 <= k < |kids| && !kids[k].ended && x in kids[k].rem ==> x <= limit
    {
      forall k | 0 <= k < |kids| && !kids[k].ended
        ensures forall x :: x in kids[k].rem ==> kids[k].currentId < x <= limit
      {
        assert kids[k].Valid();
      }
    }

    /** The call so far has moved children only. */
    twostate predicate Untouched()
      reads this
    {
      && isValid == old(isValid) && ended == old(ended) && currentId == old(currentId) && rem == old(rem)
      && lastDocId == old(lastDocId) && merged == old(merged)
    }

    /** A union in the middle of a call: t is what it has to offer from low on. */
    ghost predicate Offering(t: set<nat>, low: nat)
      reads Repr
    {
      Shape() && KidsValid() && Active(View(), docIds, active) && UnionOffers(t, View(), docIds, active, low)
    }

    /** Bring the child at place p of the active list to d or beyond, and drop it if it has ended. */
    method Visit(p: nat, d: nat, ghost t: set<nat>) returns (gone: bool)
      requires Offering(t, d) && p < |active|
      modifies Repr
      ensures Offering(t, d) && Untouched()
      ensures gone ==> active == old(active)[..p] + old(active)[p + 1..]
      ensures !gone ==> active == old(active) && docIds[active[p]] >= d
      ensures forall q :: 0 <= q < p ==> docIds[active[q]] == old(docIds[active[q]])
      decreases height, 1
    {
      hide KidsValid, UnionOffers, SkipSpec, Moved, NothingFrom;
      var k := active[p];
      if docIds[k] >= d {
        return false;
      }
      ghost var v, was := View(), docIds;
      var rc := SkipKid(k, d);
      SkipMoves(v, was, k, d, rc, docIds[k], View()[k].rem);
      if rc == Eof {
        gone := DropKid(p, d, t, v);
      } else {
        gone := false;
        ActiveMoved(v, was, active, k, View()[k]);
        MovedKeeps(t, v, was, active, d, k, View()[k], docIds[k]);
      }
    }

    /** Remove the ended child at place p from the active list. */
    method DropKid(p: nat, ghost low: nat, ghost t: set<nat>, ghost v: seq<Kid>) returns (gone: bool)
      requires Shape() && p < |active| && Active(v, docIds, active) && |v| == |kids|
      requires NothingFrom(v, docIds, active[p], low)
      requires UnionOffers(t, v, docIds, active, low)
      requires View() == v[active[p] := View()[active[p]]] && View()[active[p]].rem == {}
      modifies this`active
      ensures gone && active == old(active)[..p] + old(active)[p + 1..]
      ensures Active(View(), docIds, active) && UnionOffers(t, View(), docIds, active, low)
    {
      hide UnionOffers, Moved;
      ghost var k := active[p];
      ActiveDropped(v, docIds, active, p, View()[k]);
      StillNothing(v, docIds, k, View()[k], low);
      MovedKeeps(t, v, docIds, active, low, k, View()[k], docIds[k]);
      assert docIds[k := docIds[k]] == docIds;
      DropKeeps(t, View(), docIds, active, low, p);
      active := active[..p] + active[p + 1..];
      gone := true;
    }

    /** Deliver the id child k stands at. */
    method Deliver(ghost t: set<nat>, ghost low: nat, k: nat)
      requires Offering(t, low) && k < |docIds| && IsLeast(t, docIds[k])
      requires (kind.Union? || (kind.HeapUnion? && IsHeap(active, docIds))) && isValid && !ended
      requires low <= docIds[k] && forall x :: x in t ==> x <= limit
      modifies this`currentId, this`rem
      ensures Valid() && currentId == docIds[k] && rem == From(t, currentId + 1)
    {
      hide UnionOffers, KidsValid, From;
      currentId := docIds[k];
      rem := From(t, currentId + 1);
      RaiseLow(t, View(), docIds, active, low, currentId + 1);
    }

    /** Nothing is left. */
    method Finish()
      requires Shape() && KidsValid()
      modifies this`isValid, this`ended, this`rem
      ensures Valid() && ended && rem == {}
    {
      hide KidsValid;
      isValid, ended, rem := false, true, {};
    }

    /** Visit the child at place p, and collect it if it is at d. */
    method VisitNext(p: nat, d: nat, ghost t: set<nat>, hits: seq<nat>) returns (gone: bool, hits': seq<nat>)
      requires Offering(t, d) && p < |active| && Collected(hits, active[..p], docIds, d)
      modifies Repr
      ensures Offering(t, d) && Untouched()
      ensures gone ==> active == old(active)[..p] + old(active)[p + 1..] && Collected(hits', active[..p], docIds, d)
      ensures !gone ==> active == old(active) && docIds[active[p]] >= d && Collected(hits', active[..p + 1], docIds, d)
      ensures forall q :: 0 <= q < p ==> docIds[active[q]] == old(docIds[active[q]])
      decreases height, 2
    {
      hide KidsValid, UnionOffers, Shape, Collected;
      ghost var before, was, k := active[..p], docIds, active[p];
      gone := Visit(p, d, t);
      CollectOne(hits, before, was, docIds, d, k);
      hits' := hits;
      if gone {
        assert active[..p] == before;
      } else {
        assert active[..p + 1] == before + [k];
        if docIds[active[p]] == d { hits' := hits + [active[p]]; }
      }
    }

    /** Bring the active children to d, or in quick mode only until one of them is at d. */
    method VisitAll(d: nat, ghost t: set<nat>) returns (p: nat, best: nat, hits: seq<nat>)
      requires Offering(t, d)
      modifies Repr
      ensures Offering(t, d) && Untouched()
      ensures p <= |active| && (p == 0 ==> active == [])
      ensures p > 0 ==> best < p && d <= docIds[active[best]] && (p == |active| || docIds[active[best]] == d)
      ensures forall q :: 0 <= q < p ==> docIds[active[best]] <= docIds[active[q]]
      ensures !quickExit ==> Collected(hits, active, docIds, d)
      decreases height, 3
    {
      hide KidsValid, UnionOffers, Shape, Collected;
      p, best, hits := 0, 0, [];
      CollectNone(docIds, d);
      var found := false;
      while p < |active| && !(found && quickExit)
        invariant Offering(t, d) && p <= |active| && Untouched()
        invariant p > 0 ==> best < p && d <= docIds[active[best]]
        invariant forall q :: 0 <= q < p ==> docIds[active[best]] <= docIds[active[q]]
        invariant found <==> p > 0 && docIds[active[best]] == d
        invariant Collected(hits, active[..p], docIds, d)
        decreases |active| - p
      {
        var gone;
        gone, hits := VisitNext(p, d, t, hits);
        if gone {
          continue;
        }
        var id := docIds[active[p]];
        if p == 0 || id < docIds[active[best]] {
          best := p;
        }
        found := found || id == d;
        p := p + 1;
      }
      assert p == |active| ==> active[..p] == active;
    }

    method SkipUnion(d: nat) returns (rc: Status)
      requires Valid() && !ended && kind.Union? && currentId < d
      modifies Repr
      ensures Valid() && SkipSpec(old(rem), d, rc, currentId, rem) && ended == (rc == Eof)
      ensures rc == Ok && !quickExit ==> Collected(merged, active, docIds, currentId)
      decreases height, 4
    {
      hide UnionOffers, KidsValid, From, SkipSpec;
      if !isValid {
        EndOfSkip(d, rem);
        Finish();
        return Eof;
      }
      ghost var r, t := rem, From(rem, d);
      RaiseLow(rem, View(), docIds, active, currentId + 1, d);
      var p, best, hits := VisitAll(d, t);
      if p == 0 {
        NobodyLeft(t, View(), docIds, d);
        EndOfSkip(d, r);
        Finish();
        return Eof;
      }
      KidsAscend();
      if docIds[active[best]] == d {
        FoundIsLeast(t, View(), docIds, active, d, best);
      } else {
        LeastCurrent(t, View(), docIds, active, d, best);
      }
      Delivers(r, d, t, docIds[active[best]]);
      merged := if docIds[active[best]] == d then hits else [active[best]];
      Deliver(t, d, active[best]);
      return if currentId == d then Ok else NotFound;
    }

    /** Read the child at place p once, and drop it if it has ended. */
    method ReadOnce(p: nat, ghost t: set<nat>) returns (gone: bool)
      requires Offering(t, currentId + 1) && p < |active| && docIds[active[p]] <= currentId
      modifies Repr
      ensures Offering(t, currentId + 1) && Untouched()
      ensures gone ==> active == old(active)[..p] + old(active)[p + 1..]
      ensures !gone ==> active == old(active) && kids[active[p]].rem < old(kids[active[p]].rem)
      ensures forall q :: 0 <= q < p ==> docIds[active[q]] == old(docIds[active[q]])
      decreases height, 1
    {
      hide KidsValid, UnionOffers, ReadSpec, Moved, NothingFrom;
      var k := active[p];
      ghost var v, was, low := View(), docIds, currentId + 1;
      var rc := ReadKid(k);
      ReadMoves(v, was, k, low, rc, docIds[k], View()[k].rem);
      if rc == Eof {
        gone := DropKid(p, low, t, v);
      } else {
        gone := false;
        ActiveMoved(v, was, active, k, View()[k]);
        MovedKeeps(t, v, was, active, low, k, View()[k], docIds[k]);
      }
    }

    /** Read the child at place p until it is beyond the current id, and drop it if it has ended. */
    method ReadPast(p: nat, ghost t: set<nat>) returns (gone: bool)
      requires Offering(t, currentId + 1) && p < |active|
      modifies Repr
      ensures Offering(t, currentId + 1) && Untouched()
      ensures gone ==> active == old(active)[..p] + old(active)[p + 1..]
      ensures !gone ==> active == old(active) && docIds[active[p]] > currentId
      ensures forall q :: 0 <= q < p ==> docIds[active[q]] == old(docIds[active[q]])
      decreases height, 2
    {
      hide KidsValid, UnionOffers, Shape;
      while docIds[active[p]] <= currentId
        invariant Offering(t, currentId + 1) && active == old(active)
        invariant Untouched()
        invariant forall q :: 0 <= q < p ==> docIds[active[q]] == old(docIds[active[q]])
        decreases kids[active[p]].rem
      {
        gone := ReadOnce(p, t);
        if gone {
          return;
        }
      }
      return false;
    }

    method ReadUnion() returns (rc: Status)
      requires Valid() && !ended && kind.Union?
      modifies Repr
      ensures Valid() && ReadSpec(old(rem), rc, currentId, rem) && ended == (rc == Eof)
      ensures rc != Eof && !quickExit ==> Collected(merged, active, docIds, currentId)
      decreases height, 5
    {
      hide UnionOffers, KidsValid, From;
      ghost var t := rem;
      if |active| == 0 || !isValid {
        if isValid { NobodyLeft(t, View(), docIds, currentId + 1); }
        Finish();
        return Eof;
      }
      var p: nat, best: nat := 0, 0;
      while p < |active|
        invariant Offering(t, currentId + 1) && p <= |active| && isValid && !ended && currentId == old(currentId)
        invariant rem == t
        invariant p > 0 ==> best < p && currentId < docIds[active[best]]
        invariant forall q :: 0 <= q < p ==> docIds[active[best]] <= docIds[active[q]]
        decreases |active| - p
      {
        var gone := ReadPast(p, t);
        if gone {
          continue;
        }
        if p == 0 || docIds[active[p]] <= docIds[active[best]] {
          best := p;
        }
        p := p + 1;
      }
      if p == 0 {
        NobodyLeft(t, View(), docIds, currentId + 1);
        Finish();
        return Eof;
      }
      // take the minimum and collect all children that are at it
      var d := docIds[active[best]];
      KidsAscend();
      LeastCurrent(t, View(), docIds, active, currentId + 1, best);
      rc := SkipUnion(d);
      SkipToLeast(t, d, rc, currentId, rem);
    }

    /** Take the ended root off the heap. */
    method HeapDrop(ghost low: nat, ghost t: set<nat>, ghost v: seq<Kid>)
      requires Shape() && active != [] && Active(v, docIds, active) && |v| == |kids| && IsHeap(active, docIds)
      requires NothingFrom(v, docIds, active[0], low) && UnionOffers(t, v, docIds, active, low)
      requires View() == v[active[0] := View()[active[0]]] && View()[active[0]].rem == {}
      modifies this`active
      ensures |active| == |old(active)| - 1 && Active(View(), docIds, active) && IsHeap(active, docIds)
      ensures UnionOffers(t, View(), docIds, active, low)
    {
      hide UnionOffers, Moved, IsHeap;
      ghost var k := active[0];
      var rest := Poll(active, docIds);
      StillNothing(v, docIds, k, View()[k], low);
      MovedKeeps(t, v, docIds, active, low, k, View()[k], docIds[k]);
      assert docIds[k := docIds[k]] == docIds;
      PolledKeeps(t, View(), docIds, active, low, rest);
      ActivePolled(v, docIds, active, rest, View()[k]);
      active := rest;
    }

    /** Sink the root, whose key has grown. */
    method HeapSink(ghost low: nat, ghost t: set<nat>, ghost was: seq<nat>)
      requires Shape() && active != [] && Active(View(), docIds, active) && |was| == |docIds| && IsHeap(active, was)
      requires forall k :: 0 <= k < |docIds| && k != active[0] ==> docIds[k] == was[k]
      requires UnionOffers(t, View(), docIds, active, low)
      modifies this`active
      ensures Active(View(), docIds, active) && IsHeap(active, docIds) && old(active[0]) in active
      ensures UnionOffers(t, View(), docIds, active, low)
    {
      hide UnionOffers, HeapBut, IsHeap, SameItems;
      RootChanged(active, was, docIds);
      var heap := PushDown(active, docIds);
      ShuffledKeeps(t, View(), docIds, active, low, heap);
      ActiveShuffled(View(), docIds, active, heap);
      SameHas(active, heap, active[0]);
      active := heap;
    }

    /** Bring the child at the heap's root to d or beyond, and put it where it belongs now. */
    method HeapStep(d: nat, ghost t: set<nat>) returns (rc: Status)
      requires Offering(t, d) && active != [] && IsHeap(active, docIds) && docIds[active[0]] < d
      modifies Repr
      ensures Offering(t, d) && IsHeap(active, docIds) && Untouched()
      ensures rc == Eof ==> |active| < |old(active)| && Total(View()) <= old(Total(View()))
      ensures rc != Eof ==> old(active[0]) in active && Total(View()) < old(Total(View()))
      decreases height, 1
    {
      hide KidsValid, UnionOffers, SkipSpec, Moved, NothingFrom, IsHeap, Total;
      var k := active[0];
      ghost var v, was := View(), docIds;
      rc := SkipKid(k, d);
      SkipMoves(v, was, k, d, rc, docIds[k], View()[k].rem);
      TotalUpdate(v, k, View()[k]);
      if rc == Eof {
        HeapDrop(d, t, v);
      } else {
        ActiveMoved(v, was, active, k, View()[k]);
        MovedKeeps(t, v, was, active, d, k, View()[k], docIds[k]);
        HeapSink(d, t, was);
      }
    }

    /** Work on the heap's root until it is at d or beyond, or in quick mode until a child is at d. */
    method HeapLoop(d: nat, ghost t: set<nat>) returns (k: nat)
      requires Offering(t, d) && IsHeap(active, docIds)
      modifies Repr
      ensures Offering(t, d) && IsHeap(active, docIds) && Untouched()
      ensures active != [] ==> k in active && d <= docIds[k] && (k == active[0] || (quickExit && docIds[k] == d))
      decreases height, 2
    {
      hide KidsValid, UnionOffers, IsHeap, Total, Shape;
      var hit := false;
      k := 0;
      while active != [] && docIds[active[0]] < d && !hit
        invariant Offering(t, d) && IsHeap(active, docIds) && Untouched()
        invariant hit ==> quickExit && k in active && docIds[k] == d
        decreases Total(View()), |active|
      {
        k := active[0];
        var krc := HeapStep(d, t);
        hit := krc != Eof && quickExit && docIds[k] == d;
      }
      if active != [] && !hit {
        k := active[0];
      }
    }

    /** The child the loop stopped at has the least id on offer. */
    lemma HeapLeast(t: set<nat>, d: nat, k: nat)
      requires Offering(t, d) && active != [] && IsHeap(active, docIds)
      requires k in active && d <= docIds[k] && (k == active[0] || docIds[k] == d)
      ensures IsLeast(t, docIds[k])
    {
      hide UnionOffers, IsHeap;
      var p :| 0 <= p < |active| && active[p] == k;
      if docIds[k] == d {
        FoundIsLeast(t, View(), docIds, active, d, p);
      } else {
        KidsAscend();
        forall q | 0 <= q < |active| ensures docIds[k] <= docIds[active[q]] { RootIsLeast(active, docIds, q); }
        LeastCurrent(t, View(), docIds, active, d, 0);
      }
    }

    method HeapSeek(d: nat) returns (rc: Status)
      requires Valid() && !ended && kind.HeapUnion? && currentId < d
      modifies Repr
      ensures Valid() && SkipSpec(old(rem), d, rc, currentId, rem) && ended == (rc == Eof)
      ensures rc != Eof && !quickExit ==> Collected(merged, active, docIds, currentId)
      decreases height, 3
    {
      hide KidsValid, UnionOffers, From, SkipSpec, IsHeap, Collected, Matching;
      if !isValid {
        EndOfSkip(d, rem);
        Finish();
        return Eof;
      }
      ghost var r, t := rem, From(rem, d);
      RaiseLow(rem, View(), docIds, active, currentId + 1, d);
      var k := HeapLoop(d, t);
      if active == [] {
        NobodyLeft(t, View(), docIds, d);
        EndOfSkip(d, r);
        Finish();
        return Eof;
      }
      HeapLeast(t, d, k);
      Delivers(r, d, t, docIds[k]);
      merged := if quickExit then [k] else Matching(active, docIds, 0);
      CollectHeap(active, docIds);
      Deliver(t, d, k);
      return if currentId == d then Ok else NotFound;
    }

    /**
     * An intersection in the middle of a call: t is what it can still deliver, looking for low. No child
     * is beyond low.
     */
    ghost predicate Hunting(t: set<nat>, low: nat)
      reads Repr
    {
      && this in Repr && Shape() && KidsValid() && kind.Intersect? && |docIds| == |kids|
      && MeetOffers(t, View(), docIds, within, low)
      && forall k :: 0 <= k < |kids| ==> docIds[k] == kids[k].currentId && !kids[k].ended && docIds[k] <= low && docIds[k] <= limit
    }

    /** Bring child i to the id the intersection is looking for, or beyond. */
    method Chase(i: nat, ghost t: set<nat>) returns (rc: Status)
      requires Hunting(t, lastDocId) && i < |kids| && (docIds[i] != lastDocId || lastDocId == 0) && (i > 0 ==> lastDocId > 0)
      modifies Repr
      ensures Untouched() && Shape() && KidsValid()
      ensures rc == Eof ==> t == {}
      ensures rc != Eof ==>
                && |docIds| == |old(docIds)| && lastDocId <= docIds[i] && 1 <= docIds[i]
                && docIds == old(docIds)[i := docIds[i]] && Hunting(t, docIds[i])
      decreases height, 1
    {
      hide KidsValid, MeetOffers, SkipSpec, ReadSpec;
      ghost var v, was := View(), docIds;
      KidsAscend();
      if i == 0 && docIds[i] >= lastDocId {
        rc := ReadKid(i);
        MeetRead(t, v, was, within, i, rc, docIds[i], View()[i].rem);
      } else {
        rc := SkipKid(i, lastDocId);
        MeetSkip(t, v, was, within, lastDocId, i, rc, docIds[i], View()[i].rem);
      }
      if rc != Eof {
        assert View() == v[i := Kid(View()[i].rem, docIds[i], false)];
        forall k | 0 <= k < |kids| ensures docIds[k] == kids[k].currentId && !kids[k].ended {
          assert View()[k] == if k == i then View()[i] else v[k];
        }
      }
    }

    /** Look for x from now on. */
    method LookFor(x: nat, ghost t: set<nat>)
      requires Hunting(t, x)
      modifies this`lastDocId
      ensures Hunting(t, x) && lastDocId == x
    {
      hide KidsValid, MeetOffers;
      lastDocId := x;
    }

    /** One round over the children: all of them stand at the id looked for, or there is a larger one to look for. */
    method Round(ghost t: set<nat>) returns (rc: Status, all: bool)
      requires Hunting(t, lastDocId)
      modifies Repr
      ensures isValid == old(isValid) && ended == old(ended) && Shape() && KidsValid()
      ensures rc == Eof ==> t == {}
      ensures rc != Eof ==> Hunting(t, lastDocId)
      ensures rc != Eof && all ==> lastDocId == old(lastDocId) >= 1 && forall k :: 0 <= k < |kids| ==> docIds[k] == lastDocId
      ensures rc != Eof && !all ==> old(lastDocId) < lastDocId <= limit
      decreases height, 2
    {
      hide KidsValid, MeetOffers, Shape, View;
      assert kids != [] by { KidsExist(); }
      for i := 0 to |kids|
        invariant Untouched() && Hunting(t, lastDocId)
        invariant forall j :: 0 <= j < i ==> docIds[j] == lastDocId
        invariant i > 0 ==> lastDocId > 0
      {
        if docIds[i] != lastDocId || lastDocId == 0 {
          rc := Chase(i, t);
          if rc == Eof {
            return Eof, false;
          }
        }
        if docIds[i] > lastDocId {
          LookFor(docIds[i], t);
          return Ok, false;
        }
      }
      return Ok, true;
    }

    lemma KidsExist()
      requires Shape() && kind.Intersect?
      ensures kids != []
    {
    }

    /** All children stand at the id looked for: deliver it if it passes the filter, and look for the next one. */
    method TakeHit(ghost t: set<nat>) returns (taken: bool)
      requires Hunting(t, lastDocId) && lastDocId >= 1 && isValid && !ended && forall x :: x in t ==> x <= limit
      requires forall k :: 0 <= k < |kids| ==> docIds[k] == lastDocId
      modifies this`lastDocId, this`currentId, this`rem
      ensures lastDocId == old(lastDocId) + 1 && old(lastDocId) <= limit
      ensures taken ==> Valid() && currentId == old(lastDocId) && IsLeast(t, currentId) && rem == From(t, currentId + 1)
      ensures !taken ==> Hunting(t, lastDocId) && old(lastDocId) !in t
    {
      hide KidsValid, MeetOffers;
      var at := lastDocId;
      MeetHit(t, View(), docIds, within, at);
      assert docIds[0] == at <= limit;
      lastDocId := lastDocId + 1;
      taken := within(at);
      if taken {
        currentId := at;
        rem := From(t, at + 1);
      }
    }

    /** Look for the next id all children have. */
    method ReadMeet(ghost t: set<nat>) returns (rc: Status)
      requires Hunting(t, lastDocId) && !ended && isValid && forall x :: x in t ==> x <= limit
      modifies Repr
      ensures Valid() && ReadSpec(t, rc, currentId, rem) && ended == (rc == Eof)
      decreases height, 3
    {
      hide KidsValid, MeetOffers, Shape, View, Tied;
      while true
        invariant Hunting(t, lastDocId) && !ended && isValid
        decreases limit + 1 - lastDocId
      {
        var more, all := Round(t);
        if more == Eof {
          Finish();
          return Eof;
        }
        if all {
          var taken := TakeHit(t);
          if taken {
            return Ok;
          }
        }
      }
    }

    /** Seek d in child after child; stop at the first that is beyond it. */
    method SkipRound(d: nat, ghost t: set<nat>) returns (rc: Status, all: bool)
      requires Hunting(t, d) && lastDocId <= d && d >= 1 && forall k :: 0 <= k < |kids| ==> docIds[k] < d
      modifies Repr
      ensures ended == old(ended) && Shape() && KidsValid()
      ensures rc == Eof ==> t == {}
      ensures rc != Eof ==> isValid == old(isValid) && Hunting(t, lastDocId)
      ensures rc != Eof && all ==> lastDocId == d && forall k :: 0 <= k < |kids| ==> docIds[k] == d
      ensures rc != Eof && !all ==> lastDocId > d && d !in t
      decreases height, 2
    {
      hide KidsValid, MeetOffers, Shape, View;
      assert kids != [] by { KidsExist(); }
      for i := 0 to |kids|
        invariant isValid == old(isValid) && ended == old(ended) && Hunting(t, d)
        invariant lastDocId <= d && (i > 0 ==> lastDocId == d)
        invariant forall j :: 0 <= j < i ==> docIds[j] == d
        invariant forall j :: i <= j < |kids| ==> docIds[j] < d
      {
        if !kids[i].isValid {
          InvalidKid(i, t, d);
          return Eof, false;
        }
        rc := SkipOne(i, d, t);
        if rc == Eof {
          return Eof, false;
        }
        LookFor(docIds[i], t);
        if rc == NotFound {
          NothingBelow(t, lastDocId, d);
          return NotFound, false;
        }
      }
      return Ok, true;
    }

    lemma NothingBelow(t: set<nat>, low: nat, d: nat)
      requires Hunting(t, low) && d < low
      ensures d !in t
    {
    }

    /** A child without a next id leaves nothing in common. */
    lemma InvalidKid(i: nat, t: set<nat>, d: nat)
      requires Hunting(t, d) && i < |kids| && !kids[i].isValid && docIds[i] < d
      ensures t == {}
    {
      hide MeetOffers;
      assert kids[i].Valid();
      assert View()[i].rem == {};
      MeetEmpty(t, View(), docIds, within, d, i);
    }

    method SkipOne(i: nat, d: nat, ghost t: set<nat>) returns (rc: Status)
      requires Hunting(t, d) && i < |kids| && docIds[i] < d
      modifies Repr
      ensures Untouched() && Shape() && KidsValid()
      ensures rc == Eof ==> t == {}
      ensures rc != Eof ==>
                && |docIds| == |old(docIds)| && d <= docIds[i] && docIds == old(docIds)[i := docIds[i]]
                && Hunting(t, docIds[i]) && (rc == Ok <==> docIds[i] == d)
      decreases height, 1
    {
      hide KidsValid, MeetOffers, SkipSpec;
      ghost var v, was := View(), docIds;
      KidsAscend();
      rc := SkipKid(i, d);
      MeetSkip(t, v, was, within, d, i, rc, docIds[i], View()[i].rem);
      if rc != Eof {
        assert View() == v[i := Kid(View()[i].rem, docIds[i], false)];
        forall k | 0 <= k < |kids| ensures docIds[k] == kids[k].currentId && !kids[k].ended {
          assert View()[k] == if k == i then View()[i] else v[k];
        }
      }
    }

    method SkipMeet(d: nat) returns (rc: Status)
      requires Valid() && !ended && kind.Intersect? && currentId < d
      modifies Repr
      ensures Valid() && SkipSpec(old(rem), d, rc, currentId, rem) && ended == (rc == Eof)
      decreases height, 4
    {
      hide KidsValid, MeetOffers, From, SkipSpec, View, ReadSpec;
      ghost var r, t := rem, From(rem, d);
      StartHunt(d);
      var more, all := SkipRound(d, t);
      if more == Eof {
        EndOfSkip(d, r);
        Finish();
        return Eof;
      }
      if all {
        var taken := TakeHit(t);
        if taken {
          Delivers(r, d, t, currentId);
          return Ok;
        }
      }
      rc := ReadMeet(t);
      ReadThenSkip(r, d, t, rc, currentId, rem);
      rc := if rc == Eof then Eof else NotFound;
    }

    /** Between calls all children stand at the current id. */
    lemma StartHunt(d: nat)
      requires Valid() && !ended && kind.Intersect? && currentId <= d && lastDocId <= d
      ensures Hunting(From(rem, d), d)
    {
      hide KidsValid, MeetOffers;
      MeetFrom(rem, View(), docIds, within, lastDocId, d);
    }

    method SkipLeaf(d: nat) returns (rc: Status)
      requires Valid() && !ended && kind.Leaf? && currentId < d
      modifies this
      ensures Valid() && SkipSpec(old(rem), d, rc, currentId, rem) && ended == (rc == Eof)
    {
      hide SkipSpec, Increasing, KidsValid;
      ghost var p := pos;
      if !isValid {
        EndOfSkip(d, rem);
        Finish();
        return Eof;
      }
      while pos < |ids| && ids[pos] < d
        invariant p <= pos <= |ids| && Shape() && KidsValid() && isValid && !ended && currentId == old(currentId)
        invariant forall i :: p <= i < pos ==> ids[i] < d
      {
        pos := pos + 1;
      }
      TailSkip(ids, p, pos, d);
      if pos == |ids| {
        EndOfSkip(d, old(rem));
        Finish();
        return Eof;
      }
      Step();
      return if currentId == d then Ok else NotFound;
    }

    /** Take the leaf's next id. */
    method Step()
      requires Shape() && KidsValid() && kind.Leaf? && pos < |ids| && isValid && !ended
      modifies this`currentId, this`pos, this`rem
      ensures Valid() && pos == old(pos) + 1 && currentId == ids[old(pos)] && rem == Tail(ids, pos)
    {
      hide KidsValid;
      currentId := ids[pos];
      pos := pos + 1;
      rem := Tail(ids, pos);
    }

    method SkipTo(d: nat) returns (rc: Status)
      requires Valid() && !ended && currentId < d
      modifies Repr
      ensures Valid() && SkipSpec(old(rem), d, rc, currentId, rem) && ended == (rc == Eof)
      decreases height, 9
    {
      hide KidsValid, SkipSpec, Tied;
      match kind
      case Leaf => rc := SkipLeaf(d);
      case Union => rc := SkipUnion(d);
      case HeapUnion => rc := HeapSeek(d);
      case Intersect => rc := SkipMeet(d);
    }

    method Read() returns (rc: Status)
      requires Valid() && !ended
      modifies Repr
      ensures Valid() && ReadSpec(old(rem), rc, currentId, rem) && ended == (rc == Eof)
      decreases height, 9
    {
      hide KidsValid, SkipSpec, Tied, ReadSpec;
      match kind
      case Leaf => rc := ReadLeaf();
      case Union => rc := ReadUnion();
      case HeapUnion => rc := ReadHeap();
      case Intersect => rc := ReadIntersect();
    }

    method ReadHeap() returns (rc: Status)
      requires Valid() && !ended && kind.HeapUnion?
      modifies Repr
      ensures Valid() && ReadSpec(old(rem), rc, currentId, rem) && ended == (rc == Eof)
      ensures rc != Eof && !quickExit ==> Collected(merged, active, docIds, currentId)
      decreases height, 4
    {
      hide KidsValid, UnionOffers, IsHeap, Collected;
      ghost var r := rem;
      rc := HeapSeek(currentId + 1);
      assert From(r, old(currentId) + 1) == r;
      rc := if rc == Eof then Eof else Ok;
    }

    method ReadIntersect() returns (rc: Status)
      requires Valid() && !ended && kind.Intersect?
      modifies Repr
      ensures Valid() && ReadSpec(old(rem), rc, currentId, rem) && ended == (rc == Eof)
      decreases height, 4
    {
      hide KidsValid, MeetOffers, Shape, View;
      StartHunt(lastDocId);
      assert From(rem, lastDocId) == rem;
      rc := ReadMeet(rem);
    }

    method ReadLeaf() returns (rc: Status)
      requires Valid() && !ended && kind.Leaf?
      modifies this
      ensures Valid() && ReadSpec(old(rem), rc, currentId, rem) && ended == (rc == Eof)
    {
      hide Increasing, KidsValid, ReadSpec;
      EndOfRead();
      assert Tail(ids, |ids|) == {};
      if pos == |ids| || !isValid {
        Finish();
        return Eof;
      }
      TailRead(ids, pos);
      Step();
      return Ok;
    }
  
    /** The set an iterator stands for. */
    ghost function Denotes(): set<nat>
      requires Shape()
      decreases height
    {
      match kind
      case Leaf => Tail(ids, 0)
      case Intersect => set x | x in kids[0].Denotes() && within(x) && (forall i :: 0 <= i < |kids| ==> x in kids[i].Denotes())
      case _ => set i, x | 0 <= i < |kids| && x in kids[i].Denotes() :: x
    }

    /** At the start: everything is still to come. */
    ghost predicate AtStart()
      reads Repr
    {
      this in Repr && Shape() && Valid() && !ended && currentId == 0 && rem == Denotes()
    }

    /** All children are at the start, and nothing is known of them. */
    ghost predicate KidsAtStart()
      requires Shape()
      reads Repr - {this}
    {
      forall i :: 0 <= i < |kids| ==> kids[i].AtStart()
    }

    lemma {:induction false} DenotesBounds()
      requires Shape()
      ensures forall x :: x in Denotes() ==> 1 <= x <= limit
      decreases height
    {
      forall i | 0 <= i < |kids| ensures forall x :: x in kids[i].Denotes() ==> 1 <= x <= limit {
        kids[i].DenotesBounds();
      }
      if kind.Leaf? {
        forall x | x in Tail(ids, 0) ensures 1 <= x <= limit {
          var i :| 0 <= i < |ids| && ids[i] == x;
        }
      } else if kind.Intersect? {
        assert forall x :: x in Denotes() ==> x in kids[0].Denotes();
      }
    }

    /** The parent knows nothing of its children yet. */
    ghost predicate Blank()
      reads this
    {
      |docIds| == |kids| && forall k :: 0 <= k < |kids| ==> docIds[k] == 0
    }

    lemma StartUnion()
      requires Shape() && KidsAtStart() && (kind.Union? || kind.HeapUnion?) && Blank()
      requires Items(active, |kids|) && Distinct(active) && forall k :: 0 <= k < |kids| ==> k in active
      ensures Active(View(), docIds, active) && UnionOffers(Denotes(), View(), docIds, active, 1)
    {
      hide Shape;
      var v := View();
      forall k | 0 <= k < |kids| ensures v[k] == Kid(kids[k].Denotes(), 0, false) { StartKid(k); }
      forall x ensures x in Denotes() <==> 1 <= x && SomeOffers(v, docIds, active, x) {
        DenotesBounds();
        if x in Denotes() {
          var i :| 0 <= i < |kids| && x in v[i].rem;
          assert i in active;
          var p :| 0 <= p < |active| && active[p] == i;
          assert Offered(v, docIds, active[p], x);
        }
      }
    }

    lemma StartKid(k: nat)
      requires Shape() && KidsAtStart() && k < |kids|
      ensures View()[k] == Kid(kids[k].Denotes(), 0, false)
    {
    }

    lemma StartMeet()
      requires Shape() && KidsAtStart() && kind.Intersect? && Blank()
      ensures MeetOffers(Denotes(), View(), docIds, within, 0)
      ensures forall k :: 0 <= k < |kids| ==> kids[k].currentId == 0 && !kids[k].ended
    {
      hide Shape;
      KidsExist();
      var v := View();
      forall k | 0 <= k < |kids| ensures v[k] == Kid(kids[k].Denotes(), 0, false) { StartKid(k); }
      forall x ensures x in Denotes() <==> 1 <= x && within(x) && AllOffer(v, docIds, x) {
        DenotesBounds();
        assert x in Denotes() <==> within(x) && forall i :: 0 <= i < |kids| ==> x in kids[i].Denotes();
        assert forall i :: 0 <= i < |kids| ==> (Offered(v, docIds, i, x) <==> x in kids[i].Denotes() || x == 0);
      }
    }

    lemma StartKidsValid()
      requires Shape() && KidsAtStart()
      ensures KidsValid()
    {
    }

    lemma StartLeaf()
      requires Shape() && kind.Leaf?
      ensures Denotes() == Tail(ids, 0)
    {
    }

    /** Make all children active. */
    method FillActive()
      requires Shape() && Blank()
      modifies this`active
      ensures Items(active, |kids|) && Distinct(active) && IsHeap(active, docIds)
      ensures forall k :: 0 <= k < |kids| ==> k in active
    {
      hide IsHeap, Shape;
      active := [];
      FlatHeap(active, docIds);
      for i := 0 to |kids|
        invariant Items(active, |kids|) && Distinct(active) && (forall k: nat :: k in active <==> k < i)
        invariant IsHeap(active, docIds)
      {
        if kind.HeapUnion? {
          active := Offer(active, docIds, i);
        } else {
          OfferDistinct(active, i);
          active := active + [i];
        }
        FlatHeap(active, docIds);
      }
    }

    /** Forget the children's positions. */
    method Reset()
      requires Shape() && KidsAtStart()
      modifies this
      ensures AtStart()
    {
      hide Denotes, UnionOffers, MeetOffers, KidsAtStart, KidsValid, IsHeap;
      isValid, currentId, pos, lastDocId := true, 0, 0, 0;
      docIds := seq(|kids|, i => 0);
      FillActive();
      rem, ended := Denotes(), false;
      DenotesBounds();
      StartKidsValid();
      if kind.Union? || kind.HeapUnion? {
        StartUnion();
      } else if kind.Intersect? {
        StartMeet();
      } else {
        StartLeaf();
      }
    }

    /** Start over, with all children. */
    method Rewind()
      requires Shape()
      modifies Repr
      ensures AtStart()
      decreases height
    {
      hide AtStart, Denotes;
      for i := 0 to |kids|
        invariant forall j :: 0 <= j < i ==> kids[j].AtStart()
      {
        kids[i].Rewind();
      }
      Reset();
    }

    constructor Leaf(ids: seq<nat>, limit: nat)
      requires Increasing(ids) && forall i :: 0 <= i < |ids| ==> 1 <= ids[i] <= limit
      ensures AtStart() && fresh(Repr) && Denotes() == Tail(ids, 0)
    {
      kind, this.ids, kids, quickExit, within := Kind.Leaf, ids, [], false, _ => true;
      Repr, height, this.limit := {this}, 0, limit;
      new;
      Reset();
    }

    /** Children ready to be put under a new iterator. */
    static ghost predicate Ready(kids: seq<Iter>)
      reads kids, set k, o | k in kids && o in k.Repr :: o
    {
      && (forall i :: 0 <= i < |kids| ==> kids[i].AtStart())
      && (forall i, j :: 0 <= i < j < |kids| ==> kids[i].Repr !! kids[j].Repr)
    }

    /** A union; more children than heapAbove are kept in a heap. */
    constructor Union(kids: seq<Iter>, quickExit: bool, heapAbove: nat, ghost height: nat, ghost limit: nat)
      requires Ready(kids) && forall i :: 0 <= i < |kids| ==> kids[i].height < height && kids[i].limit <= limit
      ensures AtStart() && forall x :: x in Denotes() <==> exists i :: 0 <= i < |kids| && x in kids[i].Denotes()
    {
      kind := if |kids| > heapAbove then Kind.HeapUnion else Kind.Union;
      ids, this.kids, this.quickExit, within := [], kids, quickExit, _ => true;
      Repr, this.height, this.limit := {this} + set k, o | k in kids && o in k.Repr :: o, height, limit;
      new;
      Reset();
    }

    constructor Intersect(kids: seq<Iter>, within: nat -> bool, ghost height: nat, ghost limit: nat)
      requires kids != [] && Ready(kids) && forall i :: 0 <= i < |kids| ==> kids[i].height < height && kids[i].limit <= limit
      ensures AtStart()
      ensures forall x :: x in Denotes() <==> within(x) && forall i :: 0 <= i < |kids| ==> x in kids[i].Denotes()
    {
      kind := Kind.Intersect;
      ids, this.kids, quickExit, this.within := [], kids, false, within;
      Repr, this.height, this.limit := {this} + set k, o | k in kids && o in k.Repr :: o, height, limit;
      new;
      Reset();
    }
  }
}
