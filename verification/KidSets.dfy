/** What the children of a union or an intersection still have to offer, as sets of ids. */
module KidSets {
  import opened IteratorContract
  import opened MinHeap

  /** A child seen from its parent: the ids still to come, the id delivered last, and whether it reported the end. */
  datatype Kid = Kid(rem: set<nat>, cur: nat, ended: bool)

  /** x is the child's current id or still to come; docId is what the parent knows as its current id. */
  ghost predicate Offered(v: seq<Kid>, docIds: seq<nat>, k: nat, x: nat)
    requires k < |v| == |docIds|
  {
    x in v[k].rem || x == docIds[k]
  }

  ghost predicate Ascending(v: seq<Kid>) {
    forall k, x :: 0 <= k < |v| && !v[k].ended && x in v[k].rem ==> v[k].cur < x
  }

  /** The active children have not ended, and the parent knows where they stand. */
  ghost predicate Active(v: seq<Kid>, docIds: seq<nat>, act: seq<nat>) {
    && |docIds| == |v| && Items(act, |v|) && Distinct(act)
    && forall p :: 0 <= p < |act| ==> !v[act[p]].ended && v[act[p]].cur == docIds[act[p]]
  }

  ghost predicate SomeOffers(v: seq<Kid>, docIds: seq<nat>, act: seq<nat>, x: nat)
    requires |v| == |docIds| && Items(act, |v|)
  {
    exists p :: 0 <= p < |act| && Offered(v, docIds, act[p], x)
  }

  /** t is what the active children together offer from low on. */
  ghost predicate UnionOffers(t: set<nat>, v: seq<Kid>, docIds: seq<nat>, act: seq<nat>, low: nat)
    requires |v| == |docIds| && Items(act, |v|)
  {
    forall x :: x in t <==> low <= x && SomeOffers(v, docIds, act, x)
  }

  /** A child moved without losing an id from low on. */
  ghost predicate Moved(v: seq<Kid>, docIds: seq<nat>, k: nat, kid: Kid, id: nat, low: nat)
    requires k < |v| == |docIds|
  {
    forall x :: low <= x ==> (Offered(v, docIds, k, x) <==> x in kid.rem || x == id)
  }

  ghost predicate NothingFrom(v: seq<Kid>, docIds: seq<nat>, k: nat, low: nat)
    requires k < |v| == |docIds|
  {
    forall x :: low <= x ==> !Offered(v, docIds, k, x)
  }

  lemma MovedKeeps(t: set<nat>, v: seq<Kid>, docIds: seq<nat>, act: seq<nat>, low: nat, k: nat, kid: Kid, id: nat)
    requires k < |v| == |docIds| && Items(act, |v|)
    requires UnionOffers(t, v, docIds, act, low) && Moved(v, docIds, k, kid, id, low)
    ensures UnionOffers(t, v[k := kid], docIds[k := id], act, low)
  {
    var v', ids' := v[k := kid], docIds[k := id];
    forall x | low <= x ensures SomeOffers(v, docIds, act, x) <==> SomeOffers(v', ids', act, x) {
      assert forall p :: 0 <= p < |act| ==> (Offered(v, docIds, act[p], x) <==> Offered(v', ids', act[p], x));
    }
  }

  lemma DropKeeps(t: set<nat>, v: seq<Kid>, docIds: seq<nat>, act: seq<nat>, low: nat, p: nat)
    requires |v| == |docIds| && Items(act, |v|) && p < |act|
    requires UnionOffers(t, v, docIds, act, low) && NothingFrom(v, docIds, act[p], low)
    ensures UnionOffers(t, v, docIds, act[..p] + act[p + 1..], low)
  {
    var rest := act[..p] + act[p + 1..];
    forall x | low <= x ensures SomeOffers(v, docIds, act, x) <==> SomeOffers(v, docIds, rest, x) {
      if q :| 0 <= q < |act| && Offered(v, docIds, act[q], x) {
        assert q != p;
        assert rest[if q < p then q else q - 1] == act[q];
      }
    }
  }

  /** The same for a heap, where the others may change places. */
  lemma PolledKeeps(t: set<nat>, v: seq<Kid>, docIds: seq<nat>, act: seq<nat>, low: nat, rest: seq<nat>)
    requires |v| == |docIds| && Items(act, |v|) && Items(rest, |v|) && act != []
    requires forall x :: x in rest <==> x in act && x != act[0]
    requires UnionOffers(t, v, docIds, act, low) && NothingFrom(v, docIds, act[0], low)
    ensures UnionOffers(t, v, docIds, rest, low)
  {
    forall x | low <= x ensures SomeOffers(v, docIds, act, x) <==> SomeOffers(v, docIds, rest, x) {
      if p :| 0 <= p < |act| && Offered(v, docIds, act[p], x) {
        assert act[p] in rest;
        var q :| 0 <= q < |rest| && rest[q] == act[p];
        assert Offered(v, docIds, rest[q], x);
      }
      if p :| 0 <= p < |rest| && Offered(v, docIds, rest[p], x) {
        assert rest[p] in act;
        var q :| 0 <= q < |act| && act[q] == rest[p];
        assert Offered(v, docIds, act[q], x);
      }
    }
  }

  lemma ShuffledKeeps(t: set<nat>, v: seq<Kid>, docIds: seq<nat>, act: seq<nat>, low: nat, act': seq<nat>)
    requires |v| == |docIds| && Items(act, |v|) && Items(act', |v|) && SameItems(act, act')
    requires UnionOffers(t, v, docIds, act, low)
    ensures UnionOffers(t, v, docIds, act', low)
  {
    forall x | low <= x ensures SomeOffers(v, docIds, act, x) <==> SomeOffers(v, docIds, act', x) {
      if p :| 0 <= p < |act| && Offered(v, docIds, act[p], x) {
        assert act[p] in act';
        var q :| 0 <= q < |act'| && act'[q] == act[p];
        assert Offered(v, docIds, act'[q], x);
      }
      if p :| 0 <= p < |act'| && Offered(v, docIds, act'[p], x) {
        assert act'[p] in act;
        var q :| 0 <= q < |act| && act[q] == act'[p];
        assert Offered(v, docIds, act[q], x);
      }
    }
  }

  lemma RaiseLow(t: set<nat>, v: seq<Kid>, docIds: seq<nat>, act: seq<nat>, low: nat, d: nat)
    requires |v| == |docIds| && Items(act, |v|) && low <= d
    requires UnionOffers(t, v, docIds, act, low)
    ensures UnionOffers(From(t, d), v, docIds, act, d)
  {
  }

  /** An id some child stands at, below which no child offers anything, is the least. */
  lemma LeastOffered(t: set<nat>, v: seq<Kid>, docIds: seq<nat>, act: seq<nat>, low: nat, p: nat)
    requires |v| == |docIds| && Items(act, |v|) && p < |act|
    requires UnionOffers(t, v, docIds, act, low) && low <= docIds[act[p]]
    requires forall q, x :: 0 <= q < |act| && low <= x && Offered(v, docIds, act[q], x) ==> docIds[act[p]] <= x
    ensures IsLeast(t, docIds[act[p]])
  {
    assert Offered(v, docIds, act[p], docIds[act[p]]);
  }

  /** After a seek to d a child that stood below d offers the same ids from d on. */
  lemma SkipMoves(v: seq<Kid>, docIds: seq<nat>, k: nat, d: nat, rc: Status, id: nat, rem': set<nat>)
    requires k < |v| == |docIds| && docIds[k] < d && SkipSpec(v[k].rem, d, rc, id, rem')
    ensures rc == Eof ==> NothingFrom(v, docIds, k, d) && rem' == {}
    ensures rc != Eof ==> d <= id && forall ended :: Moved(v, docIds, k, Kid(rem', id, ended), id, d)
    ensures |rem'| <= |v[k].rem| && (rc != Eof ==> |rem'| < |v[k].rem|)
  {
    var r := From(v[k].rem, d);
    assert forall x :: x in r <==> x in v[k].rem && d <= x;
    if rc != Eof { assert id in r; }
    SubsetSize(rem', v[k].rem);
  }

  lemma ReadMoves(v: seq<Kid>, docIds: seq<nat>, k: nat, low: nat, rc: Status, id: nat, rem': set<nat>)
    requires k < |v| == |docIds| && docIds[k] < low && ReadSpec(v[k].rem, rc, id, rem')
    ensures rc == Eof ==> NothingFrom(v, docIds, k, low) && rem' == {}
    ensures rc != Eof ==> rem' < v[k].rem && forall ended :: Moved(v, docIds, k, Kid(rem', id, ended), id, low)
  {
    if rc != Eof { assert id in v[k].rem && id !in rem'; }
  }

  /** How many ids are still to come in all: every seek that finds something makes it smaller. */
  ghost function Total(v: seq<Kid>): nat {
    if v == [] then 0 else Total(v[..|v| - 1]) + |v[|v| - 1].rem|
  }

  lemma {:induction false} TotalUpdate(v: seq<Kid>, k: nat, kid: Kid)
    requires k < |v|
    ensures Total(v[k := kid]) == Total(v) - |v[k].rem| + |kid.rem|
  {
    var n := |v| - 1;
    if k == n {
      assert v[k := kid][..n] == v[..n];
    } else {
      TotalUpdate(v[..n], k, kid);
      assert v[k := kid][..n] == v[..n][k := kid];
    }
  }

  lemma SubsetSize(a: set<nat>, b: set<nat>)
    requires a <= b
    ensures |a| <= |b| && (a != b ==> |a| < |b|)
  {
    assert b == a + (b - a);
  }

  /** x can still be delivered by an intersection: every child offers it, and it passes the filter. */
  ghost predicate AllOffer(v: seq<Kid>, docIds: seq<nat>, x: nat)
    requires |v| == |docIds|
  {
    forall k :: 0 <= k < |v| ==> Offered(v, docIds, k, x)
  }

  ghost predicate MeetOffers(t: set<nat>, v: seq<Kid>, docIds: seq<nat>, within: nat -> bool, low: nat)
    requires |v| == |docIds|
  {
    forall x :: x in t <==> low <= x && 1 <= x && within(x) && AllOffer(v, docIds, x)
  }

  lemma MeetMoved(t: set<nat>, v: seq<Kid>, docIds: seq<nat>, within: nat -> bool, low: nat, k: nat, kid: Kid, id: nat)
    requires k < |v| == |docIds|
    requires MeetOffers(t, v, docIds, within, low) && Moved(v, docIds, k, kid, id, low)
    ensures MeetOffers(t, v[k := kid], docIds[k := id], within, low)
  {
    var v', ids' := v[k := kid], docIds[k := id];
    forall x | low <= x ensures AllOffer(v, docIds, x) <==> AllOffer(v', ids', x) {
      assert forall j :: 0 <= j < |v| ==> (Offered(v, docIds, j, x) <==> Offered(v', ids', j, x));
    }
  }

  /** One exhausted child empties an intersection. */
  lemma MeetEmpty(t: set<nat>, v: seq<Kid>, docIds: seq<nat>, within: nat -> bool, low: nat, k: nat)
    requires k < |v| == |docIds| && MeetOffers(t, v, docIds, within, low)
    requires forall x :: low <= x && 1 <= x ==> !Offered(v, docIds, k, x)
    ensures t == {}
  {
    assert forall x :: x in t ==> Offered(v, docIds, k, x);
  }

  /** A child that is ahead raises the lower end for all. */
  lemma MeetRaise(t: set<nat>, v: seq<Kid>, docIds: seq<nat>, within: nat -> bool, low: nat, k: nat, id: nat)
    requires k < |v| == |docIds| && MeetOffers(t, v, docIds, within, low) && low <= id
    requires forall x :: low <= x && Offered(v, docIds, k, x) ==> id <= x
    ensures MeetOffers(t, v, docIds, within, id)
  {
    forall x | x in t ensures id <= x { assert Offered(v, docIds, k, x); }
  }

  lemma MeetFrom(t: set<nat>, v: seq<Kid>, docIds: seq<nat>, within: nat -> bool, low: nat, d: nat)
    requires |v| == |docIds| && MeetOffers(t, v, docIds, within, low) && low <= d
    ensures MeetOffers(From(t, d), v, docIds, within, d)
  {
  }

  /** All children stand at the same id: it is the least common id if it passes the filter, and none if not. */
  lemma MeetHit(t: set<nat>, v: seq<Kid>, docIds: seq<nat>, within: nat -> bool, at: nat)
    requires |v| == |docIds| && MeetOffers(t, v, docIds, within, at) && at >= 1
    requires forall k :: 0 <= k < |v| ==> docIds[k] == at
    ensures within(at) ==> IsLeast(t, at)
    ensures !within(at) ==> at !in t
    ensures MeetOffers(From(t, at + 1), v, docIds, within, at + 1)
    ensures !within(at) ==> From(t, at + 1) == t
  {
    assert AllOffer(v, docIds, at);
    if !within(at) {
      assert forall x :: x in t ==> at <= x && x != at;
      assert From(t, at + 1) == t;
    }
  }

  lemma ActiveMoved(v: seq<Kid>, docIds: seq<nat>, act: seq<nat>, k: nat, kid: Kid)
    requires Active(v, docIds, act) && k < |v| && !kid.ended
    ensures Active(v[k := kid], docIds[k := kid.cur], act)
  {
  }

  lemma ActiveDropped(v: seq<Kid>, docIds: seq<nat>, act: seq<nat>, p: nat, kid: Kid)
    requires Active(v, docIds, act) && p < |act|
    ensures Active(v[act[p] := kid], docIds, act[..p] + act[p + 1..])
  {
    var rest := act[..p] + act[p + 1..];
    forall q | 0 <= q < |rest| ensures rest[q] != act[p] && rest[q] == act[if q < p then q else q + 1] {
    }
  }

  /** The least of the ids the active children stand at is the least id on offer. */
  lemma LeastCurrent(t: set<nat>, v: seq<Kid>, docIds: seq<nat>, act: seq<nat>, low: nat, p: nat)
    requires Active(v, docIds, act) && Ascending(v) && p < |act|
    requires UnionOffers(t, v, docIds, act, low) && low <= docIds[act[p]]
    requires forall q :: 0 <= q < |act| ==> docIds[act[p]] <= docIds[act[q]]
    ensures IsLeast(t, docIds[act[p]])
  {
    LeastOffered(t, v, docIds, act, low, p);
  }

  /** An id that a child stands at and below which nothing is asked for. */
  lemma FoundIsLeast(t: set<nat>, v: seq<Kid>, docIds: seq<nat>, act: seq<nat>, d: nat, p: nat)
    requires Active(v, docIds, act) && p < |act| && docIds[act[p]] == d
    requires UnionOffers(t, v, docIds, act, d)
    ensures IsLeast(t, d)
  {
    LeastOffered(t, v, docIds, act, d, p);
  }

  lemma NobodyLeft(t: set<nat>, v: seq<Kid>, docIds: seq<nat>, low: nat)
    requires |v| == |docIds| && UnionOffers(t, v, docIds, [], low)
    ensures t == {}
  {
  }

  lemma StillNothing(v: seq<Kid>, docIds: seq<nat>, k: nat, kid: Kid, low: nat)
    requires k < |v| == |docIds| && NothingFrom(v, docIds, k, low) && kid.rem == {}
    ensures Moved(v, docIds, k, kid, docIds[k], low) && NothingFrom(v[k := kid], docIds, k, low)
  {
    assert Offered(v, docIds, k, docIds[k]);
  }

  /** Delivering the least id from d on. */
  lemma Delivers(rem: set<nat>, d: nat, t: set<nat>, id: nat)
    requires t == From(rem, d) && IsLeast(t, id)
    ensures d <= id && SkipSpec(rem, d, if id == d then Ok else NotFound, id, From(t, id + 1))
  {
    assert From(t, id + 1) == From(rem, id + 1);
  }

  lemma ActivePolled(v: seq<Kid>, docIds: seq<nat>, act: seq<nat>, rest: seq<nat>, kid: Kid)
    requires Active(v, docIds, act) && act != [] && Items(rest, |v|) && Distinct(rest)
    requires forall x :: x in rest <==> x in act && x != act[0]
    ensures Active(v[act[0] := kid], docIds, rest)
  {
    forall p | 0 <= p < |rest| ensures !v[rest[p]].ended && v[rest[p]].cur == docIds[rest[p]] && rest[p] != act[0] {
      assert rest[p] in act;
      var q :| 0 <= q < |act| && act[q] == rest[p];
    }
  }

  lemma ActiveShuffled(v: seq<Kid>, docIds: seq<nat>, act: seq<nat>, act': seq<nat>)
    requires Active(v, docIds, act) && Items(act', |v|) && Distinct(act') && SameItems(act, act')
    ensures Active(v, docIds, act')
  {
    forall p | 0 <= p < |act'| ensures !v[act'[p]].ended && v[act'[p]].cur == docIds[act'[p]] {
      assert act'[p] in act;
      var q :| 0 <= q < |act| && act[q] == act'[p];
    }
  }

  /** A child seeks the id an intersection is looking for: nothing common is lost, and nothing below its new id is common. */
  lemma MeetSkip(t: set<nat>, v: seq<Kid>, docIds: seq<nat>, within: nat -> bool, low: nat, k: nat, rc: Status, id: nat, rem': set<nat>)
    requires k < |v| == |docIds| && docIds[k] < low
    requires MeetOffers(t, v, docIds, within, low) && SkipSpec(v[k].rem, low, rc, id, rem')
    ensures rc == Eof ==> t == {}
    ensures rc != Eof ==> low <= id && id in v[k].rem && (id == low <==> rc == Ok)
    ensures rc != Eof ==> MeetOffers(t, v[k := Kid(rem', id, false)], docIds[k := id], within, id)
  {
    hide MeetOffers;
    SkipMoves(v, docIds, k, low, rc, id, rem');
    if rc == Eof {
      MeetEmpty(t, v, docIds, within, low, k);
    } else {
      var v', ids' := v[k := Kid(rem', id, false)], docIds[k := id];
      MeetMoved(t, v, docIds, within, low, k, v'[k], id);
      MeetRaise(t, v', ids', within, low, k, id);
    }
  }

  lemma MeetRead(t: set<nat>, v: seq<Kid>, docIds: seq<nat>, within: nat -> bool, k: nat, rc: Status, id: nat, rem': set<nat>)
    requires k < |v| == |docIds| && docIds[k] == 0 && forall x :: x in v[k].rem ==> 0 < x
    requires MeetOffers(t, v, docIds, within, 0) && ReadSpec(v[k].rem, rc, id, rem')
    ensures rc == Eof ==> t == {}
    ensures rc != Eof ==> id in v[k].rem && MeetOffers(t, v[k := Kid(rem', id, false)], docIds[k := id], within, id)
  {
    assert MeetOffers(t, v, docIds, within, 1);
    hide MeetOffers;
    ReadMoves(v, docIds, k, 1, rc, id, rem');
    if rc == Eof {
      MeetEmpty(t, v, docIds, within, 1, k);
    } else {
      var v', ids' := v[k := Kid(rem', id, false)], docIds[k := id];
      MeetMoved(t, v, docIds, within, 1, k, v'[k], id);
      MeetRaise(t, v', ids', within, 1, k, id);
    }
  }

  /** d itself is not there: reading what there is from d on is a seek that does not find d. */
  lemma ReadThenSkip(rem: set<nat>, d: nat, t: set<nat>, rc: Status, id: nat, rem': set<nat>)
    requires t == From(rem, d) && d !in t && ReadSpec(t, rc, id, rem')
    ensures SkipSpec(rem, d, if rc == Eof then Eof else NotFound, id, rem')
  {
    if rc != Eof { assert From(t, id + 1) == From(rem, id + 1); }
  }
}
