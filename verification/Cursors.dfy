/** The list of query cursors: looked up by id, kept in an idle list between reads, and swept when they time out. */
module Cursors {
  import opened Bytes

  /** A cursor; pos is its place in the idle list, or -1 while it is in use. */
  datatype Cursor = Cursor(pos: int, deadline: nat, intervalMs: nat, spec: Option<nat>)

  /** What an index knows of its cursors. */
  datatype Spec = Spec(activeCursors: int, cap: int, dropped: bool)

  const SWEEP_INTERVAL: nat := 500
  const SWEEP_THROTTLE: nat := 1000000000
  const NS_PER_MS: nat := 1000000
  const MASK_31: nat := 0x8000_0000

  /** An id from a random number: odd for coordinator cursors, even for others, never 0. */
  function IdFrom(draw: nat, isCoord: bool): (id: nat)
    ensures id >= 1 && id % 2 == if isCoord then 1 else 0
  {
    var r := draw % MASK_31;
    if isCoord then r - r % 2 + 1 else r - r % 2 + 2
  }

  /** The list a cursor id leads back to. */
  predicate LeadsToCoord(id: nat) {
    id % 2 == 1
  }

  /** The idle list and the cursors' places agree. */
  ghost predicate Placed(lookup: map<nat, Cursor>, idle: seq<nat>) {
    && (forall i :: 0 <= i < |idle| ==> idle[i] in lookup && lookup[idle[i]].pos == i)
    && (forall id :: id in lookup ==> lookup[id].pos == -1 || (0 <= lookup[id].pos < |idle| && idle[lookup[id].pos] == id))
  }

  ghost function Owned(lookup: map<nat, Cursor>, s: nat): set<nat> {
    set id | id in lookup && lookup[id].spec == Some(s)
  }

  /** Every index counts its cursors, and has no more than it may. */
  ghost predicate Counted(lookup: map<nat, Cursor>, specs: map<nat, Spec>) {
    && (forall id :: id in lookup && lookup[id].spec.Some? ==> lookup[id].spec.value in specs)
    && (forall s :: s in specs && !specs[s].dropped ==> |Owned(lookup, s)| == specs[s].activeCursors <= specs[s].cap)
  }

  /** The same cursor, perhaps at another place of the idle list. */
  ghost predicate Same(a: Cursor, b: Cursor) {
    a.deadline == b.deadline && a.intervalMs == b.intervalMs && a.spec == b.spec && (a.pos == -1 <==> b.pos == -1)
  }

  /** Indexes may have fewer cursors than before; nothing else about them changed. */
  ghost predicate Fewer(a: map<nat, Spec>, b: map<nat, Spec>) {
    && a.Keys == b.Keys
    && forall s :: s in a ==> b[s].cap == a[s].cap && b[s].dropped == a[s].dropped && b[s].activeCursors <= a[s].activeCursors
  }

  /** Apart from the cursors in but, nothing happened except that some idle cursors past their deadline are gone. */
  ghost predicate Trimmed(a: map<nat, Cursor>, b: map<nat, Cursor>, now: nat, but: set<nat>) {
    && (forall id :: id in b && id !in but ==> id in a && Same(a[id], b[id]))
    && (forall id :: id in a && id !in b && id !in but ==> a[id].pos != -1 && a[id].deadline <= now)
  }

  lemma OwnedSame(a: map<nat, Cursor>, b: map<nat, Cursor>, s: nat)
    requires a.Keys == b.Keys && forall id :: id in a ==> a[id].spec == b[id].spec
    ensures Owned(a, s) == Owned(b, s)
  {
  }

  lemma OwnedWithout(a: map<nat, Cursor>, id: nat, s: nat)
    requires id in a
    ensures |Owned(a - {id}, s)| == |Owned(a, s)| - if a[id].spec == Some(s) then 1 else 0
  {
    assert Owned(a - {id}, s) == Owned(a, s) - {id};
  }

  lemma OwnedWith(a: map<nat, Cursor>, id: nat, c: Cursor, s: nat)
    requires id !in a
    ensures |Owned(a[id := c], s)| == |Owned(a, s)| + if c.spec == Some(s) then 1 else 0
  {
    if c.spec == Some(s) {
      assert Owned(a[id := c], s) == Owned(a, s) + {id};
    } else {
      assert Owned(a[id := c], s) == Owned(a, s);
    }
  }

  lemma CountedSame(a: map<nat, Cursor>, b: map<nat, Cursor>, specs: map<nat, Spec>)
    requires Counted(a, specs) && a.Keys == b.Keys && forall id :: id in a ==> a[id].spec == b[id].spec
    ensures Counted(b, specs)
  {
    forall s | s in specs ensures Owned(a, s) == Owned(b, s) { OwnedSame(a, b, s); }
  }

  /** The maps after the swap-removal of a cursor from the idle list. */
  ghost function Unplaced(lookup: map<nat, Cursor>, idle: seq<nat>, cid: nat): map<nat, Cursor>
    requires cid in lookup && 0 <= lookup[cid].pos < |idle| && idle[|idle| - 1] in lookup
  {
    var last := idle[|idle| - 1];
    lookup[last := lookup[last].(pos := lookup[cid].pos)][cid := lookup[cid].(pos := -1)]
  }

  lemma SwapRemove(lookup: map<nat, Cursor>, idle: seq<nat>, cid: nat)
    requires Placed(lookup, idle) && cid in lookup && lookup[cid].pos != -1
    ensures 0 <= lookup[cid].pos < |idle| && idle[lookup[cid].pos] == cid && idle[|idle| - 1] in lookup
    ensures Placed(Unplaced(lookup, idle, cid), idle[lookup[cid].pos := idle[|idle| - 1]][..|idle| - 1])
  {
    var n, p := |idle| - 1, lookup[cid].pos;
    var last := idle[n];
    var l', i' := Unplaced(lookup, idle, cid), idle[p := last][..n];
    forall i | 0 <= i < n ensures i'[i] in l' && l'[i'[i]].pos == i {
      assert idle[i] in lookup && lookup[idle[i]].pos == i;
      assert i != p ==> idle[i] != cid && idle[i] != last;
      assert i == p ==> last != cid;
    }
    forall id | id in l' ensures l'[id].pos == -1 || (0 <= l'[id].pos < n && i'[l'[id].pos] == id) {
      if id != cid && id != last && lookup[id].pos != -1 {
        assert idle[lookup[id].pos] == id;
      }
    }
  }

  class CursorList {
    const isCoord: bool
    var lookup: map<nat, Cursor>
    var idle: seq<nat>
    var counter: nat
    var lastCollect: nat
    /** A hint: 0 when unknown. */
    var nextIdleTimeoutNs: nat
    var specs: map<nat, Spec>

    ghost predicate Valid()
      reads this
    {
      && Placed(lookup, idle) && Counted(lookup, specs)
      && forall id :: id in lookup ==> id >= 1 && LeadsToCoord(id) == isCoord
    }

    constructor (isCoord: bool, specs: map<nat, Spec>)
      requires forall s :: s in specs ==> specs[s].activeCursors == 0 <= specs[s].cap
      ensures Valid() && lookup == map[] && this.isCoord == isCoord && this.specs == specs
    {
      this.isCoord, this.specs := isCoord, specs;
      lookup, idle, counter, lastCollect, nextIdleTimeoutNs := map[], [], 0, 0, 0;
      new;
      forall s | s in specs ensures Owned(lookup, s) == {} { }
    }

    /** Take a cursor out of the idle list: the last one moves to its place. */
    method RemoveFromIdle(cid: nat)
      requires Valid() && cid in lookup && lookup[cid].pos != -1
      modifies this`lookup, this`idle, this`nextIdleTimeoutNs
      ensures Valid() && |idle| == |old(idle)| - 1 && lookup.Keys == old(lookup).Keys && lookup[cid].pos == -1
      ensures Same(old(lookup)[cid].(pos := -1), lookup[cid]) && Trimmed(old(lookup), lookup, 0, {cid})
      ensures forall i :: 0 <= i < old(lookup[cid].pos) && i < |idle| ==> idle[i] == old(idle)[i]
    {
      hide Counted, Trimmed, Placed;
      SwapRemove(lookup, idle, cid);
      UnplacedFacts(lookup, idle, cid, specs);
      ghost var l', i' := Unplaced(lookup, idle, cid), idle[lookup[cid].pos := idle[|idle| - 1]][..|idle| - 1];
      var n := |idle|;
      if n > 1 {
        var last := idle[n - 1];
        lookup := lookup[last := lookup[last].(pos := lookup[cid].pos)];
        idle := idle[lookup[last].pos := last];
      }
      idle := idle[..n - 1];
      if lookup[cid].deadline == nextIdleTimeoutNs {
        nextIdleTimeoutNs := 0;
      }
      lookup := lookup[cid := lookup[cid].(pos := -1)];
      assert idle == i' && lookup == l';
    }

    /** Forget a cursor that is in use; its index has one cursor less. */
    method FreeInternal(cid: nat)
      requires Valid() && cid in lookup && lookup[cid].pos == -1
      modifies this`lookup, this`specs
      ensures Valid() && lookup == old(lookup) - {cid}
      ensures specs == FreedSpecs(old(specs), old(lookup)[cid].spec)
    {
      hide Counted;
      FreedCounted(lookup, specs, cid);
      var spec := lookup[cid].spec;
      lookup := lookup - {cid};
      if spec.Some? {
        var s := spec.value;
        assert s in specs by { SpecKnown(old(lookup), specs, cid); }
        if !specs[s].dropped {
          specs := specs[s := specs[s].(activeCursors := specs[s].activeCursors - 1)];
        }
      }
    }

    /** Collect one idle cursor. */
    method Collect(cid: nat, ghost now: nat)
      requires Valid() && cid in lookup && lookup[cid].pos != -1 && lookup[cid].deadline <= now
      modifies this`lookup, this`idle, this`nextIdleTimeoutNs, this`specs
      ensures Valid() && |idle| == |old(idle)| - 1 && cid !in lookup && |lookup| == |old(lookup)| - 1
      ensures Trimmed(old(lookup), lookup, now, {}) && Fewer(old(specs), specs)
      ensures forall i :: 0 <= i < old(lookup[cid].pos) && i < |idle| ==> idle[i] == old(idle)[i]
    {
      hide Counted, Placed;
      RemoveFromIdle(cid);
      ghost var mid := lookup;
      FreeInternal(cid);
      assert lookup.Keys == mid.Keys - {cid};
    }

    /** Look at place ii of the idle list, and at every cursor a removal puts there. */
    method SweepAt(ii: nat, now: nat) returns (collected: nat)
      requires Valid() && ii < |idle| && Checked(lookup, idle, ii, now)
      modifies this`lookup, this`idle, this`nextIdleTimeoutNs, this`specs
      ensures Valid() && Trimmed(old(lookup), lookup, now, {}) && collected == |old(lookup)| - |lookup|
      ensures Checked(lookup, idle, ii + 1, now) && |idle| <= |old(idle)| && Fewer(old(specs), specs)
    {
      hide Counted, Placed, Trimmed;
      collected := 0;
      TrimmedSelf(lookup, now);
      var cur, oldCur: Option<nat> := idle[ii], None;
      while Some(cur) != oldCur
        invariant Valid() && Trimmed(old(lookup), lookup, now, {}) && collected == |old(lookup)| - |lookup|
        invariant |idle| <= |old(idle)| && Checked(lookup, idle, ii, now) && Fewer(old(specs), specs)
        invariant if Some(cur) != oldCur then ii < |idle| && idle[ii] == cur else Checked(lookup, idle, ii + 1, now)
        decreases |idle|, Some(cur) != oldCur
      {
        ghost var before, list := lookup, idle;
        IdleKnown(lookup, idle, ii);
        if lookup[cur].deadline <= now {
          Collect(cur, now);
          TrimmedTwice(old(lookup), before, lookup, now);
          CheckedStays(before, list, lookup, idle, ii, now);
          collected := collected + 1;
        }
        oldCur := Some(cur);
        if |idle| > ii {
          IdleKnown(lookup, idle, ii);
          cur := idle[ii];
        }
      }
    }

    /**
     * Go over the idle list and collect what has timed out. A removal puts another cursor at the same
     * place, which is looked at before moving on.
     */
    method Sweep(now: nat) returns (collected: nat)
      requires Valid()
      modifies this`lookup, this`idle, this`nextIdleTimeoutNs, this`specs
      ensures Valid() && Trimmed(old(lookup), lookup, now, {}) && collected == |old(lookup)| - |lookup|
      ensures NoneExpired(now) && Fewer(old(specs), specs)
    {
      hide Counted, Placed, Trimmed;
      collected := 0;
      var ii: nat := 0;
      TrimmedSelf(lookup, now);
      while ii < |idle|
        invariant Valid() && Trimmed(old(lookup), lookup, now, {}) && collected == |old(lookup)| - |lookup|
        invariant Checked(lookup, idle, ii, now) && Fewer(old(specs), specs)
        decreases |idle| - ii
      {
        ghost var before := lookup;
        var n := SweepAt(ii, now);
        TrimmedTwice(old(lookup), before, lookup, now);
        collected, ii := collected + n, ii + 1;
      }
      forall id | id in lookup && lookup[id].pos != -1 ensures lookup[id].deadline > now {
        IdleListed(lookup, idle, id);
      }
    }

    /** Sweep, unless nothing can have timed out yet or the last sweep was just now. */
    method GcInternal(now: nat, force: bool) returns (ran: bool)
      requires Valid()
      modifies this`lookup, this`idle, this`nextIdleTimeoutNs, this`specs, this`lastCollect
      ensures Valid() && Trimmed(old(lookup), lookup, now, {}) && Fewer(old(specs), specs)
      ensures !ran ==> lookup == old(lookup) && idle == old(idle) && specs == old(specs)
      ensures ran ==> NoneExpired(now)
      ensures !ran ==> !Due(now)
      ensures ran <==> old(nextIdleTimeoutNs) <= now && (force || old(Due(now)))
    {
      hide Counted, Placed, Trimmed;
      TrimmedSelf(lookup, now);
      if (nextIdleTimeoutNs != 0 && nextIdleTimeoutNs > now)
         || (!force && lastCollect <= now && now - lastCollect < SWEEP_THROTTLE) {
        return false;
      }
      lastCollect := now;
      var _ := Sweep(now);
      return true;
    }

    /** A sweep that is not forced would run now. */
    predicate Due(now: nat)
      reads this
    {
      nextIdleTimeoutNs <= now && (lastCollect > now || now - lastCollect >= SWEEP_THROTTLE)
    }

    /** No idle cursor has timed out. */
    ghost predicate NoneExpired(now: nat)
      reads this
    {
      forall id :: id in lookup && lookup[id].pos != -1 ==> lookup[id].deadline > now
    }

    /** Every so many operations there is a sweep. */
    method IncrCounter(now: nat)
      requires Valid()
      modifies this`lookup, this`idle, this`nextIdleTimeoutNs, this`specs, this`lastCollect, this`counter
      ensures Valid() && Trimmed(old(lookup), lookup, now, {}) && Fewer(old(specs), specs)
      ensures counter == old(counter) + 1
      ensures counter % SWEEP_INTERVAL == 0 && old(Due(now)) ==> NoneExpired(now)
      ensures counter % SWEEP_INTERVAL != 0 ==> lookup == old(lookup) && idle == old(idle)
    {
      hide Counted, Placed, Trimmed;
      TrimmedSelf(lookup, now);
      counter := counter + 1;
      if counter % SWEEP_INTERVAL == 0 {
        var _ := GcInternal(now, false);
      }
    }

    /** Draw until there is an id that is not in use. */
    method GenerateId(draws: seq<nat>) returns (id: nat)
      requires exists i :: 0 <= i < |draws| && IdFrom(draws[i], isCoord) !in lookup
      ensures id !in lookup && id >= 1 && LeadsToCoord(id) == isCoord
    {
      var k: nat := 0;
      id := 0;
      while true
        invariant k < |draws| && exists i :: k <= i < |draws| && IdFrom(draws[i], isCoord) !in lookup
        decreases |draws| - k
      {
        id := IdFrom(draws[k], isCoord);
        if id !in lookup {
          return;
        }
        k := k + 1;
      }
    }

    /** An index has no room for another cursor. */
    predicate Full(spec: Option<nat>)
      reads this
    {
      spec.Some? && spec.value in specs && specs[spec.value].activeCursors >= specs[spec.value].cap
    }

    /** Make a cursor, in use; none if its index has too many even after a sweep. */
    method Reserve(spec: Option<nat>, intervalMs: nat, now: nat, draws: seq<nat>) returns (r: Option<nat>)
      requires Valid() && (spec.Some? ==> spec.value in specs && !specs[spec.value].dropped)
      requires exists i :: 0 <= i < |draws| && IdFrom(draws[i], isCoord) !in lookup
      modifies this
      ensures Valid() && (r.None? ==> Full(spec) && (NoneExpired(now) || !Due(now)))
      ensures r.None? ==> Trimmed(old(lookup), lookup, now, {})
      ensures r.Some? ==>
                && Trimmed(old(lookup), lookup, now, {r.value})
                && r.value in lookup && lookup[r.value] == Cursor(-1, 0, intervalMs, spec)
                && LeadsToCoord(r.value) == isCoord
    {
      hide Counted, Placed, Trimmed, Fewer;
      IncrCounter(now);
      ghost var mid, midSpecs := lookup, specs;
      if spec.Some? { FewerHas(old(specs), specs, spec.value); }
      if Full(spec) {
        var _ := GcInternal(now, false);
        TrimmedTwice(old(lookup), mid, lookup, now);
        FewerHas(midSpecs, specs, spec.value);
        if Full(spec) {
          return None;
        }
      }
      TrimmedKeys(old(lookup), lookup, now);
      var id := GenerateId(draws);
      var c := Cursor(-1, 0, intervalMs, spec);
      ReservePlaced(lookup, idle, id, c);
      ReserveCounted(lookup, specs, id, c);
      ReserveTrimmed(old(lookup), lookup, now, id, c);
      lookup := lookup[id := c];
      if spec.Some? {
        specs := specs[spec.value := specs[spec.value].(activeCursors := specs[spec.value].activeCursors + 1)];
      }
      return Some(id);
    }

    /** Put a cursor that was in use into the idle list. */
    method Pause(cid: nat, now: nat)
      requires Valid() && cid in lookup && lookup[cid].pos == -1
      modifies this
      ensures Valid() && Trimmed(old(lookup), lookup, now, {cid})
      ensures cid in lookup && lookup[cid].pos != -1 && lookup[cid].spec == old(lookup)[cid].spec
      ensures lookup[cid].deadline == now + old(lookup)[cid].intervalMs * NS_PER_MS
    {
      hide Counted, Placed;
      IncrCounter(now);
      var deadline := now + lookup[cid].intervalMs * NS_PER_MS;
      if deadline < nextIdleTimeoutNs || nextIdleTimeoutNs == 0 {
        nextIdleTimeoutNs := deadline;
      }
      ghost var was := lookup;
      PausePlaced(lookup, idle, cid, deadline);
      idle := idle + [cid];
      lookup := lookup[cid := lookup[cid].(deadline := deadline, pos := |idle| - 1)];
      CountedSame(was, lookup, specs);
    }

    /** Take an idle cursor to work with; there is none if the id is unknown or the cursor is in use. */
    method TakeForExecution(cid: nat, now: nat) returns (found: bool)
      requires Valid()
      modifies this
      ensures Valid() && Trimmed(old(lookup), lookup, now, {cid})
      ensures found ==> cid in old(lookup) && old(lookup)[cid].pos != -1 && cid in lookup && lookup[cid].pos == -1
      ensures !found ==> cid !in lookup || (cid in old(lookup) && old(lookup)[cid].pos == -1)
      ensures !found ==> Trimmed(old(lookup), lookup, now, {})
    {
      hide Counted, Placed;
      IncrCounter(now);
      if cid !in lookup || lookup[cid].pos == -1 {
        return false;
      }
      RemoveFromIdle(cid);
      return true;
    }

    /** Forget a cursor, idle or not. */
    method Purge(cid: nat, now: nat) returns (found: bool)
      requires Valid()
      modifies this
      ensures Valid() && Trimmed(old(lookup), lookup, now, {cid}) && cid !in lookup
      ensures found ==> cid in old(lookup)
    {
      hide Counted, Placed;
      IncrCounter(now);
      if cid !in lookup {
        return false;
      }
      if lookup[cid].pos != -1 {
        RemoveFromIdle(cid);
      }
      FreeInternal(cid);
      return true;
    }
  }

  lemma ReservePlaced(lookup: map<nat, Cursor>, idle: seq<nat>, id: nat, c: Cursor)
    requires Placed(lookup, idle) && id !in lookup && c.pos == -1
    ensures Placed(lookup[id := c], idle)
  {
  }

  lemma ReserveCounted(lookup: map<nat, Cursor>, specs: map<nat, Spec>, id: nat, c: Cursor)
    requires Counted(lookup, specs) && id !in lookup
    requires c.spec.Some? ==> c.spec.value in specs && specs[c.spec.value].activeCursors < specs[c.spec.value].cap
    ensures var specs' := if c.spec.Some? then
                            specs[c.spec.value := specs[c.spec.value].(activeCursors := specs[c.spec.value].activeCursors + 1)]
                          else specs;
            Counted(lookup[id := c], specs')
  {
    forall s | s in specs ensures |Owned(lookup[id := c], s)| == |Owned(lookup, s)| + if c.spec == Some(s) then 1 else 0 {
      OwnedWith(lookup, id, c, s);
    }
  }

  lemma ReserveTrimmed(a: map<nat, Cursor>, b: map<nat, Cursor>, now: nat, id: nat, c: Cursor)
    requires Trimmed(a, b, now, {})
    ensures Trimmed(a, b[id := c], now, {id})
  {
  }

  lemma PausePlaced(lookup: map<nat, Cursor>, idle: seq<nat>, cid: nat, deadline: nat)
    requires Placed(lookup, idle) && cid in lookup && lookup[cid].pos == -1
    ensures Placed(lookup[cid := lookup[cid].(deadline := deadline, pos := |idle|)], idle + [cid])
  {
  }

  /** The first ii idle cursors have not timed out. */
  ghost predicate Checked(lookup: map<nat, Cursor>, idle: seq<nat>, ii: nat, now: nat) {
    forall i :: 0 <= i < ii && i < |idle| ==> idle[i] in lookup && lookup[idle[i]].deadline > now
  }

  lemma IdleKnown(lookup: map<nat, Cursor>, idle: seq<nat>, i: nat)
    requires Placed(lookup, idle) && i < |idle|
    ensures idle[i] in lookup && lookup[idle[i]].pos == i
  {
  }

  lemma IdleListed(lookup: map<nat, Cursor>, idle: seq<nat>, id: nat)
    requires Placed(lookup, idle) && id in lookup && lookup[id].pos != -1
    ensures 0 <= lookup[id].pos < |idle| && idle[lookup[id].pos] == id
  {
  }

  lemma CheckedStays(a: map<nat, Cursor>, idle: seq<nat>, b: map<nat, Cursor>, idle': seq<nat>, ii: nat, now: nat)
    requires Checked(a, idle, ii, now) && Placed(b, idle') && Trimmed(a, b, now, {}) && |idle'| <= |idle|
    requires forall i :: 0 <= i < ii && i < |idle'| ==> idle'[i] == idle[i]
    ensures Checked(b, idle', ii, now)
  {
  }

  lemma TrimmedSelf(a: map<nat, Cursor>, now: nat)
    ensures Trimmed(a, a, now, {})
  {
  }

  lemma FewerHas(a: map<nat, Spec>, b: map<nat, Spec>, s: nat)
    requires Fewer(a, b) && s in a
    ensures s in b && b[s].dropped == a[s].dropped
  {
  }

  lemma TrimmedKeys(a: map<nat, Cursor>, b: map<nat, Cursor>, now: nat)
    requires Trimmed(a, b, now, {})
    ensures b.Keys <= a.Keys
  {
  }

  lemma TrimmedTwice(a: map<nat, Cursor>, b: map<nat, Cursor>, c: map<nat, Cursor>, now: nat)
    requires Trimmed(a, b, now, {}) && Trimmed(b, c, now, {})
    ensures Trimmed(a, c, now, {})
  {
  }

  lemma SpecKnown(lookup: map<nat, Cursor>, specs: map<nat, Spec>, cid: nat)
    requires Counted(lookup, specs) && cid in lookup && lookup[cid].spec.Some?
    ensures lookup[cid].spec.value in specs
  {
  }

  ghost function FreedSpecs(specs: map<nat, Spec>, spec: Option<nat>): map<nat, Spec> {
    if spec.Some? && spec.value in specs && !specs[spec.value].dropped then
      specs[spec.value := specs[spec.value].(activeCursors := specs[spec.value].activeCursors - 1)]
    else specs
  }

  lemma FreedCounted(lookup: map<nat, Cursor>, specs: map<nat, Spec>, cid: nat)
    requires Counted(lookup, specs) && cid in lookup
    ensures Counted(lookup - {cid}, FreedSpecs(specs, lookup[cid].spec))
  {
    forall s | s in specs ensures |Owned(lookup - {cid}, s)| == |Owned(lookup, s)| - if lookup[cid].spec == Some(s) then 1 else 0 {
      OwnedWithout(lookup, cid, s);
    }
  }

  lemma UnplacedFacts(lookup: map<nat, Cursor>, idle: seq<nat>, cid: nat, specs: map<nat, Spec>)
    requires Placed(lookup, idle) && Counted(lookup, specs) && cid in lookup && lookup[cid].pos != -1
    requires 0 <= lookup[cid].pos < |idle| && idle[|idle| - 1] in lookup
    ensures var l' := Unplaced(lookup, idle, cid);
            l'.Keys == lookup.Keys && Counted(l', specs) && Trimmed(lookup, l', 0, {cid})
  {
    hide Counted;
    CountedSame(lookup, Unplaced(lookup, idle, cid), specs);
  }
}
