/** Collecting a numeric range: what taking over a report does to its inverted index thins its entries. */
module NumericGc {
  import opened RecordCodec
  import opened Blocks
  import opened BlockRepair
  import opened Index
  import opened ForkGc
  import opened GcApply
  import opened GcMeaning
  import opened GcParent
  import opened GcRuns
  import opened GcSafety
  import NumericCodec
  import opened NumericRanges
  import opened NumericIndex

  /** The entries of a numeric index as document and value, where val says which number a stored value is. */
  ghost function Numbers(es: seq<Entry>, val: NumericCodec.Value -> real): (r: seq<NumEntry>)
    ensures |r| == |es|
  {
    if es == [] then []
    else Numbers(es[..|es| - 1], val) + [NumEntry(es[|es| - 1].id, val(es[|es| - 1].rec.num))]
  }

  lemma {:induction false} NumbersConcat(a: seq<Entry>, b: seq<Entry>, val: NumericCodec.Value -> real)
    ensures Numbers(a + b, val) == Numbers(a, val) + Numbers(b, val)
    decreases |b|
  {
    if b == [] {
      assert a + b == a;
    } else {
      NumbersConcat(a, b[..|b| - 1], val);
      assert (a + b)[..|a + b| - 1] == a + b[..|b| - 1];
    }
  }

  /** Dropping the documents that were dead at the fork, and are dead now, thins the entries. */
  lemma {:induction false} SurvivorsThin(es: seq<Entry>, live: set<nat>, now: iset<nat>, val: NumericCodec.Value -> real)
    requires forall i :: 0 <= i < |es| && es[i].id in now ==> es[i].id in live
    ensures Thinned(Numbers(es, val), Numbers(Survivors(es, live), val), now)
  {
    if es != [] {
      var n := |es| - 1;
      SurvivorsThin(es[..n], live, now, val);
      var a, s := Numbers(es[..n], val), Survivors(es[..n], live);
      var x := NumEntry(es[n].id, val(es[n].rec.num));
      assert (a + [x])[..n] == a;
      if es[n].id in live {
        NumbersConcat(s, [es[n]], val);
        assert Numbers([es[n]], val) == [x];
        assert (Numbers(s, val) + [x])[..|s|] == Numbers(s, val);
      } else {
        assert s + [] == s;
      }
    }
  }

  lemma {:induction false} RemnantsThin(enc: Encoding, bs: seq<Block>, live: set<nat>, now: iset<nat>, val: NumericCodec.Value -> real)
    requires forall e :: e in Entries(enc, bs) && e.id in now ==> e.id in live
    ensures Thinned(Numbers(Entries(enc, bs), val), Numbers(Remnants(enc, bs, live), val), now)
  {
    hide Contents, Survivors, Numbers, Thinned;
    if bs == [] {
      ThinnedSelf(Numbers([], val), now);
    } else {
      var p, b := bs[..|bs| - 1], bs[|bs| - 1];
      var es := Contents(enc, b);
      RemnantsThin(enc, p, live, now, val);
      SurvivorsThin(es, live, now, val);
      ThinnedSelf(Numbers(es, val), now);
      NumbersConcat(Entries(enc, p), es, val);
      NumbersConcat(Remnants(enc, p, live), Remnant(enc, b, live), val);
      ThinnedConcat(Numbers(Entries(enc, p), val), Numbers(Remnants(enc, p, live), val),
                    Numbers(es, val), Numbers(Remnant(enc, b, live), val), now);
    }
  }

  /** In every reachable state, taking over a report leaves the index's entries thinned, as the range tree expects. */
  lemma ApplyThins(s: State, t: State, val: NumericCodec.Value -> real)
    requires Inv(s) && ApplyStep(s, t)
    ensures Inv(t) && Thinned(Numbers(EntriesOf(s), val), Numbers(EntriesOf(t), val), iset x | x in s.live)
  {
    hide Entries, NumDocs, Taken, WfBlocks, NewHdrs, NewMem, DeadUpTo, FixedList, FreshBuffers, WfSnapshot, Survivors,
      Remnants, Numbers, Thinned;
    ApplyKeeps(s, t);
    var alloc: nat -> nat, emptyPtr: nat :| ApplyWith(s, t, alloc, emptyPtr);
    SpliceMeaning(s.gc.snap, s.hdrs, s.mem, alloc, emptyPtr);
    TakenIds(s);
    var l, m, now := Views(s.mem, s.hdrs), Taken(s.gc.snap, s.hdrs), iset x | x in s.live;
    var head, tail, rest := Entries(s.enc, l[..m]), Entries(s.enc, l[m..]), Remnants(s.enc, l[..m], s.gc.snap.live);
    RemnantsThin(s.enc, l[..m], s.gc.snap.live, now, val);
    ThinnedSelf(Numbers(tail, val), now);
    NumbersConcat(head, tail, val);
    NumbersConcat(rest, tail, val);
    ThinnedConcat(Numbers(head, val), Numbers(rest, val), Numbers(tail, val), Numbers(tail, val), now);
  }
}
