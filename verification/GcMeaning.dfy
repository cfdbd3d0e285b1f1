/** What collecting does to the entries of an index: filtering, with its two exceptions. */
module GcMeaning {
  import opened RecordCodec
  import opened Blocks
  import opened BlockRepair
  import opened Index
  import opened ForkGc

  ghost predicate AllWf(enc: Encoding, bs: seq<Block>) {
    forall i :: 0 <= i < |bs| ==> WellFormed(enc, bs[i])
  }

  /** What is left of one block: all of it when its ids spread too wide, the survivors otherwise. */
  ghost function Remnant(enc: Encoding, b: Block, live: set<nat>): seq<Entry> {
    if Wide(b) then Contents(enc, b) else Survivors(Contents(enc, b), live)
  }

  ghost function Remnants(enc: Encoding, bs: seq<Block>, live: set<nat>): seq<Entry> {
    if bs == [] then [] else Remnants(enc, bs[..|bs| - 1], live) + Remnant(enc, bs[|bs| - 1], live)
  }

  ghost function OutBlocks(enc: Encoding, b: Block, live: set<nat>): seq<Block>
    requires WellFormed(enc, b)
  {
    match Verdict(enc, b, live)
    case Kept => [b]
    case Removed => []
    case Replaced(x) => [x]
  }

  lemma {:induction false} EntriesConcat(enc: Encoding, a: seq<Block>, b: seq<Block>)
    ensures Entries(enc, a + b) == Entries(enc, a) + Entries(enc, b)
    ensures NumDocs(enc, a + b) == NumDocs(enc, a) + NumDocs(enc, b)
    decreases |b|
  {
    hide Contents, DocCount;
    if b == [] {
      assert a + b == a;
    } else {
      var p := b[..|b| - 1];
      EntriesConcat(enc, a, p);
      assert (a + b)[..|a + b| - 1] == a + p;
    }
  }

  lemma SurvivorsAll(es: seq<Entry>, live: set<nat>)
    ensures DeadDocs(es, live) == 0 ==> Survivors(es, live) == es
    ensures DeadDocs(es, live) == 0 <==> |Survivors(es, live)| == |es|
  {
    NoneDead(es, |es|, live);
    assert es[..|es|] == es;
  }

  /** The verdict keeps exactly the remnant. */
  lemma OutEntries(enc: Encoding, b: Block, live: set<nat>)
    requires WellFormed(enc, b)
    ensures Entries(enc, OutBlocks(enc, b, live)) == Remnant(enc, b, live)
  {
    hide Parse, Survivors, DeadDocs, Chain, Encoded;
    var es := Contents(enc, b);
    SurvivorsAll(es, live);
    match Verdict(enc, b, live)
    case Kept => OneBlock(enc, b);
    case Removed =>
    case Replaced(x) =>
      SurvivorsFit(enc, b, live);
      MakeRoundTrip(enc, Survivors(es, live));
      OneBlock(enc, x);
  }

  lemma OneBlock(enc: Encoding, b: Block)
    ensures Entries(enc, [b]) == Contents(enc, b) && NumDocs(enc, [b]) == DocCount(Contents(enc, b))
  {
    hide Contents;
    assert [b][..0] == [];
  }

  lemma OutsUnfold(enc: Encoding, bs: seq<Block>, live: set<nat>)
    requires bs != [] && AllWf(enc, bs)
    ensures var n := |bs| - 1; Outs(enc, bs, live) == Outs(enc, bs[..n], live) + OutBlocks(enc, bs[n], live)
  {
    hide WellFormed, Verdict;
  }

  /** Collecting a list of blocks leaves exactly the remnants. */
  lemma {:induction false} OutsEntries(enc: Encoding, bs: seq<Block>, live: set<nat>)
    requires AllWf(enc, bs)
    ensures Entries(enc, Outs(enc, bs, live)) == Remnants(enc, bs, live)
  {
    hide WellFormed, OutBlocks, Remnant, Contents, Outs;
    if bs == [] {
      assert Outs(enc, bs, live) == [] by { OutsNil(enc, live); }
    } else {
      var n := |bs| - 1;
      OutsEntries(enc, bs[..n], live);
      OutsUnfold(enc, bs, live);
      OutEntries(enc, bs[n], live);
      EntriesConcat(enc, Outs(enc, bs[..n], live), OutBlocks(enc, bs[n], live));
    }
  }

  lemma OutsNil(enc: Encoding, live: set<nat>)
    ensures Outs(enc, [], live) == []
  {
  }

  lemma SurvivorsSnoc(es: seq<Entry>, e: Entry, live: set<nat>)
    ensures Survivors(es + [e], live) == Survivors(es, live) + if e.id in live then [e] else []
  {
    assert (es + [e])[..|es|] == es;
  }

  lemma {:induction false} SurvivorsConcat(a: seq<Entry>, b: seq<Entry>, live: set<nat>)
    ensures Survivors(a + b, live) == Survivors(a, live) + Survivors(b, live)
    decreases |b|
  {
    hide Survivors;
    if b == [] {
      assert a + b == a;
      SurvivorsNil(live);
    } else {
      var p, e := b[..|b| - 1], b[|b| - 1];
      SurvivorsConcat(a, p, live);
      assert b == p + [e] && a + b == (a + p) + [e];
      SurvivorsSnoc(a + p, e, live);
      SurvivorsSnoc(p, e, live);
    }
  }

  lemma SurvivorsNil(live: set<nat>)
    ensures Survivors([], live) == []
  {
  }

  /** Filtering by fewer documents does not see an earlier, wider filter. */
  lemma {:induction false} SurvivorsTwice(es: seq<Entry>, wide: set<nat>, live: set<nat>)
    requires forall i :: 0 <= i < |es| && es[i].id in live ==> es[i].id in wide
    ensures Survivors(Survivors(es, wide), live) == Survivors(es, live)
  {
    hide Survivors;
    if es == [] {
      SurvivorsNil(live);
      SurvivorsNil(wide);
    } else {
      var p, e := es[..|es| - 1], es[|es| - 1];
      assert es == p + [e];
      SurvivorsTwice(p, wide, live);
      SurvivorsSnoc(p, e, wide);
      SurvivorsSnoc(p, e, live);
      if e.id in wide {
        SurvivorsSnoc(Survivors(p, wide), e, live);
      } else {
        assert Survivors(es, wide) == Survivors(p, wide) && Survivors(es, live) == Survivors(p, live);
      }
    }
  }

  /** Two filters that agree on the ids present give the same result. */
  lemma {:induction false} SurvivorsAgree(es: seq<Entry>, a: set<nat>, b: set<nat>)
    requires forall i :: 0 <= i < |es| ==> (es[i].id in a <==> es[i].id in b)
    ensures Survivors(es, a) == Survivors(es, b)
  {
    if es != [] { SurvivorsAgree(es[..|es| - 1], a, b); }
  }

  /** Collecting never loses an entry of a document that is alive now and was alive at the fork. */
  lemma {:induction false} RemnantsKeepLive(enc: Encoding, bs: seq<Block>, wide: set<nat>, live: set<nat>)
    requires forall i :: 0 <= i < |Entries(enc, bs)| && Entries(enc, bs)[i].id in live ==> Entries(enc, bs)[i].id in wide
    ensures Survivors(Remnants(enc, bs, wide), live) == Survivors(Entries(enc, bs), live)
  {
    hide Survivors, Contents, Wide;
    if bs != [] {
      var p, b := bs[..|bs| - 1], bs[|bs| - 1];
      var es := Contents(enc, b);
      assert Entries(enc, bs) == Entries(enc, p) + es;
      forall i | 0 <= i < |Entries(enc, p)| ensures Entries(enc, p)[i] == Entries(enc, bs)[i] {}
      forall i | 0 <= i < |es| ensures es[i] == Entries(enc, bs)[|Entries(enc, p)| + i] {}
      RemnantsKeepLive(enc, p, wide, live);
      SurvivorsTwice(es, wide, live);
      SurvivorsConcat(Remnants(enc, p, wide), Remnant(enc, b, wide), live);
      SurvivorsConcat(Entries(enc, p), es, live);
    }
  }

  lemma {:induction false} DocCountSurvivors(enc: Encoding, es: seq<Entry>, live: set<nat>, i: nat)
    requires Chain(enc, es) && i <= |es|
    ensures DocCount(Survivors(es[..i], live)) + DeadDocs(es[..i], live) == DocCount(es[..i])
  {
    hide EntryOk, Follows, Survivors, DeadDocs, DocCount;
    if i == 0 {
      EmptyPrefix(es, live);
      DocCountNil();
    } else {
      var p, e := es[..i - 1], es[i - 1];
      DocCountSurvivors(enc, es, live, i - 1);
      Prefixes(es, i - 1, live);
      assert es[..i] == p + [e];
      DocCountSnoc(p, e);
      var s := Survivors(p, live);
      DocCountSnoc(s, e);
      if e.id in live {
        LastSurvivor(enc, es, live, i - 1);
      } else {
        assert Survivors(es[..i], live) == s;
      }
    }
  }

  lemma DocCountNil()
    ensures DocCount([]) == 0
  {
  }

  /** The last survivor before entry i is of the same document as entry i exactly when the entry before i is. */
  lemma LastSurvivor(enc: Encoding, es: seq<Entry>, live: set<nat>, i: nat)
    requires Chain(enc, es) && i < |es| && es[i].id in live
    ensures var s := Survivors(es[..i], live);
            (s != [] && s[|s| - 1].id == es[i].id) <==> !Starts(es, i)
  {
    hide EntryOk, Survivors;
    var s := Survivors(es[..i], live);
    SurvivorBounds(enc, es, i, live);
    if i == 0 {
      EmptyPrefix(es, live);
    } else {
      Prefixes(es, i - 1, live);
      Increasing(enc, es, i - 1, i);
    }
  }

  /** A collected block has lost exactly the documents that were counted dead, and lies within the old id range. */
  lemma OutFacts(enc: Encoding, b: Block, live: set<nat>)
    requires WellFormed(enc, b)
    ensures var out := OutBlocks(enc, b, live);
            var dead := if Verdict(enc, b, live).Kept? then 0 else DeadDocs(Contents(enc, b), live);
            && NumDocs(enc, out) + dead == DocCount(Contents(enc, b))
            && (Filled(enc, b) ==>
                  (Ordered(enc, out)
                   && forall i :: 0 <= i < |out| ==> b.firstId <= out[i].firstId && out[i].lastId <= b.lastId))
  {
    hide Parse, Survivors, DeadDocs, Chain, Encoded, DocCount;
    var es := Contents(enc, b);
    var s := Survivors(es, live);
    assert es[..|es|] == es;
    OneBlock(enc, b);
    match Verdict(enc, b, live)
    case Kept =>
    case Removed =>
      DocCountSurvivors(enc, es, live, |es|);
      DocCountNil();
    case Replaced(x) =>
      SurvivorsFit(enc, b, live);
      MakeRoundTrip(enc, s);
      DocCountSurvivors(enc, es, live, |es|);
      OneBlock(enc, x);
      SurvivorBounds(enc, es, |es|, live);
  }

  /** Documents the child finds dead in a list of blocks. */
  ghost function DeadIn(enc: Encoding, bs: seq<Block>, live: set<nat>): nat
    requires AllWf(enc, bs)
  {
    if bs == [] then 0
    else
      var n := |bs| - 1;
      DeadIn(enc, bs[..n], live)
      + if Verdict(enc, bs[n], live).Kept? then 0 else DeadDocs(Contents(enc, bs[n]), live)
  }

  lemma {:induction false} OutsNumDocs(enc: Encoding, bs: seq<Block>, live: set<nat>)
    requires AllWf(enc, bs)
    ensures NumDocs(enc, Outs(enc, bs, live)) + DeadIn(enc, bs, live) == NumDocs(enc, bs)
  {
    hide WellFormed, OutBlocks, Contents, Outs, Verdict, DocCount;
    if bs == [] {
      OutsNil(enc, live);
    } else {
      var n := |bs| - 1;
      OutsNumDocs(enc, bs[..n], live);
      OutsUnfold(enc, bs, live);
      OutFacts(enc, bs[n], live);
      EntriesConcat(enc, Outs(enc, bs[..n], live), OutBlocks(enc, bs[n], live));
    }
  }

  lemma OrderedConcat(enc: Encoding, a: seq<Block>, b: seq<Block>)
    requires Ordered(enc, a) && Ordered(enc, b)
    requires a != [] && b != [] ==> a[|a| - 1].lastId < b[0].firstId
    ensures Ordered(enc, a + b)
  {
    hide Filled;
  }

  lemma RangeOf(enc: Encoding, b: Block)
    requires Filled(enc, b)
    ensures b.firstId <= b.lastId
  {
    hide Filled, Contents, Chain, Make;
    FilledBlock(enc, b);
  }

  lemma OrderedFront(enc: Encoding, bs: seq<Block>)
    requires Ordered(enc, bs) && AllWf(enc, bs) && bs != []
    ensures var n := |bs| - 1;
            && Ordered(enc, bs[..n]) && AllWf(enc, bs[..n]) && Filled(enc, bs[n]) && WellFormed(enc, bs[n])
            && bs[n].firstId <= bs[n].lastId && (n > 0 ==> bs[n - 1].lastId < bs[n].firstId)
  {
    hide Filled, WellFormed;
    RangeOf(enc, bs[|bs| - 1]);
  }

  lemma OutInside(enc: Encoding, b: Block, live: set<nat>)
    requires Filled(enc, b)
    ensures var out := OutBlocks(enc, b, live);
            Ordered(enc, out) && (out != [] ==> b.firstId <= out[0].firstId && out[|out| - 1].lastId <= b.lastId)
  {
    hide Contents, OutBlocks, Ordered, DocCount, DeadDocs, Verdict;
    OutFacts(enc, b, live);
  }

  /** Collected blocks stay ordered, within the id range of the originals. */
  lemma {:induction false} OutsOrdered(enc: Encoding, bs: seq<Block>, live: set<nat>)
    requires Ordered(enc, bs) && AllWf(enc, bs)
    ensures var outs := Outs(enc, bs, live);
            Ordered(enc, outs) && (outs != [] ==> bs != [] && outs[|outs| - 1].lastId <= bs[|bs| - 1].lastId)
  {
    hide WellFormed, OutBlocks, Contents, Outs, Filled, Ordered;
    if bs == [] {
      OutsNil(enc, live);
    } else {
      var n := |bs| - 1;
      OrderedFront(enc, bs);
      var p, o := bs[..n], OutBlocks(enc, bs[n], live);
      OutsOrdered(enc, p, live);
      OutsUnfold(enc, bs, live);
      OutInside(enc, bs[n], live);
      OrderedConcat(enc, Outs(enc, p, live), o);
    }
  }
}
