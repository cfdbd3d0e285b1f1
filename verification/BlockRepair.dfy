/** Removing the entries of deleted documents from one block. */
module BlockRepair {
  import opened Bytes
  import opened RecordCodec
  import opened Blocks
  import Tape

  /** The entries whose document still exists, in order. */
  ghost function Survivors(es: seq<Entry>, live: set<nat>): (r: seq<Entry>)
    ensures |r| <= |es|
  {
    if es == [] then []
    else
      var n := |es| - 1;
      Survivors(es[..n], live) + if es[n].id in live then [es[n]] else []
  }

  /** Entry i is the first of its document. */
  predicate Starts(es: seq<Entry>, i: nat)
    requires i < |es|
  {
    i == 0 || es[i - 1].id != es[i].id
  }

  /** How many different deleted documents have entries here. */
  ghost function DeadDocs(es: seq<Entry>, live: set<nat>): nat {
    if es == [] then 0
    else
      var n := |es| - 1;
      DeadDocs(es[..n], live) + if es[n].id !in live && Starts(es, n) then 1 else 0
  }

  lemma Prefixes(es: seq<Entry>, i: nat, live: set<nat>)
    requires i < |es|
    ensures Survivors(es[..i + 1], live) == Survivors(es[..i], live) + if es[i].id in live then [es[i]] else []
    ensures DeadDocs(es[..i + 1], live)
            == DeadDocs(es[..i], live) + if es[i].id !in live && Starts(es, i) then 1 else 0
  {
    assert es[..i + 1][..i] == es[..i];
  }

  /** Survivors of a prefix lie between the first and the last id of the prefix, in order. */
  lemma {:induction false} SurvivorBounds(enc: Encoding, es: seq<Entry>, i: nat, live: set<nat>)
    requires Chain(enc, es) && i <= |es|
    ensures var s := Survivors(es[..i], live);
            s != [] ==> i > 0 && es[0].id <= s[0].id <= s[|s| - 1].id <= es[i - 1].id
  {
    hide EntryOk;
    if i > 0 {
      SurvivorBounds(enc, es, i - 1, live);
      Prefixes(es, i - 1, live);
      Increasing(enc, es, 0, i - 1);
      if i > 1 { Increasing(enc, es, i - 2, i - 1); }
    }
  }

  /** A list extended by a later entry is still a chain, and its buffer grows by that entry's bytes. */
  lemma ChainSnoc(enc: Encoding, es: seq<Entry>, e: Entry)
    requires Chain(enc, es) && EntryOk(enc, e)
    requires es != [] ==> Follows(enc, es + [e], |es|)
    ensures Chain(enc, es + [e])
    ensures Encoded(enc, es + [e]) == Encoded(enc, es) + Code(enc, es + [e], |es|)
  {
    hide EncodeRecord, EntryOk;
    var t := es + [e];
    forall i | 1 <= i < |t| ensures Follows(enc, t, i) {
      if i < |es| { assert Follows(enc, es, i); }
    }
    assert t[..|es|] == es;
    ChainPrefix(enc, t, |es|);
    assert Codes(enc, t) == Codes(enc, es) + [Code(enc, t, |es|)];
    Tape.FlatSnoc(Codes(enc, es), Code(enc, t, |es|));
  }

  /** The next survivor fits behind the earlier ones when the block's id span fits 32 bits. */
  lemma SurvivorFollows(enc: Encoding, es: seq<Entry>, i: nat, live: set<nat>)
    requires Chain(enc, es) && i < |es| && es[|es| - 1].id - es[0].id < TWO_32
    ensures var s := Survivors(es[..i], live); s != [] ==> Follows(enc, s + [es[i]], |s|)
  {
    hide EntryOk, EncodeRecord;
    var s := Survivors(es[..i], live);
    SurvivorBounds(enc, es, i, live);
    Increasing(enc, es, i, |es| - 1);
    if s != [] {
      Increasing(enc, es, i - 1, i);
    }
  }

  lemma {:induction false} SurvivorsChain(enc: Encoding, es: seq<Entry>, i: nat, live: set<nat>)
    requires Chain(enc, es) && i <= |es| && (es != [] ==> es[|es| - 1].id - es[0].id < TWO_32)
    ensures Chain(enc, Survivors(es[..i], live))
  {
    hide EntryOk, Follows;
    if i > 0 {
      SurvivorsChain(enc, es, i - 1, live);
      Prefixes(es, i - 1, live);
      if es[i - 1].id in live {
        assert EntryOk(enc, es[i - 1]);
        SurvivorFollows(enc, es, i - 1, live);
        ChainSnoc(enc, Survivors(es[..i - 1], live), es[i - 1]);
      } else {
        assert Survivors(es[..i], live) == Survivors(es[..i - 1], live);
      }
    }
  }

  lemma EmptyPrefix(es: seq<Entry>, live: set<nat>)
    ensures Survivors(es[..0], live) == [] && DeadDocs(es[..0], live) == 0
  {
  }

  /** Without a dead document everything survives; with one something is gone. */
  lemma {:induction false} NoneDead(es: seq<Entry>, i: nat, live: set<nat>)
    requires i <= |es|
    ensures DeadDocs(es[..i], live) == 0 <==> |Survivors(es[..i], live)| == i
    ensures DeadDocs(es[..i], live) == 0 ==> Survivors(es[..i], live) == es[..i]
    ensures DeadDocs(es[..i], live) == 0 && i > 0 ==> es[i - 1].id in live
  {
    hide Survivors, DeadDocs;
    if i == 0 {
      EmptyPrefix(es, live);
    } else {
      NoneDead(es, i - 1, live);
      Prefixes(es, i - 1, live);
      assert |Survivors(es[..i - 1], live)| <= |es[..i - 1]|;
      assert es[..i] == es[..i - 1] + [es[i - 1]];
    }
  }

  /** The bytes for the next survivor: copied when its predecessor survived, re-encoded otherwise. */
  lemma SurvivorCode(enc: Encoding, es: seq<Entry>, i: nat, live: set<nat>)
    requires Chain(enc, es) && i < |es| && es[|es| - 1].id - es[0].id < TWO_32 && es[i].id in live
    ensures var s := Survivors(es[..i], live);
            var t := Survivors(es[..i + 1], live);
            && t == s + [es[i]] && Chain(enc, s) && Chain(enc, t)
            && Encoded(enc, t) == Encoded(enc, s) + Code(enc, t, |s|)
            && (i > 0 && es[i - 1].id in live ==> s != [] && s[|s| - 1] == es[i - 1])
  {
    hide EncodeRecord, EntryOk, Follows;
    SurvivorsChain(enc, es, i, live);
    SurvivorsChain(enc, es, i + 1, live);
    Prefixes(es, i, live);
    SurvivorFollows(enc, es, i, live);
    ChainSnoc(enc, Survivors(es[..i], live), es[i]);
    if i > 0 { Prefixes(es, i - 1, live); }
  }

  /** A verbatim copy is right exactly because the gap to the predecessor is unchanged. */
  lemma CopiedCode(enc: Encoding, es: seq<Entry>, i: nat, s: seq<Entry>)
    requires Chain(enc, es) && 0 < i < |es| && !enc.RawDocIds?
    requires s != [] && s[|s| - 1] == es[i - 1] && Chain(enc, s + [es[i]])
    ensures Code(enc, s + [es[i]], |s|) == Code(enc, es, i)
  {
    hide EncodeRecord, EntryOk, Follows;
  }

  /** A block the collector may touch: everything it can re-encode fits 32 bits. */
  ghost predicate Narrow(es: seq<Entry>) {
    es != [] ==> es[|es| - 1].id - es[0].id < TWO_32
  }

  /** What the repair loop has established after i entries. */
  ghost predicate Progress(enc: Encoding, es: seq<Entry>, live: set<nat>, i: nat, first: nat, last: nat,
                           frags: nat, collected: nat, lastAlive: bool, w: seq<byte>)
    requires i <= |es|
  {
    var s := Survivors(es[..i], live);
    && frags == DeadDocs(es[..i], live)
    && collected == i - |s|
    && (if s == [] then first == 0 && last == 0 else first == s[0].id && last == s[|s| - 1].id)
    && lastAlive == (i > 0 && es[i - 1].id in live)
    && Chain(enc, s)
    && w == if frags == 0 then [] else Encoded(enc, s)
  }

  lemma ProgressStart(enc: Encoding, es: seq<Entry>, live: set<nat>)
    ensures Progress(enc, es, live, 0, 0, 0, 0, 0, false, [])
  {
    EmptyPrefix(es, live);
  }

  lemma ProgressEnd(enc: Encoding, es: seq<Entry>, live: set<nat>, first: nat, last: nat,
                    frags: nat, collected: nat, lastAlive: bool, w: seq<byte>)
    requires Progress(enc, es, live, |es|, first, last, frags, collected, lastAlive, w)
    ensures var s := Survivors(es, live);
            && frags == DeadDocs(es, live) && collected == |es| - |s| && (frags == 0 ==> s == es)
            && (if s == [] then first == 0 && last == 0 else first == s[0].id && last == s[|s| - 1].id)
            && (frags > 0 ==> Chain(enc, s) && w == Encoded(enc, s) && |s| < |es|)
  {
    hide Survivors, DeadDocs, EntryOk, Follows;
    NoneDead(es, |es|, live);
    assert es[..|es|] == es;
  }

  /** A dead entry is counted and not written; the first one moves everything before it to the new buffer. */
  lemma DeadStep(enc: Encoding, es: seq<Entry>, live: set<nat>, i: nat, first: nat, last: nat,
                 frags: nat, collected: nat, lastAlive: bool, w: seq<byte>)
    requires Chain(enc, es) && Narrow(es) && i < |es| && es[i].id !in live
    requires Progress(enc, es, live, i, first, last, frags, collected, lastAlive, w)
    ensures Offset(enc, es, i) <= |Encoded(enc, es)| && (frags > 0 || Starts(es, i))
    ensures Progress(enc, es, live, i + 1, first, last, frags + if Starts(es, i) then 1 else 0, collected + 1, false,
                     if frags == 0 then Encoded(enc, es)[..Offset(enc, es, i)] else w)
  {
    hide Survivors, DeadDocs, EncodeRecord, EntryOk, Follows;
    Prefixes(es, i, live);
    var s := Survivors(es[..i], live);
    assert Survivors(es[..i + 1], live) == s;
    NoneDead(es, i, live);
    NoneDead(es, i + 1, live);
    PrefixBytes(enc, es, i);
  }

  lemma PrefixBytes(enc: Encoding, es: seq<Entry>, i: nat)
    requires Chain(enc, es) && i <= |es|
    ensures Chain(enc, es[..i]) && Offset(enc, es, i) <= |Encoded(enc, es)|
    ensures Encoded(enc, es)[..Offset(enc, es, i)] == Encoded(enc, es[..i])
  {
    hide Code, EntryOk, Follows;
    var cs := Codes(enc, es);
    ChainPrefix(enc, es, i);
    Tape.FlatAppend(cs[..i], cs[i..]);
    assert cs == cs[..i] + cs[i..];
  }

  /** What the loop writes for a live entry once the buffer is being rewritten. */
  function Rewritten(enc: Encoding, first: nat, last: nat, lastAlive: bool, verbatim: seq<byte>, id: nat, rec: Record): seq<byte>
    requires ValidRecord(rec)
  {
    if enc.RawDocIds? then EncodeRecord(enc, (if first == 0 then 0 else id - first) % TWO_32, rec)
    else if lastAlive then verbatim
    else EncodeRecord(enc, (if last == 0 then 0 else id - last) % TWO_32, rec)
  }

  lemma RewrittenIsCode(enc: Encoding, s: seq<Entry>, e: Entry, lastAlive: bool, verbatim: seq<byte>)
    requires Chain(enc, s + [e]) && Chain(enc, s)
    requires lastAlive && !enc.RawDocIds? ==> verbatim == Code(enc, s + [e], |s|)
    ensures EntryOk(enc, e)
    ensures var first, last := if s == [] then 0 else s[0].id, if s == [] then 0 else s[|s| - 1].id;
            Rewritten(enc, first, last, lastAlive, verbatim, e.id, e.rec) == Code(enc, s + [e], |s|)
  {
    hide EncodeRecord;
    var t := s + [e];
    assert EntryOk(enc, t[|s|]);
    if s != [] {
      assert Follows(enc, t, |s|) && EntryOk(enc, s[0]) && EntryOk(enc, s[|s| - 1]);
    }
  }

  lemma AliveStep(enc: Encoding, es: seq<Entry>, live: set<nat>, i: nat, first: nat, last: nat,
                  frags: nat, collected: nat, lastAlive: bool, w: seq<byte>)
    requires Chain(enc, es) && Narrow(es) && i < |es| && es[i].id in live
    requires Progress(enc, es, live, i, first, last, frags, collected, lastAlive, w)
    ensures EntryOk(enc, es[i])
    ensures Progress(enc, es, live, i + 1, if first == 0 then es[i].id else first, es[i].id, frags, collected, true,
                     if frags == 0 then []
                     else w + Rewritten(enc, first, last, lastAlive, Code(enc, es, i), es[i].id, es[i].rec))
  {
    hide EncodeRecord, Survivors, DeadDocs, Rewritten, Encoded;
    var s := Survivors(es[..i], live);
    SurvivorCode(enc, es, i, live);
    if lastAlive && !enc.RawDocIds? { CopiedCode(enc, es, i, s); }
    RewrittenIsCode(enc, s, es[i], lastAlive, Code(enc, es, i));
    Prefixes(es, i, live);
    if s != [] { assert EntryOk(enc, s[0]); }
  }

  /** A block left without entries keeps its old last id as first id, so the block search still works. */
  function Emptied(b: Block): Block {
    Block(b.lastId, 0, 0, [])
  }

  /**
   * What repairing a block means: `frags` counts the removed documents and `collected` the removed
   * entries; an untouched block is returned as it was, and a touched one is exactly the block the
   * writer would have built for the survivors.
   */
  ghost predicate Repaired(enc: Encoding, blk: Block, live: set<nat>, out: Block, frags: nat, collected: nat) {
    var es := Contents(enc, blk);
    var s := Survivors(es, live);
    && frags == DeadDocs(es, live) && collected == |es| - |s|
    && (es == [] ==> out == Emptied(blk) && frags == 0)
    && (es != [] && frags == 0 ==> s == es && out == blk)
    && (frags > 0 && s == [] ==> out == Emptied(blk))
    && (frags > 0 && s != [] ==> Chain(enc, s) && out == Make(enc, s))
  }

  /** The block header and buffer the loop leaves behind. */
  function Finish(blk: Block, first: nat, last: nat, frags: nat, collected: nat, w: seq<byte>): Block
    requires collected <= blk.numEntries
  {
    var out := if frags > 0 then Block(first, last, blk.numEntries - collected, w)
               else Block(first, last, blk.numEntries, blk.data);
    if out.numEntries == 0 then out.(firstId := blk.lastId) else out
  }

  lemma FinishIsRepaired(enc: Encoding, blk: Block, live: set<nat>, first: nat, last: nat,
                         frags: nat, collected: nat, lastAlive: bool, w: seq<byte>)
    requires WellFormed(enc, blk)
    requires Progress(enc, Contents(enc, blk), live, |Contents(enc, blk)|, first, last, frags, collected, lastAlive, w)
    ensures collected <= blk.numEntries
    ensures Repaired(enc, blk, live, Finish(blk, first, last, frags, collected, w), frags, collected)
  {
    hide Survivors, DeadDocs, Parse, EntryOk, Follows, Progress;
    var es := Contents(enc, blk);
    ProgressEnd(enc, es, live, first, last, frags, collected, lastAlive, w);
    if es == [] { EmptyPrefix(es, live); }
  }

  /** Rewrite a block without the entries of deleted documents. */
  method Repair(enc: Encoding, blk: Block, live: set<nat>)
    returns (out: Block, frags: nat, collected: nat)
    requires WellFormed(enc, blk) && Narrow(Contents(enc, blk))
    ensures Repaired(enc, blk, live, out, frags, collected)
  {
    hide DecodeRecord, EncodeRecord, Parse, Survivors, DeadDocs, Progress, Rewritten, Code, Codes, NextId, Encoded,
      Follows, Repaired, Finish, Offset, Chain, Narrow;
    ghost var es := Contents(enc, blk);
    var firstReadId, lastReadId, isFirstRes := blk.firstId, blk.firstId, true;
    var first: nat, last: nat, w: seq<byte> := 0, 0, [];
    var lastAlive, docExists := false, false;
    frags, collected := 0, 0;
    var pos: nat := 0;
    ghost var i: nat := 0;
    ProgressStart(enc, es, live);
    OffsetEnd(enc, es);
    while pos < |blk.data|
      invariant i <= |es| && blk.data == Encoded(enc, es) && pos == Offset(enc, es, i) <= |blk.data|
      invariant isFirstRes == (i == 0) && (es != [] ==> firstReadId == es[0].id && lastReadId == Before(es, i))
      invariant i > 0 ==> docExists == (es[i - 1].id in live)
      invariant Progress(enc, es, live, i, first, last, frags, collected, lastAlive, w)
      invariant frags == 0 ==> w == []
      decreases |es| - i
    {
      assert i < |es|;
      DecodeAt(enc, es, i);
      IdAt(enc, es, i);
      var d := DecodeRecord(enc, blk.data[pos..]);
      var delta := d.delta;
      // in old snapshots the first entry holds the id itself instead of a delta
      var id := if isFirstRes && delta != 0 then delta else NextId(enc, firstReadId, lastReadId, delta);
      assert id == es[i].id;
      var newDoc := isFirstRes || lastReadId != id;
      assert newDoc == Starts(es, i);
      isFirstRes, lastReadId := false, id;
      docExists := if newDoc then id in live else docExists;
      if !docExists {
        DeadStep(enc, es, live, i, first, last, frags, collected, lastAlive, w);
        if frags == 0 {
          w := blk.data[..pos];
        }
        frags, collected, lastAlive := frags + (if newDoc then 1 else 0), collected + 1, false;
      } else {
        AliveStep(enc, es, live, i, first, last, frags, collected, lastAlive, w);
        if frags > 0 {
          w := w + Rewritten(enc, first, last, lastAlive, blk.data[pos..pos + d.used], id, d.rec);
        }
        first, last, lastAlive := if first == 0 then id else first, id, true;
      }
      pos := pos + d.used;
      i := i + 1;
    }
    OffsetEnd(enc, es);
    assert i == |es| by { if i < |es| { DecodeAt(enc, es, i); } }
    FinishIsRepaired(enc, blk, live, first, last, frags, collected, lastAlive, w);
    out := Finish(blk, first, last, frags, collected, w);
  }
}
