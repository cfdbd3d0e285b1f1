/** Index readers as leaves of an iterator tree: to the calls of a parent they answer like a list of their ids. */
module ReaderLeaf {
  import opened Bytes
  import opened RecordCodec
  import opened Blocks
  import opened Index
  import opened IteratorContract
  import opened IndexReader
  import ReaderRuns
  import opened IteratorRuns
  import Iterators

  /** A number that may lie behind any block of the raw layout: it leads no further than the block's last id. */
  ghost predicate Harmless(enc: Encoding, bs: seq<Block>, behind: nat) {
    enc.RawDocIds? ==> forall i :: 0 <= i < |bs| ==> bs[i].firstId + behind <= bs[i].lastId
  }

  lemma HarmlessIsClean(r: Reader, d: nat, behind: nat)
    requires r.Valid() && Harmless(r.idx.enc, r.idx.blocks, behind)
    ensures r.Clean(d, behind)
  {
    hide Home, WfBlocks, InBlock;
  }

  /** One call, with some number behind the block that a raw seek reads. */
  method Ask(r: Reader, last: nat, call: Call, behind: nat) returns (a: Answer)
    requires r.DocValid() && r.Ahead(last + 1)
    requires call.Skip? ==> r.Clean(last + 1 + call.ahead, behind)
    modifies r
    ensures r.DocValid()
    ensures a.rc == Eof ==> a.id == 0 && OneAnswer(old(r.Rem()), last, call, Eof, 0, {})
    ensures a.rc != Eof ==>
              && r.Ahead(a.id + 1) && r.Rem() == From(old(r.Rem()), a.id + 1)
              && OneAnswer(old(r.Rem()), last, call, a.rc, a.id, r.Rem())
  {
    hide InBlock, WfBlocks, Entries, Contents, Remaining, CleanFrom, Start;
    var rc;
    match call {
      case Read => rc := r.ReadDoc();
      case Skip(ahead) =>
        rc := r.SkipToDoc(last + 1 + ahead, behind);
    }
    a := Answer(rc, if rc == Eof then 0 else r.record.id);
  }

  /** Run a call sequence on a reader; what lies behind the blocks is anew arbitrary for every call. */
  method RunReader(r: Reader, last: nat, calls: seq<Call>, behind: seq<nat>) returns (log: seq<Answer>)
    requires r.DocValid() && r.Ahead(last + 1) && |behind| == |calls|
    requires forall i :: 0 <= i < |behind| ==> Harmless(r.idx.enc, r.idx.blocks, behind[i])
    modifies r
    ensures Answers(old(r.Rem()), last, calls, log)
    decreases |calls|
  {
    hide OneAnswer, From, Entries, InBlock, WfBlocks, Harmless;
    if calls == [] {
      return [];
    }
    if calls[0].Skip? { HarmlessIsClean(r, last + 1 + calls[0].ahead, behind[0]); }
    var a := Ask(r, last, calls[0], behind[0]);
    log := [a];
    if a.rc != Eof {
      var rest := RunReader(r, a.id, calls[1..], behind[1..]);
      log := log + rest;
      assert log[1..] == rest;
    }
  }

  /** A new reader and any iterator over the ids the reader would deliver get the same answers. */
  method LikeALeaf(idx: InvertedIndex, accept: Record -> bool, leaf: Iterators.Iter, calls: seq<Call>, behind: seq<nat>)
    returns (a: seq<Answer>, b: seq<Answer>)
    requires idx.Valid() && !idx.enc.Numeric? && leaf.AtStart()
    requires ReaderRuns.Seeks(idx.enc) ==> AllBelow(Entries(idx.enc, idx.blocks), TWO_32)
    requires idx.enc.RawDocIds? ==> accept(BLANK)
    requires |behind| == |calls| && forall i :: 0 <= i < |behind| ==> Harmless(idx.enc, idx.blocks, behind[i])
    requires leaf.Denotes() == Remaining(Entries(idx.enc, idx.blocks), 0, accept, 0)
    modifies leaf.Repr
    ensures a == b && Answers(leaf.Denotes(), 0, calls, a)
  {
    hide Iterators.Iter.Denotes, Answers, Iterators.Iter.Valid, InBlock, WfBlocks, Entries, Remaining, Contents, Harmless;
    ghost var d := leaf.Denotes();
    var r := new Reader(idx, accept, false);
    a := RunReader(r, 0, calls, behind);
    b := Run(leaf, calls);
    AnswersUnique(d, 0, calls, a, b);
  }
}
