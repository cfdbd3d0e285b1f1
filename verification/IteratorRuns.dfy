/** Whole call sequences on iterator trees, against a cursor over the set the tree stands for. */
module IteratorRuns {
  import opened IteratorContract
  import opened Iterators

  /** A seek goes a distance beyond the id delivered last. */
  datatype Call = Read | Skip(ahead: nat)

  datatype Answer = Answer(rc: Status, id: nat)

  ghost predicate OneAnswer(rem: set<nat>, last: nat, call: Call, rc: Status, id: nat, rem': set<nat>) {
    match call
    case Read => ReadSpec(rem, rc, id, rem')
    case Skip(ahead) => SkipSpec(rem, last + 1 + ahead, rc, id, rem')
  }

  /** The reference: what a cursor over rem answers, call by call, until it reports the end. */
  ghost predicate Answers(rem: set<nat>, last: nat, calls: seq<Call>, log: seq<Answer>)
    decreases |calls|
  {
    if calls == [] then log == []
    else if log == [] then false
    else
      var rc, id := log[0].rc, log[0].id;
      if rc == Eof then log == [Answer(Eof, 0)] && OneAnswer(rem, last, calls[0], Eof, 0, {})
      else OneAnswer(rem, last, calls[0], rc, id, From(rem, id + 1)) && Answers(From(rem, id + 1), id, calls[1..], log[1..])
  }

  /** A call has one right answer. */
  lemma OneAnswerUnique(rem: set<nat>, last: nat, call: Call, a: Status, x: nat, r: set<nat>, b: Status, y: nat, s: set<nat>)
    requires OneAnswer(rem, last, call, a, x, r) && OneAnswer(rem, last, call, b, y, s)
    ensures a == b && (a != Eof ==> x == y)
  {
  }

  /** So two iterators over the same set answer alike, whatever they are made of. */
  lemma {:induction false} AnswersUnique(rem: set<nat>, last: nat, calls: seq<Call>, a: seq<Answer>, b: seq<Answer>)
    requires Answers(rem, last, calls, a) && Answers(rem, last, calls, b)
    ensures a == b
    decreases |calls|
  {
    hide OneAnswer, From;
    if calls != [] {
      var x, y := a[0], b[0];
      OneAnswerUnique(rem, last, calls[0], x.rc, x.id, if x.rc == Eof then {} else From(rem, x.id + 1),
                      y.rc, y.id, if y.rc == Eof then {} else From(rem, y.id + 1));
      if x.rc != Eof {
        AnswersUnique(From(rem, x.id + 1), x.id, calls[1..], a[1..], b[1..]);
        assert a == [x] + a[1..] && b == [y] + b[1..];
      }
    }
  }

  /** Delivered ids are members, and strictly increase. */
  lemma {:induction false} AnswersRise(rem: set<nat>, last: nat, calls: seq<Call>, log: seq<Answer>, i: nat)
    requires Answers(rem, last, calls, log) && i < |log| && log[i].rc != Eof && forall x :: x in rem ==> last < x
    ensures log[i].id in rem && last < log[i].id && (i > 0 ==> log[i - 1].rc != Eof && log[i - 1].id < log[i].id)
    decreases |calls|
  {
    if i > 0 {
      var id := log[0].id;
      AnswersRise(From(rem, id + 1), id, calls[1..], log[1..], i - 1);
    }
  }

  /** Reading to the end delivers every id of the set. */
  lemma {:induction false} NothingSkipped(rem: set<nat>, last: nat, calls: seq<Call>, log: seq<Answer>, x: nat)
    requires Answers(rem, last, calls, log) && (forall i :: 0 <= i < |calls| ==> calls[i] == Call.Read)
    requires log != [] && log[|log| - 1].rc == Eof && x in rem
    ensures Answer(Ok, x) in log
    decreases |calls|
  {
    var id := log[0].id;
    assert log[0].rc == Ok;
    if x != id {
      assert x in From(rem, id + 1);
      assert log[1..] != [] && log[1..][|log| - 2] == log[|log| - 1];
      NothingSkipped(From(rem, id + 1), id, calls[1..], log[1..], x);
    }
  }

  method Make(it: Iter, call: Call) returns (a: Answer)
    requires it.Valid() && !it.ended
    modifies it.Repr
    ensures it.Valid() && it.ended == (a.rc == Eof)
    ensures a.rc == Eof ==> a.id == 0 && OneAnswer(old(it.rem), old(it.currentId), call, Eof, 0, {})
    ensures a.rc != Eof ==>
              && a.id == it.currentId && it.rem == From(old(it.rem), a.id + 1)
              && OneAnswer(old(it.rem), old(it.currentId), call, a.rc, a.id, it.rem)
  {
    hide Iter.Valid;
    var rc;
    match call {
      case Read => rc := it.Read();
      case Skip(ahead) => rc := it.SkipTo(it.currentId + 1 + ahead);
    }
    a := Answer(rc, if rc == Eof then 0 else it.currentId);
  }

  /** Run a call sequence; the caller stops when the end is reported. */
  method Run(it: Iter, calls: seq<Call>) returns (log: seq<Answer>)
    requires it.Valid() && !it.ended
    modifies it.Repr
    ensures it.Shape() && Answers(old(it.rem), old(it.currentId), calls, log)
    decreases |calls|
  {
    hide Iter.KidsValid, Iter.Tied, OneAnswer, From, Iter.Shape;
    if calls == [] {
      return [];
    }
    var a := Make(it, calls[0]);
    log := [a];
    if a.rc != Eof {
      var rest := Run(it, calls[1..]);
      log := log + rest;
      assert log[1..] == rest;
    }
  }

  /** The heap form refines the flat form: over the same ids, the same calls get the same answers. */
  method RunBoth(flat: Iter, heap: Iter, calls: seq<Call>) returns (a: seq<Answer>, b: seq<Answer>)
    requires flat.AtStart() && heap.AtStart() && flat.Repr !! heap.Repr
    requires flat.kind.Union? && heap.kind.HeapUnion? && flat.Denotes() == heap.Denotes()
    modifies flat.Repr, heap.Repr
    ensures a == b && Answers(flat.Denotes(), 0, calls, a)
  {
    hide Iter.Denotes, Answers, Iter.Valid;
    ghost var d := flat.Denotes();
    a := Run(flat, calls);
    b := Run(heap, calls);
    AnswersUnique(d, 0, calls, a, b);
  }
}
