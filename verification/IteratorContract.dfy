/** What every sorted document iterator promises about the ids it still has to deliver. */
module IteratorContract {

  datatype Status = Eof | Ok | NotFound

  ghost predicate IsLeast(s: set<nat>, x: nat) {
    x in s && forall y :: y in s ==> x <= y
  }

  lemma {:induction false} LeastOf(s: set<nat>) returns (x: nat)
    requires s != {}
    ensures IsLeast(s, x)
    decreases s
  {
    var y :| y in s;
    var rest := s - {y};
    assert forall z :: z in s <==> z == y || z in rest;
    x := y;
    if rest != {} {
      var z := LeastOf(rest);
      if z < y { x := z; }
    }
  }

  ghost function From(s: set<nat>, d: nat): (r: set<nat>)
    ensures forall x :: x in r <==> x in s && d <= x
  {
    set x | x in s && d <= x
  }

  /** Read delivers the least remaining id and keeps the larger ones, or reports the end. */
  ghost predicate ReadSpec(rem: set<nat>, rc: Status, id: nat, rem': set<nat>) {
    if rem == {} then rc == Eof && rem' == {}
    else rc == Ok && IsLeast(rem, id) && rem' == From(rem, id + 1)
  }

  /** SkipTo(d) does the same among the ids from d on, and says OK exactly when d itself was there. */
  ghost predicate SkipSpec(rem: set<nat>, d: nat, rc: Status, id: nat, rem': set<nat>) {
    if From(rem, d) == {} then rc == Eof && rem' == {}
    else
      && rc == (if id == d then Ok else NotFound)
      && IsLeast(From(rem, d), id) && rem' == From(rem, id + 1)
  }

  lemma EndOfRead()
    ensures forall id :: ReadSpec({}, Eof, id, {})
  {
  }

  lemma EndOfSkip(d: nat, rem: set<nat>)
    requires From(rem, d) == {} || rem == {}
    ensures forall id :: SkipSpec(rem, d, Eof, id, {})
  {
  }

  /** Seeking the least remaining id is reading it. */
  lemma SkipToLeast(rem: set<nat>, d: nat, rc: Status, id: nat, rem': set<nat>)
    requires IsLeast(rem, d) && SkipSpec(rem, d, rc, id, rem')
    ensures rc == Ok && id == d && ReadSpec(rem, rc, id, rem')
  {
    assert d in From(rem, d);
  }
}
