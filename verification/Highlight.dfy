/** Splitting a document into fragments around its matches, and writing it out with tags around them. */
module Highlight {
  import opened Bytes

  const TWO_16: nat := 0x1_0000

  /** A match relative to its fragment; lengths and term numbers are kept in 16 bits. */
  datatype TermLoc = TermLoc(offset: nat, len: nat, termId: nat)

  datatype Fragment = Fragment(start: nat, len: nat, lastMatchPos: nat, totalTokens: nat, numMatches: nat,
                               score: real, locs: seq<TermLoc>)

  /** A term occurrence: its token and byte position, and its length if that is known exactly. */
  datatype FragmentTerm = FragmentTerm(tokPos: nat, bytePos: nat, termId: nat, len: nat, score: real)

  /** A match in the document. */
  datatype Loc = Loc(start: nat, len: nat)

  /** A piece of output: document text, or an inserted tag. */
  datatype Piece = Text(s: string) | OpenTag(s: string) | CloseTag(s: string)

  ghost function FragLocs(f: Fragment): (ls: seq<Loc>)
    ensures |ls| == |f.locs| && forall i :: 0 <= i < |ls| ==> ls[i] == Loc(f.start + f.locs[i].offset, f.locs[i].len)
  {
    seq(|f.locs|, i requires 0 <= i < |f.locs| => Loc(f.start + f.locs[i].offset, f.locs[i].len))
  }

  /** The matches of all fragments, in the document. */
  ghost function Locs(fs: seq<Fragment>): seq<Loc> {
    if fs == [] then [] else Locs(fs[..|fs| - 1]) + FragLocs(fs[|fs| - 1])
  }

  /** Matches are in order, do not overlap, start at from or later, and end by end. */
  ghost predicate Disjoint(ls: seq<Loc>, from: nat, end: nat) {
    && (forall i :: 0 <= i < |ls| ==> from <= ls[i].start && ls[i].start + ls[i].len <= end)
    && (forall i :: 1 <= i < |ls| ==> ls[i - 1].start + ls[i - 1].len <= ls[i].start)
  }

  /** A fragment starts at its first match. */
  ghost predicate WfFragment(f: Fragment) {
    f.locs != [] && f.locs[0].offset == 0 && f.numMatches == |f.locs|
  }

  /** The unsigned 32-bit distance between two token positions. */
  function Distance(a: nat, b: nat): nat {
    (a - b) % TWO_32
  }

  lemma LocsSnoc(fs: seq<Fragment>, f: Fragment)
    ensures Locs(fs + [f]) == Locs(fs) + FragLocs(f)
  {
    assert (fs + [f])[..|fs|] == fs;
  }

  lemma FragLocsSnoc(f: Fragment, f': Fragment, l: TermLoc)
    requires f'.start == f.start && f'.locs == f.locs + [l]
    ensures FragLocs(f') == FragLocs(f) + [Loc(f.start + l.offset, l.len)]
  {
  }

  lemma DisjointSnoc(ls: seq<Loc>, from: nat, end: nat, l: Loc, end': nat)
    requires Disjoint(ls, from, end) && end <= l.start && from <= l.start && l.start + l.len <= end'
    ensures Disjoint(ls + [l], from, end')
  {
  }

  class FragmentList {
    const doc: string
    const maxDistance: nat
    var frags: seq<Fragment>
    var numToksSinceLastMatch: nat

    ghost predicate Valid(end: nat)
      reads this
    {
      && (forall i :: 0 <= i < |frags| ==> WfFragment(frags[i]))
      && Disjoint(Locs(frags), 0, end)
    }

    constructor (doc: string, maxDistance: nat)
      ensures Valid(0) && frags == [] && this.doc == doc
    {
      this.doc, this.maxDistance := doc, maxDistance;
      frags, numToksSinceLastMatch := [], 0;
    }

    /** Has the fragment this term already? */
    static method HasTerm(f: Fragment, termId: nat) returns (found: bool)
      ensures found <==> exists i :: 0 <= i < |f.locs| && f.locs[i].termId == termId
    {
      for i := 0 to |f.locs|
        invariant forall j :: 0 <= j < i ==> f.locs[j].termId != termId
      {
        if f.locs[i].termId == termId {
          return true;
        }
      }
      return false;
    }

    /** Extend the last fragment by a match, or begin a new fragment if the match is too far away. */
    method AddMatchingTerm(termId: nat, tokPos: nat, at: nat, len: nat, baseScore: real, ghost end: nat)
      requires Valid(end) && end <= at
      modifies this
      ensures Valid(at + len) && Locs(frags) == old(Locs(frags)) + [Loc(at, len % TWO_16)]
      ensures numToksSinceLastMatch == 0 && frags != []
      ensures var near := old(frags) != [] && Distance(tokPos, old(frags)[|old(frags)| - 1].lastMatchPos) <= maxDistance;
              var f := frags[|frags| - 1];
              && |frags| == |old(frags)| + (if near then 0 else 1)
              && (forall i :: 0 <= i < |frags| - 1 ==> frags[i] == old(frags)[i])
              && f.lastMatchPos == tokPos && f.start + f.len == at + len
              && (near ==> f.start == old(frags)[|frags| - 1].start)
              && f.totalTokens == 1 + if near then old(frags)[|frags| - 1].totalTokens + old(numToksSinceLastMatch) else 0
    {
      hide Distance, Disjoint, Locs;
      var n := |frags|;
      var cur, front := Fragment(at, 0, 0, 0, 0, 0.0, []), frags;
      if n > 0 && Distance(tokPos, frags[n - 1].lastMatchPos) <= maxDistance {
        LastStart(frags, end);
        cur, front := frags[n - 1], frags[..n - 1];
        assert front + [cur] == frags;
      } else {
        numToksSinceLastMatch := 0;
        LocsSnoc(frags, cur);
        assert Locs(frags) + [] == Locs(frags);
      }
      var has := HasTerm(cur, termId);
      var loc := TermLoc(at - cur.start, len % TWO_16, termId % TWO_16);
      var f := Fragment(cur.start, at - cur.start + len, tokPos, cur.totalTokens + numToksSinceLastMatch + 1,
                        cur.numMatches + 1, if has then cur.score else cur.score + baseScore, cur.locs + [loc]);
      Extended(front, cur, f, loc, end, at + len);
      frags := front + [f];
      numToksSinceLastMatch := 0;
    }

    /** How far the token at a byte position goes: to the next separator or the end. */
    method TokenLen(isSep: char -> bool, at: nat) returns (len: nat)
      requires at <= |doc|
      ensures at + len <= |doc| && (at + len == |doc| || isSep(doc[at + len]))
      ensures forall i :: at <= i < at + len ==> !isSep(doc[i])
    {
      len := 0;
      while at + len < |doc| && !isSep(doc[at + len])
        invariant at + len <= |doc| && forall i :: at <= i < at + len ==> !isSep(doc[i])
      {
        len := len + 1;
      }
    }

    /** Build the fragments from a stream of tokens, where nothing stands for one that does not match. */
    method FragmentizeIter(terms: seq<Option<FragmentTerm>>, exact: bool, isSep: char -> bool)
      requires frags == [] && forall i :: 0 <= i < |terms| && terms[i].Some? ==> InDoc(doc, terms[i].value, exact)
      modifies this
      ensures Valid(|doc|) && FromTerms(Locs(frags), terms, |terms|)
    {
      hide Disjoint, InDoc, FromTerms, Locs;
      var lastTokPos: Option<nat>, lastByteEnd: nat := None, 0;
      NoLocs();
      assert FromTerms([], terms, 0) by { FromNone(terms); }
      for i := 0 to |terms|
        invariant Valid(lastByteEnd) && lastByteEnd <= |doc| && FromTerms(Locs(frags), terms, i)
      {
        FromMore(Locs(frags), terms, i);
        if terms[i].None? {
          numToksSinceLastMatch := numToksSinceLastMatch + 1;
          continue;
        }
        var t := terms[i].value;
        if Some(t.tokPos) == lastTokPos || t.bytePos < lastByteEnd {
          continue;
        }
        TermInDoc(doc, t, exact);
        var len := t.len;
        if !exact {
          len := TokenLen(isSep, t.bytePos);
        }
        FromOne(Locs(frags), terms, i, len % TWO_16);
        AddMatchingTerm(t.termId, t.tokPos, t.bytePos, len, t.score, lastByteEnd);
        lastTokPos, lastByteEnd := Some(t.tokPos), t.bytePos + len;
      }
      Later(Locs(frags), lastByteEnd, |doc|);
    }

    /** Write one fragment: the text before each match, the match between the tags. */
    method WriteFragment(f: Fragment, open: string, close: string, ps: seq<Piece>, preamble: nat) returns (ps': seq<Piece>, next: nat)
      requires Disjoint(FragLocs(f), preamble, |doc|) && preamble <= |doc|
      ensures ps' == ps + Render(doc, FragLocs(f), preamble, open, close)
      ensures next == EndOf(FragLocs(f), preamble) && preamble <= next <= |doc|
    {
      hide Render, Around, Add, Disjoint, EndOf, FragLocs;
      ps', next := ps, preamble;
      ghost var ls := FragLocs(f);
      RenderNone(doc, ls, preamble, open, close);
      for i := 0 to |f.locs|
        invariant preamble <= next <= |doc| && next == EndOf(ls[..i], preamble) && Disjoint(ls[..i], preamble, |doc|)
        invariant ps' == ps + Render(doc, ls[..i], preamble, open, close)
      {
        var loc := f.locs[i];
        var at := f.start + loc.offset;
        LocAt(ls, i, preamble, |doc|);
        ghost var was := ps';
        ps' := Add(ps', Text(doc[next..at]));
        ps' := Add(ps', OpenTag(open));
        ps' := Add(ps', Text(doc[at..at + loc.len]));
        ps' := Add(ps', CloseTag(close));
        next := at + loc.len;
        RenderStep(doc, ls, i, preamble, open, close);
        AddAll(was, doc, ls[i], EndOf(ls[..i], preamble), open, close);
        Assoc(ps, Render(doc, ls[..i], preamble, open, close), Around(doc, ls[i], EndOf(ls[..i], preamble), open, close));
      }
      assert ls[..|ls|] == ls;
    }

    /** Write the whole document with its matches between the tags. */
    method HighlightWholeDoc(open: string, close: string) returns (ps: seq<Piece>)
      requires Valid(|doc|)
      ensures var ls := Locs(frags);
              && EndOf(ls, 0) <= |doc|
              && ps == Add(Render(doc, ls, 0, open, close), Text(doc[EndOf(ls, 0)..]))
      ensures Erase(ps) == doc
    {
      hide Render, Disjoint, EndOf, Locs, Add, Erase;
      HighlightErases(doc, Locs(frags), open, close);
      ps := [];
      RenderNone(doc, Locs(frags), 0, open, close);
      if |frags| == 0 {
        NoLocs();
        assert Locs(frags)[..0] == [] && doc[0..] == doc;
        ps := Add(ps, Text(doc));
        return;
      }
      var preamble: nat := 0;
      assert Locs(frags[..0]) == Locs(frags)[..0] by { NoLocs(); assert frags[..0] == []; }
      for i := 0 to |frags|
        invariant preamble <= |doc| && preamble == EndOf(Locs(frags[..i]), 0) && Disjoint(Locs(frags[..i]), 0, |doc|)
        invariant ps == Render(doc, Locs(frags[..i]), 0, open, close)
      {
        FragmentStep(doc, frags, i, open, close);
        ps, preamble := WriteFragment(frags[i], open, close, ps, preamble);
      }
      assert frags[..|frags|] == frags;
      ps := Add(ps, Text(doc[preamble..]));
    }
  }

  /** Rendering one more fragment. */
  lemma FragmentStep(doc: string, fs: seq<Fragment>, i: nat, open: string, close: string)
    requires i < |fs| && Disjoint(Locs(fs), 0, |doc|)
    ensures var a, b := Locs(fs[..i]), FragLocs(fs[i]);
            && Locs(fs[..i + 1]) == a + b && Disjoint(a, 0, |doc|) && Disjoint(a + b, 0, |doc|) && EndOf(a, 0) <= |doc|
            && Disjoint(b, EndOf(a, 0), |doc|) && EndOf(a + b, 0) == EndOf(b, EndOf(a, 0))
            && Render(doc, a + b, 0, open, close) == Render(doc, a, 0, open, close) + Render(doc, b, EndOf(a, 0), open, close)
  {
    hide Render, FragLocs;
    var a, b := Locs(fs[..i]), FragLocs(fs[i]);
    assert fs[..i + 1][..i] == fs[..i];
    LocsPrefix(fs, i + 1);
    assert Disjoint(a + b, 0, |doc|);
    SplitDisjoint(a, b, |doc|);
    RenderConcat(doc, a, b, open, close);
  }

  lemma {:induction false} LocsPrefix(fs: seq<Fragment>, i: nat)
    requires i <= |fs|
    ensures Locs(fs[..i]) <= Locs(fs)
  {
    if i == |fs| {
      assert fs[..i] == fs;
    } else {
      LocsPrefix(fs[..|fs| - 1], i);
      assert fs[..|fs| - 1][..i] == fs[..i];
    }
  }

  lemma PrefixDisjoint(a: seq<Loc>, b: seq<Loc>, end: nat)
    requires Disjoint(a + b, 0, end)
    ensures Disjoint(a, 0, end) && EndOf(a, 0) <= end
  {
    var ls := a + b;
    forall i | 0 <= i < |a| ensures a[i] == ls[i] { }
  }

  lemma SuffixDisjoint(a: seq<Loc>, b: seq<Loc>, end: nat)
    requires Disjoint(a + b, 0, end)
    ensures Disjoint(b, EndOf(a, 0), end)
  {
    var ls := a + b;
    forall i | 0 <= i < |b| ensures b[i] == ls[|a| + i] { }
    if a != [] {
      assert ls[|a| - 1] == a[|a| - 1];
      forall i | 0 <= i < |b| ensures EndOf(a, 0) <= b[i].start { InOrder(ls, |a| - 1, |a| + i, end); }
    }
  }

  lemma SplitDisjoint(a: seq<Loc>, b: seq<Loc>, end: nat)
    requires Disjoint(a + b, 0, end)
    ensures Disjoint(a, 0, end) && Disjoint(b, EndOf(a, 0), end) && EndOf(a, 0) <= end
    ensures EndOf(a + b, 0) == EndOf(b, EndOf(a, 0))
  {
    PrefixDisjoint(a, b, end);
    SuffixDisjoint(a, b, end);
    hide Disjoint;
    if b == [] { assert a + b == a; }
  }

  lemma {:induction false} InOrder(ls: seq<Loc>, i: nat, j: nat, end: nat)
    requires Disjoint(ls, 0, end) && i < j < |ls|
    ensures ls[i].start + ls[i].len <= ls[j].start
  {
    if i + 1 < j { InOrder(ls, i, j - 1, end); }
  }

  lemma Fronts(a: seq<Loc>, b: seq<Loc>)
    requires b != []
    ensures var n, ls := |b| - 1, a + b;
            ls[..|a| + n] == a + b[..n] && ls[..|a| + n + 1] == ls && b[..n + 1] == b && ls[|a| + n] == b[n]
  {
  }

  lemma {:induction false} RenderConcat(doc: string, a: seq<Loc>, b: seq<Loc>, open: string, close: string)
    requires Disjoint(a, 0, |doc|) && EndOf(a, 0) <= |doc| && Disjoint(b, EndOf(a, 0), |doc|) && Disjoint(a + b, 0, |doc|)
    ensures Render(doc, a + b, 0, open, close) == Render(doc, a, 0, open, close) + Render(doc, b, EndOf(a, 0), open, close)
  {
    if b == [] {
      hide Disjoint, Around;
      assert a + b == a;
    } else {
      hide Around, Render, Disjoint, EndOf;
      var n, from := |b| - 1, EndOf(a, 0);
      var b0, ls := b[..n], a + b;
      Fronts(a, b);
      RenderStep(doc, ls, |a| + n, 0, open, close);
      RenderStep(doc, b, n, from, open, close);
      RenderConcat(doc, a, b0, open, close);
      SplitDisjoint(a, b0, |doc|);
      Assoc(Render(doc, a, 0, open, close), Render(doc, b0, from, open, close), Around(doc, b[n], EndOf(b0, from), open, close));
    }
  }

  /** The output without the inserted tags. */
  ghost function Erase(ps: seq<Piece>): string {
    if ps == [] then "" else Erase(ps[..|ps| - 1]) + if ps[|ps| - 1].Text? then ps[|ps| - 1].s else ""
  }

  lemma EraseAdd(ps: seq<Piece>, p: Piece)
    ensures Erase(Add(ps, p)) == Erase(ps) + if p.Text? then p.s else ""
  {
    if p.s != "" { assert (ps + [p])[..|ps|] == ps; }
  }

  lemma {:induction false} EraseRender(doc: string, ls: seq<Loc>, from: nat, open: string, close: string)
    requires Disjoint(ls, from, |doc|) && from <= |doc|
    ensures from <= EndOf(ls, from) <= |doc| && Erase(Render(doc, ls, from, open, close)) == doc[from..EndOf(ls, from)]
  {
    if ls == [] {
      hide Add;
    } else {
      hide Around, Add, Erase, Disjoint, Render, EndOf;
      var n := |ls| - 1;
      LocAt(ls, n, from, |doc|);
      assert ls[..n + 1] == ls;
      var p, l := EndOf(ls[..n], from), ls[n];
      EraseRender(doc, ls[..n], from, open, close);
      RenderStep(doc, ls, n, from, open, close);
      EraseAround(doc, Render(doc, ls[..n], from, open, close), l, p, open, close);
      Slices(doc, from, p, l.start, l.start + l.len);
    }
  }

  lemma Slices(doc: string, a: nat, b: nat, c: nat, d: nat)
    requires a <= b <= c <= d <= |doc|
    ensures doc[a..b] + doc[b..c] + doc[c..d] == doc[a..d]
  {
  }

  lemma EraseAround(doc: string, ps: seq<Piece>, l: Loc, from: nat, open: string, close: string)
    requires from <= l.start && l.start + l.len <= |doc|
    ensures Erase(ps + Around(doc, l, from, open, close)) == Erase(ps) + doc[from..l.start] + doc[l.start..l.start + l.len]
  {
    hide Erase, Add, Around;
    AddAll(ps, doc, l, from, open, close);
    var a := Add(ps, Text(doc[from..l.start]));
    var b := Add(a, OpenTag(open));
    var c := Add(b, Text(doc[l.start..l.start + l.len]));
    EraseAdd(ps, Text(doc[from..l.start]));
    EraseAdd(a, OpenTag(open));
    EraseAdd(b, Text(doc[l.start..l.start + l.len]));
    EraseAdd(c, CloseTag(close));
  }

  /** Taking the tags out of the highlighted document gives back the document. */
  lemma HighlightErases(doc: string, ls: seq<Loc>, open: string, close: string)
    requires Disjoint(ls, 0, |doc|)
    ensures EndOf(ls, 0) <= |doc|
    ensures Erase(Add(Render(doc, ls, 0, open, close), Text(doc[EndOf(ls, 0)..]))) == doc
  {
    hide Erase, Add, Render;
    EraseRender(doc, ls, 0, open, close);
    EraseAdd(Render(doc, ls, 0, open, close), Text(doc[EndOf(ls, 0)..]));
    assert doc[0..EndOf(ls, 0)] + doc[EndOf(ls, 0)..] == doc;
  }

  /** A term of the stream, and its token if the length is given, is inside the document. */
  ghost predicate InDoc(doc: string, t: FragmentTerm, exact: bool) {
    t.bytePos + (if exact then t.len else 0) <= |doc|
  }

  lemma TermInDoc(doc: string, t: FragmentTerm, exact: bool)
    requires InDoc(doc, t, exact)
    ensures t.bytePos <= |doc| && (exact ==> t.bytePos + t.len <= |doc|)
  {
  }

  /** One of the first n terms is at this byte position. */
  ghost predicate HasTermAt(terms: seq<Option<FragmentTerm>>, n: nat, at: nat) {
    exists k :: 0 <= k < n && k < |terms| && terms[k].Some? && terms[k].value.bytePos == at
  }

  /** Every match is at the byte position of one of the first n terms. */
  ghost predicate FromTerms(ls: seq<Loc>, terms: seq<Option<FragmentTerm>>, n: nat) {
    forall i :: 0 <= i < |ls| ==> HasTermAt(terms, n, ls[i].start)
  }

  lemma FromNone(terms: seq<Option<FragmentTerm>>)
    ensures FromTerms([], terms, 0)
  {
  }

  lemma MoreTerms(terms: seq<Option<FragmentTerm>>, n: nat, at: nat)
    requires HasTermAt(terms, n, at)
    ensures HasTermAt(terms, n + 1, at)
  {
  }

  lemma FromMore(ls: seq<Loc>, terms: seq<Option<FragmentTerm>>, n: nat)
    requires FromTerms(ls, terms, n)
    ensures FromTerms(ls, terms, n + 1)
  {
    hide HasTermAt;
    forall i | 0 <= i < |ls| ensures HasTermAt(terms, n + 1, ls[i].start) { MoreTerms(terms, n, ls[i].start); }
  }

  lemma FromOne(ls: seq<Loc>, terms: seq<Option<FragmentTerm>>, n: nat, len: nat)
    requires FromTerms(ls, terms, n + 1) && n < |terms| && terms[n].Some?
    ensures FromTerms(ls + [Loc(terms[n].value.bytePos, len)], terms, n + 1)
  {
    assert HasTermAt(terms, n + 1, terms[n].value.bytePos);
  }

  lemma NoLocs()
    ensures Disjoint(Locs([]), 0, 0) && Locs([]) == []
  {
  }

  lemma Later(ls: seq<Loc>, end: nat, end': nat)
    requires Disjoint(ls, 0, end) && end <= end'
    ensures Disjoint(ls, 0, end')
  {
  }

  /** Empty pieces are not written. */
  function Add(ps: seq<Piece>, p: Piece): seq<Piece> {
    if p.s == "" then ps else ps + [p]
  }

  /** Where the text after the matches goes on. */
  function EndOf(ls: seq<Loc>, from: nat): nat {
    if ls == [] then from else ls[|ls| - 1].start + ls[|ls| - 1].len
  }

  /** The text before a match, and the match between the tags. */
  function Around(doc: string, l: Loc, from: nat, open: string, close: string): seq<Piece>
    requires from <= l.start && l.start + l.len <= |doc|
  {
    Add(Add(Add(Add([], Text(doc[from..l.start])), OpenTag(open)), Text(doc[l.start..l.start + l.len])), CloseTag(close))
  }

  /** The document up to the last match, with every match between the tags. */
  ghost function Render(doc: string, ls: seq<Loc>, from: nat, open: string, close: string): seq<Piece>
    requires Disjoint(ls, from, |doc|) && from <= |doc|
  {
    if ls == [] then []
    else
      var n := |ls| - 1;
      assert Disjoint(ls[..n], from, |doc|);
      Render(doc, ls[..n], from, open, close) + Around(doc, ls[n], EndOf(ls[..n], from), open, close)
  }

  lemma RenderNone(doc: string, ls: seq<Loc>, from: nat, open: string, close: string)
    requires from <= |doc|
    ensures Disjoint(ls[..0], from, |doc|) && Render(doc, ls[..0], from, open, close) == [] && EndOf(ls[..0], from) == from
  {
  }

  lemma Assoc(a: seq<Piece>, b: seq<Piece>, c: seq<Piece>)
    ensures (a + b) + c == a + (b + c)
  {
  }

  lemma LocAt(ls: seq<Loc>, i: nat, from: nat, end: nat)
    requires Disjoint(ls, from, end) && i < |ls| && from <= end
    ensures Disjoint(ls[..i], from, end) && Disjoint(ls[..i + 1], from, end)
    ensures EndOf(ls[..i], from) <= ls[i].start && ls[i].start + ls[i].len <= end
    ensures EndOf(ls[..i + 1], from) == ls[i].start + ls[i].len && from <= EndOf(ls[..i], from)
  {
  }

  lemma RenderStep(doc: string, ls: seq<Loc>, i: nat, from: nat, open: string, close: string)
    requires Disjoint(ls, from, |doc|) && i < |ls| && from <= |doc|
    ensures Disjoint(ls[..i], from, |doc|) && Disjoint(ls[..i + 1], from, |doc|)
    ensures EndOf(ls[..i], from) <= ls[i].start && ls[i].start + ls[i].len <= |doc|
    ensures Render(doc, ls[..i + 1], from, open, close)
            == Render(doc, ls[..i], from, open, close) + Around(doc, ls[i], EndOf(ls[..i], from), open, close)
  {
    LocAt(ls, i, from, |doc|);
    assert ls[..i + 1][..i] == ls[..i];
  }

  lemma AddOnto(ps: seq<Piece>, qs: seq<Piece>, p: Piece)
    ensures Add(ps + qs, p) == ps + Add(qs, p)
  {
  }

  /** Writing piece by piece is writing the pieces. */
  lemma AddAll(ps: seq<Piece>, doc: string, l: Loc, from: nat, open: string, close: string)
    requires from <= l.start && l.start + l.len <= |doc|
    ensures Add(Add(Add(Add(ps, Text(doc[from..l.start])), OpenTag(open)), Text(doc[l.start..l.start + l.len])), CloseTag(close))
            == ps + Around(doc, l, from, open, close)
  {
    hide Add;
    var before, hit := Text(doc[from..l.start]), Text(doc[l.start..l.start + l.len]);
    var a := Add([], before);
    var b := Add(a, OpenTag(open));
    var c := Add(b, hit);
    assert ps + [] == ps;
    AddOnto(ps, [], before);
    AddOnto(ps, a, OpenTag(open));
    AddOnto(ps, b, hit);
    AddOnto(ps, c, CloseTag(close));
  }

  /** One more match at the end of the last fragment. */
  lemma Extended(front: seq<Fragment>, cur: Fragment, f: Fragment, loc: TermLoc, end: nat, end': nat)
    requires Disjoint(Locs(front + [cur]), 0, end) && f.start == cur.start && f.locs == cur.locs + [loc]
    requires end <= cur.start + loc.offset && cur.start + loc.offset + loc.len <= end'
    ensures Locs(front + [f]) == Locs(front + [cur]) + [Loc(cur.start + loc.offset, loc.len)]
    ensures Disjoint(Locs(front + [f]), 0, end')
  {
    hide Disjoint, Locs;
    LocsSnoc(front, cur);
    LocsSnoc(front, f);
    FragLocsSnoc(cur, f, loc);
    DisjointSnoc(Locs(front + [cur]), 0, end, Loc(cur.start + loc.offset, loc.len), end');
  }

  /** The last fragment starts before the end of the last match. */
  lemma {:induction false} LastStart(fs: seq<Fragment>, end: nat)
    requires fs != [] && WfFragment(fs[|fs| - 1]) && Disjoint(Locs(fs), 0, end)
    ensures fs[|fs| - 1].start <= end
  {
    var f := fs[|fs| - 1];
    assert FragLocs(f)[0] == Loc(f.start, f.locs[0].len);
    assert Locs(fs)[|Locs(fs[..|fs| - 1])|] == FragLocs(f)[0];
  }
}
