/** The child's end of the pipe: what it writes while it scans the snapshot. */
module GcSend {
  import opened Bytes
  import opened GcWire

  /** What repairing one inverted index gave: a report, or nothing when there was nothing to repair. */
  datatype FoundTerm = FoundTerm(name: seq<byte>, report: Option<InvIdx>)
  datatype FoundNode = FoundNode(ptr: nat, report: Option<InvIdx>, cards: Cards)
  datatype FoundTag = FoundTag(ptr: nat, value: seq<byte>, report: Option<InvIdx>)
  datatype FoundNumeric = FoundNumeric(name: seq<byte>, uniqueId: nat, nodes: seq<FoundNode>)
  datatype FoundTags = FoundTags(name: seq<byte>, uniqueId: nat, tags: seq<FoundTag>)

  ghost function Terms(fs: seq<FoundTerm>): seq<Term> {
    if fs == [] then []
    else (if fs[0].report.Some? then [Term(fs[0].name, fs[0].report.value)] else []) + Terms(fs[1..])
  }

  ghost function Nodes(fs: seq<FoundNode>): seq<Node> {
    if fs == [] then []
    else (if fs[0].report.Some? then [Node(fs[0].ptr, fs[0].report.value, fs[0].cards)] else []) + Nodes(fs[1..])
  }

  ghost function Tags(fs: seq<FoundTag>): seq<Tag> {
    if fs == [] then []
    else (if fs[0].report.Some? then [Tag(fs[0].ptr, fs[0].value, fs[0].report.value)] else []) + Tags(fs[1..])
  }

  /** Fields without a report are not mentioned. */
  ghost function Numerics(fs: seq<FoundNumeric>): seq<NumField> {
    if fs == [] then []
    else
      var nodes := Nodes(fs[0].nodes);
      (if nodes != [] then [NumField(fs[0].name, fs[0].uniqueId, nodes)] else []) + Numerics(fs[1..])
  }

  ghost function TagFields(fs: seq<FoundTags>): seq<TagField> {
    if fs == [] then []
    else
      var tags := Tags(fs[0].tags);
      (if tags != [] then [TagField(fs[0].name, fs[0].uniqueId, tags)] else []) + TagFields(fs[1..])
  }

  lemma Unfold<T>(x: T, xs: seq<T>)
    ensures ([x] + xs)[0] == x && ([x] + xs)[1..] == xs
  {
  }

  class Writer {
    var out: seq<byte>

    constructor ()
      ensures out == []
    {
      out := [];
    }

    method SendFixed(b: seq<byte>)
      modifies this
      ensures out == old(out) + b
    {
      out := out + b;
    }

    method SendBuffer(b: seq<byte>)
      modifies this
      ensures out == old(out) + Buf(b)
    {
      hide U64;
      SendFixed(U64(|b|));
      if |b| > 0 {
        SendFixed(b);
        Assoc(old(out), U64(|b|), b);
      }
      assert U64(|b|) + [] == U64(|b|);
    }

    /** The report on one inverted index. */
    method SendInvIdx(m: InvIdx)
      modifies this
      ensures out == old(out) + EncInvIdx(m)
    {
      hide Buf;
      SendFixed(m.info);
      SendBuffer(m.blocks);
      SendBuffer(m.deleted);
      ghost var start := out;
      var fs := m.fixed;
      for i := 0 to |fs|
        invariant out + EncFixed(fs[i..]) == start + EncFixed(fs)
      {
        ghost var at, more := out, EncFixed(fs[i + 1..]);
        assert fs[i..][1..] == fs[i + 1..];
        SendFixed(fs[i].msg);
        SendBuffer(fs[i].data);
        Three(at, fs[i].msg, Buf(fs[i].data), more);
      }
      assert fs[|fs|..] == [] && out + [] == out;
      Three(old(out), m.info, Buf(m.blocks), Buf(m.deleted) + EncFixed(fs));
      Assoc(old(out) + m.info + Buf(m.blocks), Buf(m.deleted), EncFixed(fs));
    }

    method SendCards(c: Cards)
      requires WfCards(c)
      modifies this
      ensures out == old(out) + EncCards(c)
    {
      hide U64;
      SendFixed(U64(|c.values| / CARD_SIZE));
      if |c.values| / CARD_SIZE > 0 {
        SendFixed(c.values);
        SendFixed(c.sum);
        Three(old(out), U64(|c.values| / CARD_SIZE), c.values, c.sum);
      }
    }

    /** All terms that were repaired, and the terminator. */
    method CollectTerms(fs: seq<FoundTerm>)
      modifies this
      ensures out == old(out) + EncTerms(Terms(fs))
    {
      hide Buf, EncInvIdx, Terminator;
      for i := 0 to |fs|
        invariant out + EncTerms(Terms(fs[i..])) == old(out) + EncTerms(Terms(fs))
      {
        var f := fs[i];
        assert fs[i..][1..] == fs[i + 1..];
        if f.report.Some? {
          ghost var at, more := out, Terms(fs[i + 1..]);
          Unfold(Term(f.name, f.report.value), more);
          SendBuffer(f.name);
          SendInvIdx(f.report.value);
          Three(at, Buf(f.name), EncInvIdx(f.report.value), EncTerms(more));
        } else {
          assert [] + Terms(fs[i + 1..]) == Terms(fs[i + 1..]);
        }
      }
      SendFixed(Terminator());
    }

    /** The header of a numeric or tag field goes out once, before the first report of the field. */
    method SendHeader(sent: bool, name: seq<byte>, uniqueId: nat, ptr: nat)
      modifies this
      ensures out == (if sent then old(out) else old(out) + Buf(name) + U64(uniqueId)) + U64(ptr)
    {
      hide Buf, U64;
      if !sent {
        SendBuffer(name);
        SendFixed(U64(uniqueId));
      }
      SendFixed(U64(ptr));
    }

    /** The repaired ranges of one numeric field. */
    method CollectNumericField(f: FoundNumeric)
      requires forall i :: 0 <= i < |f.nodes| ==> WfCards(f.nodes[i].cards)
      modifies this
      ensures out == old(out) + if Nodes(f.nodes) == [] then [] else Buf(f.name) + (U64(f.uniqueId) + EncNodes(Nodes(f.nodes)))
    {
      hide Buf, U64, EncInvIdx, EncCards;
      var ns, sent := f.nodes, false;
      ghost var hdr := old(out) + Buf(f.name) + U64(f.uniqueId);
      assert ns[0..] == ns;
      for i := 0 to |ns|
        invariant !sent ==> out == old(out) && Nodes(ns[i..]) == Nodes(ns)
        invariant sent ==> Nodes(ns) != [] && out + EncNodes(Nodes(ns[i..])) == hdr + EncNodes(Nodes(ns))
      {
        var n := ns[i];
        assert ns[i..][1..] == ns[i + 1..];
        if n.report.Some? {
          ghost var at, more := if sent then out else hdr, Nodes(ns[i + 1..]);
          Unfold(Node(n.ptr, n.report.value, n.cards), more);
          SendHeader(sent, f.name, f.uniqueId, n.ptr);
          sent := true;
          SendInvIdx(n.report.value);
          SendCards(n.cards);
          Four(at, U64(n.ptr), EncInvIdx(n.report.value), EncCards(n.cards), EncNodes(more));
        } else {
          assert [] + Nodes(ns[i + 1..]) == Nodes(ns[i + 1..]);
        }
      }
      if sent {
        SendFixed(U64(0));
        Three(old(out), Buf(f.name), U64(f.uniqueId), EncNodes(Nodes(ns)));
      } else {
        assert old(out) + [] == old(out);
      }
    }

    /** The repaired values of one tag field. */
    method CollectTagField(f: FoundTags)
      modifies this
      ensures out == old(out) + if Tags(f.tags) == [] then [] else Buf(f.name) + (U64(f.uniqueId) + EncTags(Tags(f.tags)))
    {
      hide Buf, U64, EncInvIdx;
      var ts, sent := f.tags, false;
      ghost var hdr := old(out) + Buf(f.name) + U64(f.uniqueId);
      assert ts[0..] == ts;
      for i := 0 to |ts|
        invariant !sent ==> out == old(out) && Tags(ts[i..]) == Tags(ts)
        invariant sent ==> Tags(ts) != [] && out + EncTags(Tags(ts[i..])) == hdr + EncTags(Tags(ts))
      {
        var t := ts[i];
        assert ts[i..][1..] == ts[i + 1..];
        if t.report.Some? {
          ghost var at, more := if sent then out else hdr, Tags(ts[i + 1..]);
          Unfold(Tag(t.ptr, t.value, t.report.value), more);
          SendHeader(sent, f.name, f.uniqueId, t.ptr);
          sent := true;
          SendBuffer(t.value);
          SendInvIdx(t.report.value);
          Four(at, U64(t.ptr), Buf(t.value), EncInvIdx(t.report.value), EncTags(more));
        } else {
          assert [] + Tags(ts[i + 1..]) == Tags(ts[i + 1..]);
        }
      }
      if sent {
        SendFixed(U64(0));
        Three(old(out), Buf(f.name), U64(f.uniqueId), EncTags(Tags(ts)));
      } else {
        assert old(out) + [] == old(out);
      }
    }

    /** All numeric fields, and the terminator. */
    method CollectNumerics(fs: seq<FoundNumeric>)
      requires forall i, j :: 0 <= i < |fs| && 0 <= j < |fs[i].nodes| ==> WfCards(fs[i].nodes[j].cards)
      modifies this
      ensures out == old(out) + EncNumFields(Numerics(fs))
    {
      hide Buf, U64, EncNodes, Terminator, Nodes;
      for i := 0 to |fs|
        invariant out + EncNumFields(Numerics(fs[i..])) == old(out) + EncNumFields(Numerics(fs))
      {
        ghost var at, more, nodes := out, Numerics(fs[i + 1..]), Nodes(fs[i].nodes);
        assert fs[i..][1..] == fs[i + 1..];
        CollectNumericField(fs[i]);
        if nodes != [] {
          Unfold(NumField(fs[i].name, fs[i].uniqueId, nodes), more);
          Field(at, Buf(fs[i].name), U64(fs[i].uniqueId), EncNodes(nodes), EncNumFields(more));
        } else {
          assert [] + more == more && at + [] == at;
        }
      }
      SendFixed(Terminator());
    }

    method CollectTags(fs: seq<FoundTags>)
      modifies this
      ensures out == old(out) + EncTagFields(TagFields(fs))
    {
      hide Buf, U64, EncTags, Terminator, Tags;
      for i := 0 to |fs|
        invariant out + EncTagFields(TagFields(fs[i..])) == old(out) + EncTagFields(TagFields(fs))
      {
        ghost var at, more, tags := out, TagFields(fs[i + 1..]), Tags(fs[i].tags);
        assert fs[i..][1..] == fs[i + 1..];
        CollectTagField(fs[i]);
        if tags != [] {
          Unfold(TagField(fs[i].name, fs[i].uniqueId, tags), more);
          Field(at, Buf(fs[i].name), U64(fs[i].uniqueId), EncTags(tags), EncTagFields(more));
        } else {
          assert [] + more == more && at + [] == at;
        }
      }
      SendFixed(Terminator());
    }

    /** The child's whole scan. */
    method ScanIndexes(terms: seq<FoundTerm>, numerics: seq<FoundNumeric>, tags: seq<FoundTags>)
      requires forall i, j :: 0 <= i < |numerics| && 0 <= j < |numerics[i].nodes| ==> WfCards(numerics[i].nodes[j].cards)
      modifies this
      ensures out == old(out) + EncStream(Stream(Terms(terms), Numerics(numerics), TagFields(tags)))
    {
      hide EncTerms, EncNumFields, EncTagFields;
      CollectTerms(terms);
      CollectNumerics(numerics);
      CollectTags(tags);
      Three(old(out), EncTerms(Terms(terms)), EncNumFields(Numerics(numerics)), EncTagFields(TagFields(tags)));
    }
  }

  lemma Field(at: seq<byte>, a: seq<byte>, b: seq<byte>, c: seq<byte>, more: seq<byte>)
    ensures at + (a + (b + c)) + more == at + (a + (b + (c + more)))
  {
    Assoc(at, a + (b + c), more);
    Assoc(a, b + c, more);
    Assoc(b, c, more);
  }

  /** What the child finds can be put on the wire. */
  ghost predicate Sendable(terms: seq<FoundTerm>, numerics: seq<FoundNumeric>, tags: seq<FoundTags>) {
    && (forall i :: 0 <= i < |terms| && terms[i].report.Some? ==> |terms[i].name| < SIZE_MAX && WfInvIdx(terms[i].report.value))
    && (forall i :: 0 <= i < |numerics| ==> |numerics[i].name| < SIZE_MAX && numerics[i].uniqueId < TWO_64 && SendableNodes(numerics[i].nodes))
    && (forall i :: 0 <= i < |tags| ==> |tags[i].name| < SIZE_MAX && tags[i].uniqueId < TWO_64 && SendableTags(tags[i].tags))
  }

  ghost predicate SendableNodes(ns: seq<FoundNode>) {
    forall j :: 0 <= j < |ns| ==>
      0 < ns[j].ptr < TWO_64 && WfCards(ns[j].cards) && (ns[j].report.Some? ==> WfInvIdx(ns[j].report.value))
  }

  ghost predicate SendableTags(ts: seq<FoundTag>) {
    forall j :: 0 <= j < |ts| ==>
      0 < ts[j].ptr < TWO_64 && |ts[j].value| < SIZE_MAX && (ts[j].report.Some? ==> WfInvIdx(ts[j].report.value))
  }

  lemma {:induction false} NodesWf(ns: seq<FoundNode>)
    requires SendableNodes(ns)
    ensures forall i :: 0 <= i < |Nodes(ns)| ==> WfNode(Nodes(ns)[i])
  {
    hide WfInvIdx, WfCards;
    if ns != [] { NodesWf(ns[1..]); }
  }

  lemma {:induction false} TagsWf(ts: seq<FoundTag>)
    requires SendableTags(ts)
    ensures forall i :: 0 <= i < |Tags(ts)| ==> WfTag(Tags(ts)[i])
  {
    hide WfInvIdx;
    if ts != [] { TagsWf(ts[1..]); }
  }

  lemma {:induction false} TermsWf(ts: seq<FoundTerm>)
    requires Sendable(ts, [], [])
    ensures forall i :: 0 <= i < |Terms(ts)| ==> WfTerm(Terms(ts)[i])
  {
    hide WfInvIdx;
    if ts != [] { TermsWf(ts[1..]); }
  }

  lemma {:induction false} NumericsWf(fs: seq<FoundNumeric>)
    requires Sendable([], fs, [])
    ensures forall i :: 0 <= i < |Numerics(fs)| ==> WfNumField(Numerics(fs)[i])
  {
    hide WfNode, SendableNodes;
    if fs != [] {
      NodesWf(fs[0].nodes);
      NumericsWf(fs[1..]);
    }
  }

  lemma {:induction false} TagFieldsWf(fs: seq<FoundTags>)
    requires Sendable([], [], fs)
    ensures forall i :: 0 <= i < |TagFields(fs)| ==> WfTagField(TagFields(fs)[i])
  {
    hide WfTag, SendableTags;
    if fs != [] {
      TagsWf(fs[0].tags);
      TagFieldsWf(fs[1..]);
    }
  }

  /** The parent recovers exactly the reports the child had, field by field, and nothing is left in the pipe. */
  method Transfer(terms: seq<FoundTerm>, numerics: seq<FoundNumeric>, tags: seq<FoundTags>) returns (got: Stream)
    requires Sendable(terms, numerics, tags)
    ensures got == Stream(Terms(terms), Numerics(numerics), TagFields(tags))
  {
    hide EncStream, Terms, Numerics, TagFields, WfNumField, WfTagField, WfTerm;
    var w := new Writer();
    assert forall i :: 0 <= i < |numerics| ==> SendableNodes(numerics[i].nodes);
    w.ScanIndexes(terms, numerics, tags);
    ghost var sent := Stream(Terms(terms), Numerics(numerics), TagFields(tags));
    TermsWf(terms);
    NumericsWf(numerics);
    TagFieldsWf(tags);
    assert [] + EncStream(sent) == EncStream(sent);
    var p := new Pipe(w.out);
    got := p.HandleFromChild(sent);
  }

  lemma Three(a: seq<byte>, b: seq<byte>, c: seq<byte>, d: seq<byte>)
    ensures a + b + c + d == a + (b + (c + d))
  {
    Assoc(a + b, c, d);
    Assoc(a, b, c + d);
  }

  lemma Four(a: seq<byte>, b: seq<byte>, c: seq<byte>, d: seq<byte>, e: seq<byte>)
    ensures a + b + c + d + e == a + (b + (c + (d + e)))
  {
    Assoc(a + b + c, d, e);
    Three(a, b, c, d + e);
  }
}
