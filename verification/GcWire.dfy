/**
 * The pipe between the collector's child and its parent: terms, then numeric fields, then tag fields.
 * The structures are copied as they lie in memory, so here they are byte strings of their size.
 */
module GcWire {
  import opened Bytes

  const SIZE_MAX: nat := TWO_64 - 1
  const INFO_SIZE: nat := 64
  const BLOCK_SIZE: nat := 48
  const DELETED_SIZE: nat := 16
  const REPAIRED_SIZE: nat := 64
  const CARD_SIZE: nat := 16
  const SUM_SIZE: nat := 8

  function U64(v: nat): seq<byte> {
    FixedLE(v, 8)
  }

  /** A length and that many bytes. */
  function Buf(b: seq<byte>): seq<byte> {
    U64(|b|) + b
  }

  /** What is sent in place of a buffer to say that no more will come. */
  function Terminator(): seq<byte> {
    U64(SIZE_MAX)
  }

  /** A repaired block: its description and its bytes. */
  datatype Fixed = Fixed(msg: seq<byte>, data: seq<byte>)

  /** The report on one inverted index. */
  datatype InvIdx = InvIdx(info: seq<byte>, blocks: seq<byte>, deleted: seq<byte>, fixed: seq<Fixed>)

  /** The sampled values of a numeric range and their sum; both are missing when nothing was sampled. */
  datatype Cards = Cards(values: seq<byte>, sum: seq<byte>)

  datatype Term = Term(name: seq<byte>, index: InvIdx)

  /** A repaired range of a numeric tree, or a repaired tag value: where it is, and the report. */
  datatype Node = Node(ptr: nat, index: InvIdx, cards: Cards)
  datatype Tag = Tag(ptr: nat, value: seq<byte>, index: InvIdx)

  datatype NumField = NumField(name: seq<byte>, uniqueId: nat, nodes: seq<Node>)
  datatype TagField = TagField(name: seq<byte>, uniqueId: nat, tags: seq<Tag>)

  /** The number of repaired blocks, the second 32-bit field. */
  function NumRepaired(info: seq<byte>): nat
    requires |info| == INFO_SIZE
  {
    FromLE(info[4..8])
  }

  predicate WfFixed(f: Fixed) {
    |f.msg| == REPAIRED_SIZE && |f.data| < SIZE_MAX
  }

  predicate WfInvIdx(m: InvIdx) {
    && |m.info| == INFO_SIZE && NumRepaired(m.info) == |m.fixed|
    && |m.blocks| < SIZE_MAX && |m.blocks| % BLOCK_SIZE == 0 && |m.deleted| < SIZE_MAX && |m.deleted| % DELETED_SIZE == 0
    && forall i :: 0 <= i < |m.fixed| ==> WfFixed(m.fixed[i])
  }

  predicate WfCards(c: Cards) {
    && |c.values| % CARD_SIZE == 0 && |c.values| / CARD_SIZE < SIZE_MAX
    && |c.sum| == if c.values == [] then 0 else SUM_SIZE
  }

  predicate WfNode(n: Node) {
    0 < n.ptr < TWO_64 && WfInvIdx(n.index) && WfCards(n.cards)
  }

  predicate WfTag(t: Tag) {
    0 < t.ptr < TWO_64 && |t.value| < SIZE_MAX && WfInvIdx(t.index)
  }

  function EncFixed(fs: seq<Fixed>): seq<byte> {
    if fs == [] then [] else fs[0].msg + (Buf(fs[0].data) + EncFixed(fs[1..]))
  }

  function EncInvIdx(m: InvIdx): seq<byte> {
    m.info + (Buf(m.blocks) + (Buf(m.deleted) + EncFixed(m.fixed)))
  }

  function EncCards(c: Cards): seq<byte> {
    if c.values == [] then U64(0) else U64(|c.values| / CARD_SIZE) + (c.values + c.sum)
  }

  function EncTerms(ts: seq<Term>): seq<byte> {
    if ts == [] then Terminator() else Buf(ts[0].name) + (EncInvIdx(ts[0].index) + EncTerms(ts[1..]))
  }

  function EncNodes(ns: seq<Node>): seq<byte> {
    if ns == [] then U64(0)
    else U64(ns[0].ptr) + (EncInvIdx(ns[0].index) + (EncCards(ns[0].cards) + EncNodes(ns[1..])))
  }

  function EncTags(ts: seq<Tag>): seq<byte> {
    if ts == [] then U64(0) else U64(ts[0].ptr) + (Buf(ts[0].value) + (EncInvIdx(ts[0].index) + EncTags(ts[1..])))
  }

  function EncNumFields(fs: seq<NumField>): seq<byte> {
    if fs == [] then Terminator()
    else Buf(fs[0].name) + (U64(fs[0].uniqueId) + (EncNodes(fs[0].nodes) + EncNumFields(fs[1..])))
  }

  function EncTagFields(fs: seq<TagField>): seq<byte> {
    if fs == [] then Terminator()
    else Buf(fs[0].name) + (U64(fs[0].uniqueId) + (EncTags(fs[0].tags) + EncTagFields(fs[1..])))
  }

  lemma Assoc(a: seq<byte>, b: seq<byte>, c: seq<byte>)
    ensures (a + b) + c == a + (b + c)
  {
  }

  lemma U64Value(v: nat)
    requires v < TWO_64
    ensures |U64(v)| == 8 && FromLE(U64(v)) == v
  {
    FixedU64(v);
  }

  /** The reading end of the pipe: what is still to be read. */
  class Pipe {
    var data: seq<byte>

    constructor (data: seq<byte>)
      ensures this.data == data
    {
      this.data := data;
    }

    /** The system call: it may deliver less than was asked for. */
    method Read(len: nat) returns (b: seq<byte>)
      requires 0 < len <= |data|
      modifies this
      ensures 0 < |b| <= len && old(data) == b + data
    {
      var k: nat :| 1 <= k <= len;
      b := data[..k];
      data := data[k..];
    }

    /** Read until everything asked for is there. */
    method RecvFixed(len: nat, ghost want: seq<byte>, ghost rest: seq<byte>) returns (b: seq<byte>)
      requires data == want + rest && |want| == len
      modifies this
      ensures b == want && data == rest
    {
      b := [];
      ghost var all := data;
      while |b| < len
        invariant |b| <= len && all == b + data
        decreases len - |b|
      {
        assert |all| == |b| + |data|;
        var more := Read(len - |b|);
        Assoc(b, more, data);
        b := b + more;
      }
      assert b == all[..len] == want;
      assert data == all[len..] == rest;
    }

    method RecvU64(ghost v: nat, ghost rest: seq<byte>) returns (r: nat)
      requires v < TWO_64 && data == U64(v) + rest
      modifies this
      ensures r == v && data == rest
    {
      hide FixedLE, FromLE;
      U64Value(v);
      var b := RecvFixed(8, U64(v), rest);
      r := FromLE(b);
    }

    /** A buffer, or none if it was the terminator. */
    method RecvBuffer(ghost want: Option<seq<byte>>, ghost rest: seq<byte>) returns (r: Option<seq<byte>>)
      requires want.Some? ==> |want.value| < SIZE_MAX && data == Buf(want.value) + rest
      requires want.None? ==> data == Terminator() + rest
      modifies this
      ensures r == want && data == rest
    {
      hide FixedLE, FromLE;
      ghost var n := if want.Some? then |want.value| else SIZE_MAX;
      ghost var after := if want.Some? then want.value + rest else rest;
      if want.Some? { Assoc(U64(n), want.value, rest); }
      var len := RecvU64(n, after);
      if len == SIZE_MAX {
        return None;
      }
      if len == 0 {
        assert [] + rest == rest;
        return Some([]);
      }
      var b := RecvFixed(len, want.value, rest);
      return Some(b);
    }
  
    /** One repaired block. */
    method RecvRepairedBlock(ghost f: Fixed, ghost rest: seq<byte>) returns (r: Fixed)
      requires WfFixed(f) && data == f.msg + (Buf(f.data) + rest)
      modifies this
      ensures r == f && data == rest
    {
      hide U64;
      var msg := RecvFixed(REPAIRED_SIZE, f.msg, Buf(f.data) + rest);
      var b := RecvBuffer(Some(f.data), rest);
      r := Fixed(msg, if b.Some? then b.value else []);
    }

    /** As many repaired blocks as were announced. */
    method RecvRepairedBlocks(n: nat, ghost fs: seq<Fixed>, ghost rest: seq<byte>) returns (r: seq<Fixed>)
      requires n == |fs| && (forall i :: 0 <= i < |fs| ==> WfFixed(fs[i])) && data == EncFixed(fs) + rest
      modifies this
      ensures r == fs && data == rest
    {
      hide Buf;
      r := [];
      for i := 0 to n
        invariant r == fs[..i] && data == EncFixed(fs[i..]) + rest
      {
        ghost var more := EncFixed(fs[i + 1..]);
        FixedFront(fs, i, rest);
        var f := RecvRepairedBlock(fs[i], more + rest);
        r := r + [f];
      }
      assert fs[..n] == fs && fs[n..] == [];
      assert [] + rest == rest;
    }

    method RecvInvIdx(ghost m: InvIdx, ghost rest: seq<byte>) returns (r: InvIdx)
      requires WfInvIdx(m) && data == EncInvIdx(m) + rest
      modifies this
      ensures r == m && data == rest
    {
      hide Buf, EncFixed, NumRepaired;
      InvIdxFront(m, rest);
      ghost var fixed := EncFixed(m.fixed) + rest;
      var info := RecvFixed(INFO_SIZE, m.info, Buf(m.blocks) + (Buf(m.deleted) + fixed));
      var blocks := RecvBuffer(Some(m.blocks), Buf(m.deleted) + fixed);
      var deleted := RecvBuffer(Some(m.deleted), fixed);
      var fs := RecvRepairedBlocks(NumRepaired(info), m.fixed, rest);
      r := InvIdx(info, if blocks.Some? then blocks.value else [], if deleted.Some? then deleted.value else [], fs);
    }

    method RecvCards(ghost c: Cards, ghost rest: seq<byte>) returns (r: Cards)
      requires WfCards(c) && data == EncCards(c) + rest
      modifies this
      ensures r == c && data == rest
    {
      hide U64;
      ghost var n := |c.values| / CARD_SIZE;
      if c.values != [] { CardsFront(c, rest); }
      var len := RecvU64(n, if c.values == [] then rest else c.values + (c.sum + rest));
      if len == 0 {
        return Cards([], []);
      }
      var values := RecvFixed(len * CARD_SIZE, c.values, c.sum + rest);
      var sum := RecvFixed(SUM_SIZE, c.sum, rest);
      return Cards(values, sum);
    }

    /** One term with its report, or none at the end of the terms. */
    method HandleTerm(ghost ts: seq<Term>, ghost rest: seq<byte>) returns (r: Option<Term>)
      requires (ts != [] ==> WfTerm(ts[0])) && data == EncTerms(ts) + rest
      modifies this
      ensures if ts == [] then r.None? && data == rest else r == Some(ts[0]) && data == EncTerms(ts[1..]) + rest
    {
      hide Buf, EncInvIdx, Terminator;
      if ts != [] { TermFront(ts, rest); }
      var name := RecvBuffer(if ts == [] then None else Some(ts[0].name),
                             if ts == [] then rest else EncInvIdx(ts[0].index) + (EncTerms(ts[1..]) + rest));
      if name.None? {
        return None;
      }
      var idx := RecvInvIdx(ts[0].index, EncTerms(ts[1..]) + rest);
      return Some(Term(name.value, idx));
    }

    /** All terms. */
    method HandleTerms(ghost ts: seq<Term>, ghost rest: seq<byte>) returns (r: seq<Term>)
      requires (forall i :: 0 <= i < |ts| ==> WfTerm(ts[i])) && data == EncTerms(ts) + rest
      modifies this
      ensures r == ts && data == rest
    {
      hide EncTerms;
      r := [];
      while true
        invariant |r| <= |ts| && r == ts[..|r|] && data == EncTerms(ts[|r|..]) + rest
        decreases |ts| - |r|
      {
        var t := HandleTerm(ts[|r|..], rest);
        if t.None? {
          return;
        }
        assert ts[|r|..][1..] == ts[|r| + 1..];
        r := r + [t.value];
      }
    }

    /** One repaired numeric range, or none at the null pointer. */
    method RecvNode(ghost ns: seq<Node>, ghost rest: seq<byte>) returns (r: Option<Node>)
      requires (ns != [] ==> WfNode(ns[0])) && data == EncNodes(ns) + rest
      modifies this
      ensures if ns == [] then r.None? && data == rest else r == Some(ns[0]) && data == EncNodes(ns[1..]) + rest
    {
      hide U64, EncInvIdx, EncCards;
      if ns != [] { NodeFront(ns, rest); }
      ghost var more := if ns == [] then rest else EncCards(ns[0].cards) + (EncNodes(ns[1..]) + rest);
      var ptr := RecvU64(if ns == [] then 0 else ns[0].ptr, if ns == [] then rest else EncInvIdx(ns[0].index) + more);
      if ptr == 0 {
        return None;
      }
      var idx := RecvInvIdx(ns[0].index, more);
      var cards := RecvCards(ns[0].cards, EncNodes(ns[1..]) + rest);
      return Some(Node(ptr, idx, cards));
    }

    /** The repaired ranges of one numeric field. */
    method RecvNodes(ghost ns: seq<Node>, ghost rest: seq<byte>) returns (r: seq<Node>)
      requires (forall i :: 0 <= i < |ns| ==> WfNode(ns[i])) && data == EncNodes(ns) + rest
      modifies this
      ensures r == ns && data == rest
    {
      hide EncNodes;
      r := [];
      while true
        invariant |r| <= |ns| && r == ns[..|r|] && data == EncNodes(ns[|r|..]) + rest
        decreases |ns| - |r|
      {
        var n := RecvNode(ns[|r|..], rest);
        if n.None? {
          return;
        }
        assert ns[|r|..][1..] == ns[|r| + 1..];
        r := r + [n.value];
      }
    }

    method HandleNumeric(ghost fs: seq<NumField>, ghost rest: seq<byte>) returns (r: Option<NumField>)
      requires (fs != [] ==> WfNumField(fs[0])) && data == EncNumFields(fs) + rest
      modifies this
      ensures if fs == [] then r.None? && data == rest else r == Some(fs[0]) && data == EncNumFields(fs[1..]) + rest
    {
      hide Buf, U64, EncNodes, Terminator;
      if fs != [] { NumFieldFront(fs, rest); }
      ghost var more := if fs == [] then rest else EncNodes(fs[0].nodes) + (EncNumFields(fs[1..]) + rest);
      var name := RecvBuffer(if fs == [] then None else Some(fs[0].name), if fs == [] then rest else U64(fs[0].uniqueId) + more);
      if name.None? {
        return None;
      }
      var id := RecvU64(fs[0].uniqueId, more);
      var nodes := RecvNodes(fs[0].nodes, EncNumFields(fs[1..]) + rest);
      return Some(NumField(name.value, id, nodes));
    }

    method HandleNumerics(ghost fs: seq<NumField>, ghost rest: seq<byte>) returns (r: seq<NumField>)
      requires (forall i :: 0 <= i < |fs| ==> WfNumField(fs[i])) && data == EncNumFields(fs) + rest
      modifies this
      ensures r == fs && data == rest
    {
      hide EncNumFields;
      r := [];
      while true
        invariant |r| <= |fs| && r == fs[..|r|] && data == EncNumFields(fs[|r|..]) + rest
        decreases |fs| - |r|
      {
        var f := HandleNumeric(fs[|r|..], rest);
        if f.None? {
          return;
        }
        assert fs[|r|..][1..] == fs[|r| + 1..];
        r := r + [f.value];
      }
    }

    /** One repaired tag value, or none at the null pointer. */
    method RecvTag(ghost ts: seq<Tag>, ghost rest: seq<byte>) returns (r: Option<Tag>)
      requires (ts != [] ==> WfTag(ts[0])) && data == EncTags(ts) + rest
      modifies this
      ensures if ts == [] then r.None? && data == rest else r == Some(ts[0]) && data == EncTags(ts[1..]) + rest
    {
      hide U64, EncInvIdx, Buf;
      if ts != [] { TagFront(ts, rest); }
      ghost var more := if ts == [] then rest else EncInvIdx(ts[0].index) + (EncTags(ts[1..]) + rest);
      var ptr := RecvU64(if ts == [] then 0 else ts[0].ptr, if ts == [] then rest else Buf(ts[0].value) + more);
      if ptr == 0 {
        return None;
      }
      var value := RecvBuffer(Some(ts[0].value), more);
      var idx := RecvInvIdx(ts[0].index, EncTags(ts[1..]) + rest);
      return Some(Tag(ptr, if value.Some? then value.value else [], idx));
    }

    method RecvTags(ghost ts: seq<Tag>, ghost rest: seq<byte>) returns (r: seq<Tag>)
      requires (forall i :: 0 <= i < |ts| ==> WfTag(ts[i])) && data == EncTags(ts) + rest
      modifies this
      ensures r == ts && data == rest
    {
      hide EncTags;
      r := [];
      while true
        invariant |r| <= |ts| && r == ts[..|r|] && data == EncTags(ts[|r|..]) + rest
        decreases |ts| - |r|
      {
        var t := RecvTag(ts[|r|..], rest);
        if t.None? {
          return;
        }
        assert ts[|r|..][1..] == ts[|r| + 1..];
        r := r + [t.value];
      }
    }

    method HandleTag(ghost fs: seq<TagField>, ghost rest: seq<byte>) returns (r: Option<TagField>)
      requires (fs != [] ==> WfTagField(fs[0])) && data == EncTagFields(fs) + rest
      modifies this
      ensures if fs == [] then r.None? && data == rest else r == Some(fs[0]) && data == EncTagFields(fs[1..]) + rest
    {
      hide Buf, U64, EncTags, Terminator;
      if fs != [] { TagFieldFront(fs, rest); }
      ghost var more := if fs == [] then rest else EncTags(fs[0].tags) + (EncTagFields(fs[1..]) + rest);
      var name := RecvBuffer(if fs == [] then None else Some(fs[0].name), if fs == [] then rest else U64(fs[0].uniqueId) + more);
      if name.None? {
        return None;
      }
      var id := RecvU64(fs[0].uniqueId, more);
      var tags := RecvTags(fs[0].tags, EncTagFields(fs[1..]) + rest);
      return Some(TagField(name.value, id, tags));
    }

    method HandleTags(ghost fs: seq<TagField>, ghost rest: seq<byte>) returns (r: seq<TagField>)
      requires (forall i :: 0 <= i < |fs| ==> WfTagField(fs[i])) && data == EncTagFields(fs) + rest
      modifies this
      ensures r == fs && data == rest
    {
      hide EncTagFields;
      r := [];
      while true
        invariant |r| <= |fs| && r == fs[..|r|] && data == EncTagFields(fs[|r|..]) + rest
        decreases |fs| - |r|
      {
        var f := HandleTag(fs[|r|..], rest);
        if f.None? {
          return;
        }
        assert fs[|r|..][1..] == fs[|r| + 1..];
        r := r + [f.value];
      }
    }

    /** Everything the child sent, with nothing left over. */
    method HandleFromChild(ghost sent: Stream) returns (got: Stream)
      requires WfStream(sent) && data == EncStream(sent)
      modifies this
      ensures got == sent && data == []
    {
      hide EncTerms, EncNumFields, EncTagFields;
      ghost var tags := EncTagFields(sent.tags);
      assert tags + [] == tags;
      var ts := HandleTerms(sent.terms, EncNumFields(sent.numerics) + tags);
      var ns := HandleNumerics(sent.numerics, tags);
      var gs := HandleTags(sent.tags, []);
      got := Stream(ts, ns, gs);
    }
  }

  datatype Stream = Stream(terms: seq<Term>, numerics: seq<NumField>, tags: seq<TagField>)

  predicate WfStream(s: Stream) {
    && (forall i :: 0 <= i < |s.terms| ==> WfTerm(s.terms[i]))
    && (forall i :: 0 <= i < |s.numerics| ==> WfNumField(s.numerics[i]))
    && (forall i :: 0 <= i < |s.tags| ==> WfTagField(s.tags[i]))
  }

  function EncStream(s: Stream): seq<byte> {
    EncTerms(s.terms) + (EncNumFields(s.numerics) + EncTagFields(s.tags))
  }

  predicate WfNumField(f: NumField) {
    |f.name| < SIZE_MAX && f.uniqueId < TWO_64 && forall i :: 0 <= i < |f.nodes| ==> WfNode(f.nodes[i])
  }

  predicate WfTagField(f: TagField) {
    |f.name| < SIZE_MAX && f.uniqueId < TWO_64 && forall i :: 0 <= i < |f.tags| ==> WfTag(f.tags[i])
  }

  lemma NodeFront(ns: seq<Node>, rest: seq<byte>)
    requires ns != []
    ensures EncNodes(ns) + rest
            == U64(ns[0].ptr) + (EncInvIdx(ns[0].index) + (EncCards(ns[0].cards) + (EncNodes(ns[1..]) + rest)))
  {
    hide U64, EncInvIdx, EncCards;
    var a, b, c, d := U64(ns[0].ptr), EncInvIdx(ns[0].index), EncCards(ns[0].cards), EncNodes(ns[1..]);
    Assoc(a, b + (c + d), rest);
    Assoc(b, c + d, rest);
    Assoc(c, d, rest);
  }

  lemma TagFront(ts: seq<Tag>, rest: seq<byte>)
    requires ts != []
    ensures EncTags(ts) + rest == U64(ts[0].ptr) + (Buf(ts[0].value) + (EncInvIdx(ts[0].index) + (EncTags(ts[1..]) + rest)))
  {
    hide U64, EncInvIdx, Buf;
    var a, b, c, d := U64(ts[0].ptr), Buf(ts[0].value), EncInvIdx(ts[0].index), EncTags(ts[1..]);
    Assoc(a, b + (c + d), rest);
    Assoc(b, c + d, rest);
    Assoc(c, d, rest);
  }

  lemma NumFieldFront(fs: seq<NumField>, rest: seq<byte>)
    requires fs != []
    ensures EncNumFields(fs) + rest
            == Buf(fs[0].name) + (U64(fs[0].uniqueId) + (EncNodes(fs[0].nodes) + (EncNumFields(fs[1..]) + rest)))
  {
    hide U64, Buf, EncNodes, Terminator;
    var a, b, c, d := Buf(fs[0].name), U64(fs[0].uniqueId), EncNodes(fs[0].nodes), EncNumFields(fs[1..]);
    Assoc(a, b + (c + d), rest);
    Assoc(b, c + d, rest);
    Assoc(c, d, rest);
  }

  lemma TagFieldFront(fs: seq<TagField>, rest: seq<byte>)
    requires fs != []
    ensures EncTagFields(fs) + rest
            == Buf(fs[0].name) + (U64(fs[0].uniqueId) + (EncTags(fs[0].tags) + (EncTagFields(fs[1..]) + rest)))
  {
    hide U64, Buf, EncTags, Terminator;
    var a, b, c, d := Buf(fs[0].name), U64(fs[0].uniqueId), EncTags(fs[0].tags), EncTagFields(fs[1..]);
    Assoc(a, b + (c + d), rest);
    Assoc(b, c + d, rest);
    Assoc(c, d, rest);
  }

  predicate WfTerm(t: Term) {
    |t.name| < SIZE_MAX && WfInvIdx(t.index)
  }

  lemma FixedFront(fs: seq<Fixed>, i: nat, rest: seq<byte>)
    requires i < |fs|
    ensures EncFixed(fs[i..]) + rest == fs[i].msg + (Buf(fs[i].data) + (EncFixed(fs[i + 1..]) + rest))
  {
    hide Buf;
    assert fs[i..][1..] == fs[i + 1..];
    var a, b, c := fs[i].msg, Buf(fs[i].data), EncFixed(fs[i + 1..]);
    Assoc(a, b + c, rest);
    Assoc(b, c, rest);
  }

  lemma InvIdxFront(m: InvIdx, rest: seq<byte>)
    ensures EncInvIdx(m) + rest == m.info + (Buf(m.blocks) + (Buf(m.deleted) + (EncFixed(m.fixed) + rest)))
  {
    hide Buf, EncFixed;
    var a, b, c, d := m.info, Buf(m.blocks), Buf(m.deleted), EncFixed(m.fixed);
    Assoc(a, b + (c + d), rest);
    Assoc(b, c + d, rest);
    Assoc(c, d, rest);
  }

  lemma CardsFront(c: Cards, rest: seq<byte>)
    requires c.values != []
    ensures EncCards(c) + rest == U64(|c.values| / CARD_SIZE) + (c.values + (c.sum + rest))
  {
    hide U64;
    var n := U64(|c.values| / CARD_SIZE);
    Assoc(n, c.values + c.sum, rest);
    Assoc(c.values, c.sum, rest);
  }

  lemma TermFront(ts: seq<Term>, rest: seq<byte>)
    requires ts != []
    ensures EncTerms(ts) + rest == Buf(ts[0].name) + (EncInvIdx(ts[0].index) + (EncTerms(ts[1..]) + rest))
  {
    hide Buf, EncInvIdx, Terminator;
    var a, b, c := Buf(ts[0].name), EncInvIdx(ts[0].index), EncTerms(ts[1..]);
    Assoc(a, b + c, rest);
    Assoc(b, c, rest);
  }
}
