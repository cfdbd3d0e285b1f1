/** The document table: buckets of documents by id, and the ids by key. Ids only grow and are never used again. */
module DocTable {

  datatype Doc = Doc(id: nat, key: string, deleted: bool)

  const MAX_GROWTH: nat := 1024 * 1024

  function Min(a: nat, b: nat): nat { if a < b then a else b }

  function Max(a: nat, b: nat): nat { if a > b then a else b }

  function Bucket(maxSize: nat, id: nat): (b: nat)
    requires maxSize > 0
    ensures b < maxSize && b <= id
  {
    if id < maxSize then id else id % maxSize
  }

  /** The new number of buckets when bucket b is needed. */
  function Grown(cap: nat, maxSize: nat, b: nat): (c: nat)
    requires b < maxSize && cap < maxSize
    ensures cap <= c <= maxSize && b < c
  {
    Max(Min(cap + 1 + (if cap > 0 then Min(cap / 2, MAX_GROWTH) else 1), maxSize), b + 1)
  }

  /** A document in its place: known by its key, and not deleted. */
  ghost predicate Placed(d: Doc, b: nat, maxSize: nat, maxDocId: nat, dim: map<string, nat>) {
    && maxSize > 0 && 1 <= d.id <= maxDocId && Bucket(maxSize, d.id) == b && !d.deleted
    && d.key in dim && dim[d.key] == d.id
  }

  ghost predicate Chained(chain: seq<Doc>, b: nat, maxSize: nat, maxDocId: nat, dim: map<string, nat>) {
    && (forall i :: 0 <= i < |chain| ==> Placed(chain[i], b, maxSize, maxDocId, dim))
    && (forall i, j :: 0 <= i < j < |chain| ==> chain[i].id != chain[j].id)
  }

  /** A key leads to a document in the bucket of its id. */
  ghost predicate Found(buckets: seq<seq<Doc>>, maxSize: nat, maxDocId: nat, key: string, id: nat) {
    && maxSize > 0 && 1 <= id <= maxDocId && Bucket(maxSize, id) < |buckets|
    && Doc(id, key, false) in buckets[Bucket(maxSize, id)]
  }

  /** The chains and the keys agree. */
  ghost predicate Wf(buckets: seq<seq<Doc>>, maxSize: nat, maxDocId: nat, dim: map<string, nat>) {
    && (forall b :: 0 <= b < |buckets| ==> Chained(buckets[b], b, maxSize, maxDocId, dim))
    && (forall key :: key in dim ==> Found(buckets, maxSize, maxDocId, key, dim[key]))
  }

  class Table {
    const maxSize: nat
    var buckets: seq<seq<Doc>>
    var maxDocId: nat
    var size: nat
    var dim: map<string, nat>

    ghost predicate Valid()
      reads this
    {
      maxSize > 0 && size == |dim| + 1 && Wf(buckets, maxSize, maxDocId, dim)
    }

    /** The ids of the documents in the table. */
    ghost function Live(): set<nat>
      reads this
    {
      dim.Values
    }

    constructor (cap: nat, maxSize: nat)
      requires maxSize > 0
      ensures Valid() && Live() == {} && maxDocId == 0
    {
      this.maxSize := maxSize;
      buckets := seq(cap, _ => []);
      maxDocId, size, dim := 0, 1, map[];
    }

    /** Is there a document with this id? */
    method Exists(id: nat) returns (found: bool)
      requires Valid()
      ensures found <==> id in Live()
    {
      hide Bucket;
      if id == 0 || id > maxDocId {
        assert forall key :: key in dim ==> dim[key] != id;
        return false;
      }
      var b := Bucket(maxSize, id);
      if b >= |buckets| {
        assert forall key :: key in dim ==> dim[key] != id;
        return false;
      }
      var chain := buckets[b];
      assert Chained(chain, b, maxSize, maxDocId, dim);
      for i := 0 to |chain|
        invariant forall j :: 0 <= j < i ==> chain[j].id != id
      {
        if chain[i].id == id && !chain[i].deleted {
          assert dim[chain[i].key] in dim.Values;
          return true;
        }
        assert Placed(chain[i], b, maxSize, maxDocId, dim);
      }
      forall key | key in dim ensures dim[key] != id {
        assert dim[key] == id ==> Doc(id, key, false) in chain;
      }
      return false;
    }

    /** Make room for bucket b. */
    method Grow(b: nat)
      requires Valid() && b < maxSize
      modifies this`buckets
      ensures Valid() && b < |buckets|
      ensures |old(buckets)| <= |buckets| && old(buckets) == buckets[..|old(buckets)|]
    {
      hide Bucket, Placed;
      if b >= |buckets| && |buckets| < maxSize {
        var cap := Grown(|buckets|, maxSize, b);
        ghost var was := buckets;
        buckets := buckets + seq(cap - |buckets|, _ => []);
        forall key | key in dim ensures Found(buckets, maxSize, maxDocId, key, dim[key]) {
          assert Found(was, maxSize, maxDocId, key, dim[key]);
        }
      }
    }
  
    /** Put a document under a key: the id it already has, or the next one. */
    method Put(key: string) returns (id: nat, isNew: bool)
      requires Valid()
      modifies this
      ensures Valid() && isNew == (key !in old(dim)) && key in dim && dim[key] == id && id in Live()
      ensures !isNew ==> unchanged(this)
      ensures isNew ==>
                && id == maxDocId == old(maxDocId) + 1 && id !in old(Live()) && Live() == old(Live()) + {id}
                && dim == old(dim)[key := id]
    {
      hide Bucket, Placed, Found, Chained;
      if key in dim {
        return dim[key], false;
      }
      id, isNew := maxDocId + 1, true;
      var b := Bucket(maxSize, id);
      Grow(b);
      ghost var was, ids, last := buckets, dim, maxDocId;
      maxDocId := id;
      buckets := buckets[b := buckets[b] + [Doc(id, key, false)]];
      size := size + 1;
      dim := dim[key := id];
      PutChains(was, b, maxSize, last, ids, key, id);
      PutValues(was, maxSize, last, ids, key, id);
    }

    /** Take a document out of the table. */
    method Pop(key: string) returns (popped: bool)
      requires Valid()
      modifies this
      ensures Valid() && popped == (key in old(dim)) && maxDocId == old(maxDocId)
      ensures !popped ==> unchanged(this)
      ensures popped ==> dim == old(dim) - {key} && Live() == old(Live()) - {old(dim)[key]}
    {
      hide Bucket, Placed, Chained;
      if key !in dim {
        return false;
      }
      var id := dim[key];
      assert Found(buckets, maxSize, maxDocId, key, id);
      var b := Bucket(maxSize, id);
      var chain := buckets[b];
      var i :| 0 <= i < |chain| && chain[i] == Doc(id, key, false);
      ghost var was, ids := buckets, dim;
      buckets := buckets[b := chain[..i] + chain[i + 1..]];
      dim := dim - {key};
      size := size - 1;
      PopChains(was, b, i, maxSize, maxDocId, ids, key);
      PopValues(was, maxSize, maxDocId, ids, key);
      assert dim.Keys == ids.Keys - {key};
      return true;
    }
  }

  lemma PutChains(bs: seq<seq<Doc>>, b: nat, maxSize: nat, last: nat, dim: map<string, nat>, key: string, id: nat)
    requires Wf(bs, maxSize, last, dim) && maxSize > 0 && key !in dim && id == last + 1 && b < |bs| && b == Bucket(maxSize, id)
    ensures Wf(bs[b := bs[b] + [Doc(id, key, false)]], maxSize, id, dim[key := id])
  {
    hide Bucket;
    var bs', dim' := bs[b := bs[b] + [Doc(id, key, false)]], dim[key := id];
    forall c | 0 <= c < |bs| ensures Chained(bs'[c], c, maxSize, id, dim') {
      assert Chained(bs[c], c, maxSize, last, dim);
      forall i | 0 <= i < |bs[c]| ensures Placed(bs[c][i], c, maxSize, id, dim') {
        assert Placed(bs[c][i], c, maxSize, last, dim);
      }
    }
    forall k | k in dim' ensures Found(bs', maxSize, id, k, dim'[k]) {
      if k == key {
        assert bs'[b][|bs[b]|] == Doc(id, key, false);
      } else {
        assert Found(bs, maxSize, last, k, dim[k]);
      }
    }
  }

  lemma PutValues(bs: seq<seq<Doc>>, maxSize: nat, last: nat, dim: map<string, nat>, key: string, id: nat)
    requires Wf(bs, maxSize, last, dim) && key !in dim && id == last + 1
    ensures id !in dim.Values && dim[key := id].Values == dim.Values + {id}
  {
    forall k | k in dim ensures dim[k] != id { assert Found(bs, maxSize, last, k, dim[k]); }
    var dim' := dim[key := id];
    forall x | x in dim.Values + {id} ensures x in dim'.Values {
      if x == id {
        assert dim'[key] == x;
      } else {
        var k :| k in dim && dim[k] == x;
        assert dim'[k] == x;
      }
    }
  }

  /** Two keys of one id are one key. */
  lemma OneKey(bs: seq<seq<Doc>>, maxSize: nat, last: nat, dim: map<string, nat>, a: string, b: string)
    requires Wf(bs, maxSize, last, dim) && a in dim && b in dim && dim[a] == dim[b]
    ensures a == b
  {
    hide Bucket, Placed;
    assert Found(bs, maxSize, last, a, dim[a]) && Found(bs, maxSize, last, b, dim[b]);
    var c := Bucket(maxSize, dim[a]);
    assert Chained(bs[c], c, maxSize, last, dim);
    var i :| 0 <= i < |bs[c]| && bs[c][i] == Doc(dim[a], a, false);
    var j :| 0 <= j < |bs[c]| && bs[c][j] == Doc(dim[b], b, false);
  }

  lemma PopChains(bs: seq<seq<Doc>>, b: nat, i: nat, maxSize: nat, last: nat, dim: map<string, nat>, key: string)
    requires Wf(bs, maxSize, last, dim) && key in dim && maxSize > 0 && b == Bucket(maxSize, dim[key])
    requires b < |bs| && i < |bs[b]| && bs[b][i] == Doc(dim[key], key, false)
    ensures Wf(bs[b := bs[b][..i] + bs[b][i + 1..]], maxSize, last, dim - {key})
  {
    hide Bucket;
    var rest := bs[b][..i] + bs[b][i + 1..];
    var bs', dim' := bs[b := rest], dim - {key};
    forall c | 0 <= c < |bs| ensures Chained(bs'[c], c, maxSize, last, dim') {
      assert Chained(bs[c], c, maxSize, last, dim);
      forall j | 0 <= j < |bs[c]| && !(c == b && j == i) ensures Placed(bs[c][j], c, maxSize, last, dim') {
        assert Placed(bs[c][j], c, maxSize, last, dim);
        assert bs[c][j].key != key;
      }
      if c == b {
        assert forall j :: 0 <= j < |rest| ==> rest[j] == bs[b][if j < i then j else j + 1];
      }
    }
    forall k | k in dim' ensures Found(bs', maxSize, last, k, dim'[k]) {
      assert Found(bs, maxSize, last, k, dim[k]);
      var c := Bucket(maxSize, dim[k]);
      var j :| 0 <= j < |bs[c]| && bs[c][j] == Doc(dim[k], k, false);
      if c == b { assert rest[if j < i then j else j - 1] == bs[c][j]; }
    }
  }

  lemma PopValues(bs: seq<seq<Doc>>, maxSize: nat, last: nat, dim: map<string, nat>, key: string)
    requires Wf(bs, maxSize, last, dim) && key in dim
    ensures (dim - {key}).Values == dim.Values - {dim[key]}
  {
    var dim' := dim - {key};
    forall x | x in dim'.Values ensures x in dim.Values && x != dim[key] {
      var k :| k in dim' && dim'[k] == x;
      assert dim[k] == x;
      if dim[k] == dim[key] { OneKey(bs, maxSize, last, dim, k, key); }
    }
    forall x | x in dim.Values - {dim[key]} ensures x in dim'.Values {
      var k :| k in dim && dim[k] == x;
      assert dim'[k] == x;
    }
  }
}
