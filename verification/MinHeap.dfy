/** The binary heap behind unions of many children: items are child numbers, ordered by their keys. */
module MinHeap {

  ghost predicate Items(h: seq<nat>, n: nat) {
    forall i :: 0 <= i < |h| ==> h[i] < n
  }

  /** No child is in the heap twice. */
  ghost predicate Distinct(h: seq<nat>) {
    forall i, j :: 0 <= i < j < |h| ==> h[i] != h[j]
  }

  /** Node i is not below its parent. */
  ghost predicate Above(h: seq<nat>, keys: seq<nat>, i: nat)
    requires 1 <= i < |h| && Items(h, |keys|)
  {
    keys[h[(i - 1) / 2]] <= keys[h[i]]
  }

  /** Every node but the children of hole is in order; hole's own parent is in order with hole's children. */
  ghost predicate HeapBut(h: seq<nat>, keys: seq<nat>, hole: nat)
    requires Items(h, |keys|)
  {
    && (forall i :: 1 <= i < |h| && (i - 1) / 2 != hole ==> Above(h, keys, i))
    && (forall i :: 1 <= i < |h| && (i - 1) / 2 == hole && hole >= 1 ==> keys[h[(hole - 1) / 2]] <= keys[h[i]])
  }

  ghost predicate IsHeap(h: seq<nat>, keys: seq<nat>)
    requires Items(h, |keys|)
  {
    forall i :: 1 <= i < |h| ==> Above(h, keys, i)
  }

  /** The root has the least key. */
  lemma {:induction false} RootIsLeast(h: seq<nat>, keys: seq<nat>, i: nat)
    requires Items(h, |keys|) && IsHeap(h, keys) && i < |h|
    ensures keys[h[0]] <= keys[h[i]]
  {
    if i > 0 {
      RootIsLeast(h, keys, (i - 1) / 2);
      assert Above(h, keys, i);
    }
  }

  /** With all keys equal any order is a heap. */
  lemma FlatHeap(h: seq<nat>, keys: seq<nat>)
    requires Items(h, |keys|) && forall k :: 0 <= k < |keys| ==> keys[k] == 0
    ensures IsHeap(h, keys)
  {
  }

  ghost predicate SameItems(h: seq<nat>, h': seq<nat>) {
    |h| == |h'| && forall x :: x in h <==> x in h'
  }

  lemma Swapped(h: seq<nat>, a: nat, b: nat)
    requires a < b < |h| && Distinct(h)
    ensures var h' := h[a := h[b]][b := h[a]];
            Distinct(h') && SameItems(h, h')
  {
    var h' := h[a := h[b]][b := h[a]];
    assert h'[a] == h[b] && h'[b] == h[a];
    forall x | x in h ensures x in h' {
      var i :| 0 <= i < |h| && h[i] == x;
      assert i == a || i == b || h'[i] == x;
    }
  }

  /** Swapping the hole with its least child moves the hole down. */
  lemma HoleMoves(h: seq<nat>, keys: seq<nat>, idx: nat, child: nat)
    requires Items(h, |keys|) && HeapBut(h, keys, idx)
    requires child < |h| && (child == 2 * idx + 1 || child == 2 * idx + 2)
    requires forall i :: 1 <= i < |h| && (i - 1) / 2 == idx ==> keys[h[child]] <= keys[h[i]]
    requires keys[h[child]] < keys[h[idx]]
    ensures var h' := h[idx := h[child]][child := h[idx]];
            Items(h', |keys|) && HeapBut(h', keys, child)
  {
    var h' := h[idx := h[child]][child := h[idx]];
    forall i | 1 <= i < |h'| && (i - 1) / 2 != child ensures Above(h', keys, i) {
      var p := (i - 1) / 2;
      if p == idx {
        assert i != idx;
      } else if i != idx {
        assert Above(h, keys, i);
      }
    }
    forall i | 1 <= i < |h'| && (i - 1) / 2 == child ensures keys[h'[(child - 1) / 2]] <= keys[h'[i]] {
      assert Above(h, keys, i);
    }
  }

  lemma HoleFits(h: seq<nat>, keys: seq<nat>, idx: nat)
    requires Items(h, |keys|) && HeapBut(h, keys, idx)
    requires forall i :: 1 <= i < |h| && (i - 1) / 2 == idx ==> keys[h[idx]] <= keys[h[i]]
    ensures IsHeap(h, keys)
  {
    forall i | 1 <= i < |h| ensures Above(h, keys, i) {
      if (i - 1) / 2 == idx { assert keys[h[idx]] <= keys[h[i]]; }
    }
  }

  /** Move the item at the root down to where it fits. */
  method PushDown(h: seq<nat>, keys: seq<nat>) returns (h': seq<nat>)
    requires Items(h, |keys|) && Distinct(h) && HeapBut(h, keys, 0)
    ensures Items(h', |keys|) && Distinct(h') && SameItems(h, h') && IsHeap(h', keys)
  {
    hide HeapBut, Distinct, IsHeap, SameItems;
    h' := h;
    var idx: nat := 0;
    SameSelf(h);
    while true
      invariant Items(h', |keys|) && Distinct(h') && SameItems(h, h') && HeapBut(h', keys, idx)
      decreases |h'| - idx
    {
      var left, right := 2 * idx + 1, 2 * idx + 2;
      if left >= |h'| {
        HoleFits(h', keys, idx);
        return;
      }
      var child := if right < |h'| && keys[h'[left]] > keys[h'[right]] then right else left;
      if keys[h'[idx]] > keys[h'[child]] {
        HoleMoves(h', keys, idx, child);
        Swapped(h', idx, child);
        var swapped := h'[idx := h'[child]][child := h'[idx]];
        SameTwice(h, h', swapped);
        h', idx := swapped, child;
      } else {
        HoleFits(h', keys, idx);
        return;
      }
    }
  }

  lemma SameSelf(h: seq<nat>)
    ensures SameItems(h, h)
  {
  }

  lemma SameHas(a: seq<nat>, b: seq<nat>, x: nat)
    requires SameItems(a, b)
    ensures x in a <==> x in b
  {
  }

  lemma SameTwice(a: seq<nat>, b: seq<nat>, c: seq<nat>)
    requires SameItems(a, b) && SameItems(b, c)
    ensures SameItems(a, c)
  {
  }

  /** Only the root's key changed: the root is the only hole. */
  lemma RootChanged(h: seq<nat>, keys: seq<nat>, keys': seq<nat>)
    requires h != [] && Items(h, |keys|) && |keys'| == |keys| && Distinct(h) && IsHeap(h, keys)
    requires forall k :: 0 <= k < |keys| && k != h[0] ==> keys'[k] == keys[k]
    ensures HeapBut(h, keys', 0)
  {
    forall i | 1 <= i < |h| && (i - 1) / 2 != 0 ensures Above(h, keys', i) {
      assert Above(h, keys, i);
      assert h[i] != h[0] && h[(i - 1) / 2] != h[0];
    }
  }

  lemma LastToRoot(h: seq<nat>, keys: seq<nat>)
    requires |h| > 1 && Items(h, |keys|) && Distinct(h) && IsHeap(h, keys)
    ensures var h' := [h[|h| - 1]] + h[1..|h| - 1];
            && Items(h', |keys|) && Distinct(h') && HeapBut(h', keys, 0)
            && forall x :: x in h' <==> x in h && x != h[0]
  {
    var n := |h| - 1;
    var h' := [h[n]] + h[1..n];
    assert forall i :: 1 <= i < n ==> h'[i] == h[i];
    assert h'[0] == h[n];
    forall i | 1 <= i < |h'| && (i - 1) / 2 != 0 ensures Above(h', keys, i) {
      assert Above(h, keys, i);
    }
    forall x | x in h && x != h[0] ensures x in h' {
      var i :| 0 <= i < |h| && h[i] == x;
      assert i == n || h'[i] == x;
    }
  }

  /** Remove the root. */
  method Poll(h: seq<nat>, keys: seq<nat>) returns (h': seq<nat>)
    requires h != [] && Items(h, |keys|) && Distinct(h) && IsHeap(h, keys)
    ensures Items(h', |keys|) && Distinct(h') && IsHeap(h', keys) && |h'| == |h| - 1
    ensures forall x :: x in h' <==> x in h && x != h[0]
  {
    hide HeapBut, IsHeap;
    if |h| == 1 {
      assert IsHeap([], keys) by { HoleFits0(keys); }
      return [];
    }
    LastToRoot(h, keys);
    h' := [h[|h| - 1]] + h[1..|h| - 1];
    if |h'| > 1 {
      h' := PushDown(h', keys);
    } else {
      OneItem(h', keys);
    }
  }

  lemma HoleFits0(keys: seq<nat>)
    ensures IsHeap([], keys)
  {
  }

  lemma OneItem(h: seq<nat>, keys: seq<nat>)
    requires |h| == 1 && Items(h, |keys|)
    ensures IsHeap(h, keys)
  {
  }

  /** Put an item behind the others and move it up. */
  method Offer(h: seq<nat>, keys: seq<nat>, item: nat) returns (h': seq<nat>)
    requires Items(h, |keys|) && Distinct(h) && IsHeap(h, keys) && item < |keys| && item !in h
    ensures Items(h', |keys|) && Distinct(h') && IsHeap(h', keys) && |h'| == |h| + 1
    ensures forall x :: x in h' <==> x in h || x == item
  {
    hide IsHeap, Distinct, SameItems;
    h' := h + [item];
    var idx: nat := |h|;
    SameSelf(h');
    assert Distinct(h') by { OfferDistinct(h, item); }
    assert HeapUp(h', keys, idx) by { OfferUp(h, keys, item); }
    while idx != 0
      invariant idx < |h'| == |h| + 1 && Items(h', |keys|) && Distinct(h') && SameItems(h + [item], h')
      invariant HeapUp(h', keys, idx)
    {
      var parent := (idx - 1) / 2;
      if keys[h'[idx]] > keys[h'[parent]] {
        UpFits(h', keys, idx);
        OfferedItems(h, item, h');
        return;
      }
      UpMoves(h', keys, idx);
      Swapped(h', parent, idx);
      var swapped := h'[parent := h'[idx]][idx := h'[parent]];
      SameTwice(h + [item], h', swapped);
      h', idx := swapped, parent;
    }
    UpRoot(h', keys);
    OfferedItems(h, item, h');
  }

  lemma OfferDistinct(h: seq<nat>, item: nat)
    requires Distinct(h) && item !in h
    ensures Distinct(h + [item])
  {
  }

  lemma OfferedItems(h: seq<nat>, item: nat, h': seq<nat>)
    requires SameItems(h + [item], h')
    ensures forall x :: x in h' <==> x in h || x == item
  {
    assert forall x :: x in h + [item] <==> x in h || x == item;
  }

  /** Every node but idx is in order, and idx's children are in order with idx's parent. */
  ghost predicate HeapUp(h: seq<nat>, keys: seq<nat>, idx: nat)
    requires Items(h, |keys|)
  {
    && (forall i :: 1 <= i < |h| && i != idx ==> Above(h, keys, i))
    && (forall i :: 1 <= i < |h| && (i - 1) / 2 == idx && idx >= 1 ==> keys[h[(idx - 1) / 2]] <= keys[h[i]])
  }

  lemma OfferUp(h: seq<nat>, keys: seq<nat>, item: nat)
    requires Items(h, |keys|) && IsHeap(h, keys) && item < |keys|
    ensures HeapUp(h + [item], keys, |h|)
  {
    forall i | 1 <= i < |h| + 1 && i != |h| ensures Above(h + [item], keys, i) {
      assert Above(h, keys, i);
    }
  }

  lemma UpFits(h: seq<nat>, keys: seq<nat>, idx: nat)
    requires Items(h, |keys|) && HeapUp(h, keys, idx) && 1 <= idx < |h|
    requires keys[h[(idx - 1) / 2]] < keys[h[idx]]
    ensures IsHeap(h, keys)
  {
  }

  lemma UpRoot(h: seq<nat>, keys: seq<nat>)
    requires Items(h, |keys|) && HeapUp(h, keys, 0)
    ensures IsHeap(h, keys)
  {
  }

  lemma UpMoves(h: seq<nat>, keys: seq<nat>, idx: nat)
    requires Items(h, |keys|) && HeapUp(h, keys, idx) && 1 <= idx < |h|
    requires keys[h[idx]] <= keys[h[(idx - 1) / 2]]
    ensures var p := (idx - 1) / 2;
            var h' := h[p := h[idx]][idx := h[p]];
            Items(h', |keys|) && HeapUp(h', keys, p)
  {
    var p := (idx - 1) / 2;
    var h' := h[p := h[idx]][idx := h[p]];
    forall i | 1 <= i < |h'| && i != p ensures Above(h', keys, i) {
      var q := (i - 1) / 2;
      assert i != idx ==> Above(h, keys, i);
      if q == p && i != idx { assert Above(h, keys, i); }
    }
    forall i | 1 <= i < |h'| && (i - 1) / 2 == p && p >= 1 ensures keys[h'[(p - 1) / 2]] <= keys[h'[i]] {
      assert Above(h, keys, p);
      assert i != idx ==> Above(h, keys, i);
    }
  }

  /** The items with the root's key, found by descending from the root while the key stays the same. */
  function Matching(h: seq<nat>, keys: seq<nat>, i: nat): (r: seq<nat>)
    requires Items(h, |keys|)
    decreases |h| - i
  {
    if i >= |h| || keys[h[i]] != keys[h[0]] then []
    else [h[i]] + Matching(h, keys, 2 * i + 1) + Matching(h, keys, 2 * i + 2)
  }

  /** Node j is i or below it. */
  ghost predicate Under(i: nat, j: nat) {
    j == i || (j > i && Under(i, (j - 1) / 2))
  }

  lemma {:induction false} UnderChild(i: nat, j: nat)
    requires Under(2 * i + 1, j) || Under(2 * i + 2, j)
    ensures Under(i, j) && j > i
  {
    var p := (j - 1) / 2;
    if j > 2 * i + 2 || (j == 2 * i + 2 && Under(2 * i + 1, j) && p > 2 * i) { UnderChild(i, p); }
  }

  /** The two subtrees of a node share nothing. */
  lemma {:induction false} Apart(i: nat, j: nat)
    requires Under(2 * i + 1, j) && Under(2 * i + 2, j)
    ensures false
  {
    if j > 2 * i + 2 { Apart(i, (j - 1) / 2); }
  }

  lemma {:induction false} MatchingSound(h: seq<nat>, keys: seq<nat>, i: nat, x: nat) returns (j: nat)
    requires Items(h, |keys|) && x in Matching(h, keys, i)
    ensures Under(i, j) && j < |h| && h[j] == x && keys[x] == keys[h[0]]
    decreases |h| - i
  {
    hide Under;
    assert Under(i, i) by { UnderSelf(i); }
    if x == h[i] {
      j := i;
    } else if x in Matching(h, keys, 2 * i + 1) {
      j := MatchingSound(h, keys, 2 * i + 1, x);
      UnderChild(i, j);
    } else {
      j := MatchingSound(h, keys, 2 * i + 2, x);
      UnderChild(i, j);
    }
  }

  lemma UnderSelf(i: nat)
    ensures Under(i, i)
  {
  }

  lemma MatchingStep(h: seq<nat>, keys: seq<nat>, p: nat, x: nat)
    requires Items(h, |keys|) && p < |h| && keys[h[p]] == keys[h[0]]
    ensures h[p] in Matching(h, keys, p)
    ensures x in Matching(h, keys, 2 * p + 1) || x in Matching(h, keys, 2 * p + 2) ==> x in Matching(h, keys, p)
  {
  }

  lemma {:induction false} MatchingReaches(h: seq<nat>, keys: seq<nat>, i: nat, x: nat)
    requires Items(h, |keys|) && IsHeap(h, keys) && i < |h| && keys[h[i]] == keys[h[0]] && x in Matching(h, keys, i)
    ensures x in Matching(h, keys, 0)
  {
    hide Matching;
    if i > 0 {
      var p := (i - 1) / 2;
      RootIsLeast(h, keys, p);
      assert Above(h, keys, i);
      MatchingStep(h, keys, p, x);
      MatchingReaches(h, keys, p, x);
    }
  }

  /** Descending from the root visits exactly the items that share its key. */
  lemma MatchingExact(h: seq<nat>, keys: seq<nat>, x: nat)
    requires h != [] && Items(h, |keys|) && IsHeap(h, keys)
    ensures x in Matching(h, keys, 0) <==> x in h && keys[x] == keys[h[0]]
  {
    hide Matching, Under;
    if x in h && keys[x] == keys[h[0]] {
      var i :| 0 <= i < |h| && h[i] == x;
      MatchingStep(h, keys, i, x);
      MatchingReaches(h, keys, i, x);
    }
    if x in Matching(h, keys, 0) { var _ := MatchingSound(h, keys, 0, x); }
  }

  /** And visits each of them once. */
  lemma {:induction false} MatchingOnce(h: seq<nat>, keys: seq<nat>, i: nat)
    requires Items(h, |keys|) && Distinct(h)
    ensures Distinct(Matching(h, keys, i))
    decreases |h| - i
  {
    if i < |h| && keys[h[i]] == keys[h[0]] {
      var a, b := Matching(h, keys, 2 * i + 1), Matching(h, keys, 2 * i + 2);
      MatchingOnce(h, keys, 2 * i + 1);
      MatchingOnce(h, keys, 2 * i + 2);
      assert Distinct([h[i]] + a + b) by {
        hide Matching;
        forall p, q | 0 <= p < |a| && 0 <= q < |b| ensures a[p] != b[q] { BranchesApart(h, keys, i, a[p], b[q]); }
        forall p | 0 <= p < |a| ensures a[p] != h[i] { BranchApart(h, keys, i, 2 * i + 1, a[p]); }
        forall q | 0 <= q < |b| ensures b[q] != h[i] { BranchApart(h, keys, i, 2 * i + 2, b[q]); }
      }
    }
  }

  lemma BranchApart(h: seq<nat>, keys: seq<nat>, i: nat, c: nat, x: nat)
    requires Items(h, |keys|) && Distinct(h) && i < |h| && (c == 2 * i + 1 || c == 2 * i + 2) && x in Matching(h, keys, c)
    ensures x != h[i]
  {
    hide Matching, Under;
    var j := MatchingSound(h, keys, c, x);
    UnderChild(i, j);
  }

  lemma BranchesApart(h: seq<nat>, keys: seq<nat>, i: nat, x: nat, y: nat)
    requires Items(h, |keys|) && Distinct(h) && i < |h|
    requires x in Matching(h, keys, 2 * i + 1) && y in Matching(h, keys, 2 * i + 2)
    ensures x != y
  {
    hide Matching, Under;
    var j := MatchingSound(h, keys, 2 * i + 1, x);
    var k := MatchingSound(h, keys, 2 * i + 2, y);
    if j == k { Apart(i, j); }
  }
}
