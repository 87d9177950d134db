/** Sorted contents: the order on keys, searching, and the plain map that a sorted sequence of items stands for. */
module SortedItems {
  import opened RedBlackTree

  /** What the source expects of a comparison function: the sign of a total order. */
  ghost predicate TotalOrder<K(!new)>(cmpr: (K, K) -> int) {
    && (forall a, b {:trigger cmpr(a, b)} :: (cmpr(a, b) == 0 <==> a == b) && (cmpr(a, b) > 0 <==> cmpr(b, a) < 0))
    && (forall a, b, c {:trigger cmpr(a, b), cmpr(b, c)} :: cmpr(a, b) < 0 && cmpr(b, c) < 0 ==> cmpr(a, c) < 0)
  }

  ghost predicate Sorted<K, V>(cmpr: (K, K) -> int, s: seq<Item<K, V>>) {
    forall i, j :: 0 <= i < j < |s| ==> cmpr(s[i].key, s[j].key) < 0
  }

  ghost predicate AllBelow<K, V>(cmpr: (K, K) -> int, s: seq<Item<K, V>>, k: K) {
    forall i :: 0 <= i < |s| ==> cmpr(s[i].key, k) < 0
  }

  ghost predicate AllAbove<K, V>(cmpr: (K, K) -> int, s: seq<Item<K, V>>, k: K) {
    forall i :: 0 <= i < |s| ==> cmpr(k, s[i].key) < 0
  }

  lemma SortedParts<K, V>(cmpr: (K, K) -> int, a: seq<Item<K, V>>, x: Item<K, V>, b: seq<Item<K, V>>)
    requires Sorted(cmpr, a + [x] + b)
    ensures Sorted(cmpr, a) && Sorted(cmpr, b) && AllBelow(cmpr, a, x.key) && AllAbove(cmpr, b, x.key)
  {
    var s := a + [x] + b;
    assert forall i | 0 <= i < |a| :: a[i] == s[i];
    assert s[|a|] == x;
    assert forall i | 0 <= i < |b| :: b[i] == s[|a| + 1 + i];
  }

  lemma SortedWithout<K, V>(cmpr: (K, K) -> int, a: seq<Item<K, V>>, x: Item<K, V>, b: seq<Item<K, V>>)
    requires Sorted(cmpr, a + [x] + b)
    ensures Sorted(cmpr, a + b)
  {
    var s, u := a + [x] + b, a + b;
    forall i, j | 0 <= i < j < |u| ensures cmpr(u[i].key, u[j].key) < 0 {
      var i', j' := if i < |a| then i else i + 1, if j < |a| then j else j + 1;
      assert u[i] == s[i'] && u[j] == s[j'];
    }
  }

  lemma SortedJoin<K, V>(cmpr: (K, K) -> int, a: seq<Item<K, V>>, x: Item<K, V>, b: seq<Item<K, V>>)
    requires Sorted(cmpr, a + b) && AllBelow(cmpr, a, x.key) && AllAbove(cmpr, b, x.key)
    ensures Sorted(cmpr, a + [x] + b)
  {
    var s, u := a + [x] + b, a + b;
    forall i, j | 0 <= i < j < |s| ensures cmpr(s[i].key, s[j].key) < 0 {
      var i', j' := if i > |a| then i - 1 else i, if j > |a| then j - 1 else j;
      assert i != |a| ==> s[i] == u[i'];
      assert j != |a| ==> s[j] == u[j'];
      assert i == |a| ==> s[j] == b[j - |a| - 1];
      assert j == |a| ==> s[i] == a[i];
    }
  }

  /** Everything before an item below k is below k; everything after an item above k is above k. */
  lemma BeyondNode<K(!new), V>(cmpr: (K, K) -> int, a: seq<Item<K, V>>, x: Item<K, V>, b: seq<Item<K, V>>, k: K)
    requires TotalOrder(cmpr) && Sorted(cmpr, a + [x] + b)
    ensures cmpr(k, x.key) > 0 ==> AllBelow(cmpr, a + [x], k)
    ensures cmpr(k, x.key) < 0 ==> AllAbove(cmpr, [x] + b, k)
  {
    SortedParts(cmpr, a, x, b);
    if cmpr(k, x.key) > 0 {
      assert cmpr(x.key, k) < 0;
      forall i | 0 <= i < |a| ensures cmpr(a[i].key, k) < 0 {
        assert cmpr(a[i].key, x.key) < 0;
      }
    }
    if cmpr(k, x.key) < 0 {
      forall i | 0 <= i < |b| ensures cmpr(k, b[i].key) < 0 {
        assert cmpr(x.key, b[i].key) < 0;
      }
    }
  }

  // ---------- as a map ----------

  ghost function Keys<K, V>(s: seq<Item<K, V>>): set<K> {
    set x | x in s :: x.key
  }

  /** The plain map: later items would win, but keys are distinct in a sorted sequence. */
  ghost function ToMap<K, V>(s: seq<Item<K, V>>): map<K, V> {
    if s == [] then map[] else ToMap(s[..|s| - 1])[s[|s| - 1].key := s[|s| - 1].el]
  }

  lemma {:induction false} ToMapHas<K(!new), V>(cmpr: (K, K) -> int, s: seq<Item<K, V>>, i: nat)
    requires TotalOrder(cmpr) && Sorted(cmpr, s) && i < |s|
    ensures s[i].key in ToMap(s) && ToMap(s)[s[i].key] == s[i].el
  {
    var n := |s| - 1;
    if i < n {
      assert s[..n][i] == s[i];
      ToMapHas(cmpr, s[..n], i);
      assert cmpr(s[i].key, s[n].key) < 0;
      assert s[i].key != s[n].key;
    }
  }

  lemma {:induction false} ToMapKey<K, V>(s: seq<Item<K, V>>, k: K) returns (i: nat)
    requires k in ToMap(s)
    ensures i < |s| && s[i].key == k
  {
    var n := |s| - 1;
    if s[n].key == k {
      i := n;
    } else {
      i := ToMapKey(s[..n], k);
    }
  }

  lemma {:induction false} ToMapConcat<K, V>(a: seq<Item<K, V>>, b: seq<Item<K, V>>)
    ensures ToMap(a + b) == ToMap(a) + ToMap(b)
  {
    if b == [] {
      assert a + b == a;
    } else {
      var n := |b| - 1;
      ToMapConcat(a, b[..n]);
      assert (a + b)[..|a + b| - 1] == a + b[..n];
    }
  }

  lemma NotIn<K(!new), V>(cmpr: (K, K) -> int, s: seq<Item<K, V>>, k: K)
    requires TotalOrder(cmpr) && (AllBelow(cmpr, s, k) || AllAbove(cmpr, s, k))
    ensures k !in ToMap(s)
  {
    assert cmpr(k, k) == 0;
    if k in ToMap(s) {
      var i := ToMapKey(s, k);
      assert false;
    }
  }

  lemma ToMapMiddle<K, V>(a: seq<Item<K, V>>, x: Item<K, V>, b: seq<Item<K, V>>)
    ensures ToMap(a + [x] + b) == ToMap(a)[x.key := x.el] + ToMap(b)
  {
    ToMapConcat(a + [x], b);
    assert (a + [x])[..|a|] == a;
  }

  /** Adding an item between smaller and larger ones adds its binding. */
  lemma ToMapInsert<K(!new), V>(cmpr: (K, K) -> int, a: seq<Item<K, V>>, x: Item<K, V>, b: seq<Item<K, V>>)
    requires TotalOrder(cmpr) && AllBelow(cmpr, a, x.key) && AllAbove(cmpr, b, x.key)
    ensures x.key !in ToMap(a + b) && ToMap(a + [x] + b) == ToMap(a + b)[x.key := x.el]
  {
    hide ToMap, TotalOrder, AllBelow, AllAbove;
    NotIn(cmpr, a, x.key);
    NotIn(cmpr, b, x.key);
    ToMapConcat(a, b);
    ToMapMiddle(a, x, b);
    UpdateFirst(ToMap(a), ToMap(b), x.key, x.el);
  }

  lemma UpdateFirst<K, V>(m: map<K, V>, n: map<K, V>, k: K, v: V)
    requires k !in n
    ensures m[k := v] + n == (m + n)[k := v]
  {}

  // ---------- removing ----------

  /** s' is s without its item x. */
  ghost predicate Removed<K, V>(s: seq<Item<K, V>>, s': seq<Item<K, V>>, x: Item<K, V>) {
    exists i :: 0 <= i < |s| && s[i] == x && s' == s[..i] + s[i + 1..]
  }

  lemma RemovedMiddle<K, V>(a: seq<Item<K, V>>, x: Item<K, V>, b: seq<Item<K, V>>)
    ensures Removed(a + [x] + b, a + b, x)
  {
    var s := a + [x] + b;
    assert s[|a|] == x && s[..|a|] == a && s[|a| + 1..] == b;
  }

  lemma RemovedParts<K, V>(s: seq<Item<K, V>>, s': seq<Item<K, V>>, x: Item<K, V>)
    returns (a: seq<Item<K, V>>, b: seq<Item<K, V>>)
    requires Removed(s, s', x)
    ensures s == a + [x] + b && s' == a + b
  {
    var i :| 0 <= i < |s| && s[i] == x && s' == s[..i] + s[i + 1..];
    a, b := s[..i], s[i + 1..];
  }

  /** What removing an item does to the order and to the plain map. */
  lemma RemovedFromMap<K(!new), V>(cmpr: (K, K) -> int, s: seq<Item<K, V>>, s': seq<Item<K, V>>, x: Item<K, V>)
    requires TotalOrder(cmpr) && Sorted(cmpr, s) && Removed(s, s', x)
    ensures Sorted(cmpr, s') && |s'| == |s| - 1 && ToMap(s') == ToMap(s) - {x.key}
    ensures forall y :: y in s' ==> y in s
  {
    hide TotalOrder, ToMap, Removed, Sorted;
    var a, b := RemovedParts(s, s', x);
    SortedParts(cmpr, a, x, b);
    SortedWithout(cmpr, a, x, b);
    ToMapInsert(cmpr, a, x, b);
    UndoUpdate(ToMap(a + b), x.key, x.el);
  }

  lemma UndoUpdate<K, V>(m: map<K, V>, k: K, v: V)
    requires k !in m
    ensures m[k := v] - {k} == m
  {}

  /** A sorted sequence splits around an item in one way only. */
  lemma UniqueSplit<K(!new), V>(cmpr: (K, K) -> int, a: seq<Item<K, V>>, b: seq<Item<K, V>>,
                                a': seq<Item<K, V>>, b': seq<Item<K, V>>, x: Item<K, V>)
    requires TotalOrder(cmpr) && Sorted(cmpr, a + [x] + b) && a + [x] + b == a' + [x] + b'
    ensures a == a' && b == b'
  {
    var s := a + [x] + b;
    assert s[|a|] == x && (a' + [x] + b')[|a'|] == x;
    OnePlace(cmpr, s, |a|, |a'|);
    assert a == s[..|a|] && a' == s[..|a'|] && b == s[|a| + 1..] && b' == s[|a'| + 1..];
  }

  lemma OnePlace<K(!new), V>(cmpr: (K, K) -> int, s: seq<Item<K, V>>, i: nat, j: nat)
    requires TotalOrder(cmpr) && Sorted(cmpr, s) && i < |s| && j < |s| && s[i].key == s[j].key
    ensures i == j
  {
    assert cmpr(s[i].key, s[j].key) == 0;
  }

  /** Removing the item d next to x and then putting d into the place of x removes x. */
  lemma RemovedByTakingNext<K(!new), V>(cmpr: (K, K) -> int, a: seq<Item<K, V>>, x: Item<K, V>, d: Item<K, V>,
                                        c: seq<Item<K, V>>, a': seq<Item<K, V>>, b': seq<Item<K, V>>)
    requires TotalOrder(cmpr) && Sorted(cmpr, a + [x] + [d] + c)
    requires a + [x] + c == a' + [x] + b'
    ensures Removed(a + [x] + [d] + c, a' + [d] + b', x)
  {
    SortedWithout(cmpr, a + [x], d, c);
    UniqueSplit(cmpr, a, c, a', b', x);
    RemovedMiddle(a, x, [d] + c);
    assert a + [x] + [d] + c == a + [x] + ([d] + c) && a + [d] + c == a + ([d] + c);
  }

  // ---------- bounds ----------

  /** i is the first position with a key not below k (dir), or the last with a key not above k. */
  ghost predicate IsBound<K, V>(cmpr: (K, K) -> int, s: seq<Item<K, V>>, k: K, dir: bool, i: int) {
    forall j :: 0 <= j < |s| ==> if dir then cmpr(s[j].key, k) < 0 <==> j < i else cmpr(s[j].key, k) > 0 <==> j > i
  }

  lemma BoundInGap<K(!new), V>(cmpr: (K, K) -> int, a: seq<Item<K, V>>, b: seq<Item<K, V>>, k: K, dir: bool)
    requires TotalOrder(cmpr) && AllBelow(cmpr, a, k) && AllAbove(cmpr, b, k)
    ensures IsBound(cmpr, a + b, k, dir, if dir then |a| else |a| - 1)
  {
    var s := a + b;
    forall j | 0 <= j < |s|
      ensures cmpr(s[j].key, k) < 0 <==> j < |a|
      ensures cmpr(s[j].key, k) > 0 <==> j >= |a|
    {
      if j < |a| {
        assert s[j] == a[j];
      } else {
        assert s[j] == b[j - |a|] && cmpr(k, s[j].key) < 0;
      }
    }
  }

  lemma BoundAtItem<K(!new), V>(cmpr: (K, K) -> int, a: seq<Item<K, V>>, x: Item<K, V>, b: seq<Item<K, V>>, k: K,
                                dir: bool)
    requires TotalOrder(cmpr) && Sorted(cmpr, a + [x] + b) && cmpr(x.key, k) == 0
    ensures IsBound(cmpr, a + [x] + b, k, dir, |a|)
  {
    var s := a + [x] + b;
    assert x.key == k && s[|a|] == x;
    forall j | 0 <= j < |s|
      ensures cmpr(s[j].key, k) < 0 <==> j < |a|
      ensures cmpr(s[j].key, k) > 0 <==> j > |a|
    {
      assert j < |a| ==> cmpr(s[j].key, s[|a|].key) < 0;
      assert j > |a| ==> cmpr(s[|a|].key, s[j].key) < 0;
    }
  }
}
