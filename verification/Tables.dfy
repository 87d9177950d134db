/** The whole state of a hash map as a value, its invariant, and what each elementary step of the map does to it. */
module Tables {
  import opened Metadata
  import opened Probe
  import opened Chains

  /** Bucket memory: not yet written, or a key with its element. */
  datatype Slot<K, V> = Raw | Pair(key: K, el: V)

  /** mask is the capacity minus one, or zero for the placeholder map. at says where each key is. */
  datatype Table<!K, V> = Table(
    mask: nat, md: seq<Metadatum>, slots: seq<Slot<K, V>>,
    links: Links, contents: map<K, V>, at: map<K, nat>)

  function Capacity(mask: nat): nat {
    if mask == 0 then 0 else mask + 1
  }

  /** The four most significant bits of a 64-bit hash code. */
  function HashFrag(h: nat): (f: nat)
    ensures f < 16
  {
    h / 0x1000_0000_0000_0000 % 16
  }

  function Home(mask: nat, h: nat): (b: nat)
    ensures b <= mask
  {
    h % (mask + 1)
  }

  /** The metadata array has four entries more than there are buckets; the first of them stops iteration. */
  ghost predicate Shaped<K, V>(t: Table<K, V>) {
    var n := Capacity(t.mask);
    && |t.slots| == n
    && (n == 0 ==> t.md == [EMPTY])
    && (n != 0 ==> IsPow2(n) && |t.md| == n + 4 && t.md[n..] == [Metadatum(0, false, 1), EMPTY, EMPTY, EMPTY])
  }

  /** Bucket i holds a key that is recorded to be there. */
  ghost predicate Filed<K, V>(t: Table<K, V>, i: nat)
    requires Shaped(t) && i < Capacity(t.mask)
  {
    t.slots[i].Pair? && t.slots[i].key in t.contents && t.slots[i].key in t.at && t.at[t.slots[i].key] == i
  }

  /** The binding of k is in the bucket recorded for it. */
  ghost predicate Found<K, V>(t: Table<K, V>, skip: int, k: K)
    requires Shaped(t) && k in t.contents
  {
    k in t.at && Live(Capacity(t.mask), t.md, skip, t.at[k]) && t.slots[t.at[k]] == Pair(k, t.contents[k])
  }

  /** Every occupied bucket other than skip holds one binding, and every binding is in one such bucket. */
  ghost predicate Holds<K, V>(t: Table<K, V>, skip: int)
    requires Shaped(t)
  {
    && (forall i {:trigger Filed(t, i)} :: Live(Capacity(t.mask), t.md, skip, i) ==> Filed(t, i))
    && (forall k {:trigger Found(t, skip, k)} :: k in t.contents ==> Found(t, skip, k))
  }

  /** Bucket i holds a key whose hash code gives the recorded home and fragment, at its displacement from home. */
  ghost predicate Placed<K, V>(t: Table<K, V>, hash: K -> nat, i: nat)
    requires Shaped(t) && |t.links.home| == |t.links.at| == Capacity(t.mask) && i < Capacity(t.mask)
  {
    && t.slots[i].Pair?
    && t.links.home[i] == Home(t.mask, hash(t.slots[i].key))
    && t.md[i].frag == HashFrag(hash(t.slots[i].key))
    && Bucket(t.mask, t.links.home[i], t.links.at[i]) == i
  }

  /** hole is the bucket, if any, whose key has been unlinked from its chain; skip the bucket, if any, whose contents
      are stale. */
  ghost predicate Inv<K, V>(t: Table<K, V>, hash: K -> nat, hole: int, skip: int) {
    && Shaped(t)
    && Chained(Capacity(t.mask), t.md, t.links, hole)
    && (forall i {:trigger Placed(t, hash, i)} :: Live(Capacity(t.mask), t.md, hole, i) ==> Placed(t, hash, i))
    && Holds(t, skip)
  }

  ghost function Linked<K, V>(t: Table<K, V>, prev: nat, e: nat, d: nat, frag: nat, slot: Slot<K, V>): Table<K, V>
    requires Shaped(t) && Sized(Capacity(t.mask), t.md, t.links)
    requires prev < Capacity(t.mask) && e < Capacity(t.mask)
  {
    t.(md := t.md[e := Metadatum(frag, false, t.md[prev].disp)][prev := t.md[prev].(disp := d)],
       slots := t.slots[e := slot],
       links := Links(t.links.home[e := t.links.home[prev]], t.links.at[e := d],
                      t.links.next[e := t.links.next[prev]][prev := e]))
  }

  /** Where a key can be written: an empty bucket, at a displacement of its home that the chain member prev skips. */
  ghost predicate Linkable<K, V>(t: Table<K, V>, hole: int, prev: nat, e: nat, d: nat)
    requires Shaped(t) && Sized(Capacity(t.mask), t.md, t.links)
  {
    && Live(Capacity(t.mask), t.md, hole, prev)
    && t.links.at[prev] < d < t.md[prev].disp
    && e < Capacity(t.mask) && t.md[e] == EMPTY && e != hole
    && e == Bucket(t.mask, t.links.home[prev], d)
  }

  /** Writing a new binding into an empty bucket and linking it adds the binding. */
  lemma LinkNew<K, V>(t: Table<K, V>, hash: K -> nat, prev: nat, e: nat, d: nat, k: K, v: V) returns (t': Table<K, V>)
    requires Inv(t, hash, -1, -1) && Linkable(t, -1, prev, e, d)
    requires k !in t.contents && t.links.home[prev] == Home(t.mask, hash(k))
    ensures t' == Linked(t, prev, e, d, HashFrag(hash(k)), Pair(k, v))
                  .(contents := t.contents[k := v], at := t.at[k := e])
    ensures Inv(t', hash, -1, -1) && t'.md[e] != EMPTY && t'.slots[e] == Pair(k, v)
  {
    hide Bucket, HashFrag, Home;
    t' := Linked(t, prev, e, d, HashFrag(hash(k)), Pair(k, v)).(contents := t.contents[k := v], at := t.at[k := e]);
    LinkPlaced(t, hash, -1, prev, e, d, k, v, t');
    hide Chained;
    AddHolds(t, -1, t', e, k, v);
  }

  /** The part of linking that does not depend on which bindings there are. */
  lemma LinkPlaced<K, V>(t: Table<K, V>, hash: K -> nat, hole: int, prev: nat, e: nat, d: nat, k: K, v: V,
                         t': Table<K, V>)
    requires Shaped(t) && Chained(Capacity(t.mask), t.md, t.links, hole) && Linkable(t, hole, prev, e, d)
    requires forall i :: Live(Capacity(t.mask), t.md, hole, i) ==> Placed(t, hash, i)
    requires t.links.home[prev] == Home(t.mask, hash(k))
    requires var l := Linked(t, prev, e, d, HashFrag(hash(k)), Pair(k, v));
      t'.mask == l.mask && t'.md == l.md && t'.slots == l.slots && t'.links == l.links
    ensures Shaped(t') && Chained(Capacity(t.mask), t'.md, t'.links, hole)
    ensures forall i :: Live(Capacity(t.mask), t'.md, hole, i) ==> Placed(t', hash, i)
    ensures forall i :: Live(Capacity(t.mask), t'.md, -1, i) <==> Live(Capacity(t.mask), t.md, -1, i) || i == e
  {
    hide Bucket, HashFrag, Home;
    var n := Capacity(t.mask);
    LinkKeepsChains(n, t.md, t.links, hole, t.links.home[prev], prev, e, d, HashFrag(hash(k)), t'.md, t'.links);
    assert t'.md[prev] != EMPTY;
    hide Chained;
    forall i | Live(n, t'.md, hole, i) ensures Placed(t', hash, i) {
      assert i != e ==> Placed(t, hash, i);
    }
  }

  /** Moving the unlinked key of bucket b to an empty bucket and linking it there repairs the chains; only bucket b,
      now stale, is left to be overwritten. */
  lemma LinkMoved<K, V>(t: Table<K, V>, hash: K -> nat, b: nat, prev: nat, e: nat, d: nat) returns (t': Table<K, V>)
    requires Inv(t, hash, b, -1) && Linkable(t, b, prev, e, d)
    requires b < Capacity(t.mask) && t.md[b] != EMPTY && Placed(t, hash, b)
    requires t.links.home[prev] == t.links.home[b]
    ensures t' == Linked(t, prev, e, d, t.md[b].frag, t.slots[b]).(at := t.at[t.slots[b].key := e])
    ensures Inv(t', hash, b, b) && t'.md[b] != EMPTY
  {
    hide Bucket, HashFrag, Home;
    t' := Linked(t, prev, e, d, t.md[b].frag, t.slots[b]).(at := t.at[t.slots[b].key := e]);
    LinkPlaced(t, hash, b, prev, e, d, t.slots[b].key, t.slots[b].el, t');
    hide Chained;
    MoveHolds(t, t', b, e);
  }

  lemma MoveHolds<K, V>(t: Table<K, V>, t': Table<K, V>, b: nat, e: nat)
    requires Shaped(t) && Shaped(t') && t'.mask == t.mask && e < Capacity(t.mask)
    requires Holds(t, -1) && Live(Capacity(t.mask), t.md, -1, b) && !Live(Capacity(t.mask), t.md, -1, e)
    requires forall i :: Live(Capacity(t.mask), t'.md, -1, i) <==> Live(Capacity(t.mask), t.md, -1, i) || i == e
    requires t'.slots == t.slots[e := t.slots[b]] && t.slots[b].Pair?
    requires t'.contents == t.contents && t'.at == t.at[t.slots[b].key := e]
    ensures Holds(t', b)
  {
    assert Filed(t, b);
    forall i | Live(Capacity(t.mask), t'.md, b, i) ensures Filed(t', i) {
      assert Live(Capacity(t.mask), t'.md, -1, i);
      assert i != e ==> Filed(t, i);
    }
    forall k | k in t'.contents ensures Found(t', b, k) {
      assert Found(t, -1, k);
    }
  }

  /** Taking the link from prev to b out of the chain makes b the hole. */
  lemma Unlink<K, V>(t: Table<K, V>, hash: K -> nat, prev: nat, b: nat) returns (t': Table<K, V>)
    requires Inv(t, hash, -1, -1)
    requires Live(Capacity(t.mask), t.md, -1, prev) && t.md[prev].disp < DISPLACEMENT_LIMIT && t.links.next[prev] == b
    ensures Live(Capacity(t.mask), t.md, -1, b) && prev != b && Placed(t, hash, b)
    ensures t' == t.(md := t.md[prev := t.md[prev].(disp := t.md[b].disp)],
                     links := t.links.(next := t.links.next[prev := t.links.next[b]]))
    ensures Inv(t', hash, b, -1) && Placed(t', hash, b) && t'.md[b] == t.md[b] != EMPTY
  {
    hide Bucket, HashFrag, Home;
    var n := Capacity(t.mask);
    assert Local(n, t.md, t.links, -1, prev);
    t' := t.(md := t.md[prev := t.md[prev].(disp := t.md[b].disp)],
             links := t.links.(next := t.links.next[prev := t.links.next[b]]));
    UnlinkKeepsChains(n, t.md, t.links, prev, b, t'.md, t'.links);
    assert Local(n, t.md, t.links, -1, b);
    assert Placed(t, hash, b);
    assert Shaped(t');
    forall i | Live(n, t'.md, b, i) ensures Placed(t', hash, i) {
      assert Placed(t, hash, i);
    }
    hide Chained;
    SameHolds(t, t');
  }

  lemma SameHolds<K, V>(t: Table<K, V>, t': Table<K, V>)
    requires Shaped(t) && Shaped(t') && t'.mask == t.mask && Holds(t, -1)
    requires forall i :: Live(Capacity(t.mask), t'.md, -1, i) <==> Live(Capacity(t.mask), t.md, -1, i)
    requires t'.slots == t.slots && t'.contents == t.contents && t'.at == t.at
    ensures Holds(t', -1)
  {
    forall i | Live(Capacity(t.mask), t'.md, -1, i) ensures Filed(t', i) {
      assert Filed(t, i);
    }
    forall k | k in t'.contents ensures Found(t', -1, k) {
      assert Found(t, -1, k);
    }
  }

  /** Writing a new binding at the start of a new chain, over an empty bucket or over a stale one. */
  lemma StartChain<K, V>(t: Table<K, V>, hash: K -> nat, hole: int, h: nat, k: K, v: V) returns (t': Table<K, V>)
    requires Inv(t, hash, hole, hole)
    requires h < Capacity(t.mask) && h == Home(t.mask, hash(k))
    requires !Live(Capacity(t.mask), t.md, hole, h) && (0 <= hole ==> hole == h)
    requires k !in t.contents
    ensures Sized(Capacity(t.mask), t.md, t.links)
    ensures t' == t.(md := t.md[h := Metadatum(HashFrag(hash(k)), true, DISPLACEMENT_LIMIT)],
                     slots := t.slots[h := Pair(k, v)],
                     links := t.links.(home := t.links.home[h := h], at := t.links.at[h := 0]),
                     contents := t.contents[k := v], at := t.at[k := h])
    ensures Inv(t', hash, -1, -1)
  {
    HomeIsFirst(t.mask, h);
    hide Bucket, HashFrag, Home;
    var n := Capacity(t.mask);
    t' := t.(md := t.md[h := Metadatum(HashFrag(hash(k)), true, DISPLACEMENT_LIMIT)],
             slots := t.slots[h := Pair(k, v)],
             links := t.links.(home := t.links.home[h := h], at := t.links.at[h := 0]),
             contents := t.contents[k := v], at := t.at[k := h]);
    HeadKeepsChains(n, t.md, t.links, hole, h, HashFrag(hash(k)), t'.md, t'.links);
    hide Chained;
    assert Shaped(t');
    AddHolds(t, hole, t', h, k, v);
    forall i | Live(n, t'.md, -1, i) ensures Placed(t', hash, i) {
      assert i != h ==> Placed(t, hash, i);
    }
  }

  lemma AddHolds<K, V>(t: Table<K, V>, skip: int, t': Table<K, V>, e: nat, k: K, v: V)
    requires Shaped(t) && Shaped(t') && t'.mask == t.mask && e < Capacity(t.mask)
    requires Holds(t, skip) && !Live(Capacity(t.mask), t.md, skip, e) && (0 <= skip ==> skip == e)
    requires k !in t.contents
    requires forall i :: 0 <= i < Capacity(t.mask) && i != e ==> (t'.md[i] != EMPTY <==> t.md[i] != EMPTY)
    requires t'.md[e] != EMPTY && t'.slots == t.slots[e := Pair(k, v)]
    requires t'.contents == t.contents[k := v] && t'.at == t.at[k := e]
    ensures Holds(t', -1)
  {
    forall i | Live(Capacity(t.mask), t'.md, -1, i) ensures Filed(t', i) {
      assert i != e ==> Filed(t, i);
    }
    forall k' | k' in t'.contents ensures Found(t', -1, k') {
      assert k' != k ==> Found(t, skip, k');
    }
  }

  /** The table without the key in bucket b. */
  ghost function Without<K, V>(t: Table<K, V>, b: nat): Table<K, V>
    requires Shaped(t) && b < Capacity(t.mask) && t.slots[b].Pair?
  {
    t.(md := t.md[b := EMPTY], contents := t.contents - {t.slots[b].key}, at := t.at - {t.slots[b].key})
  }

  lemma WithoutHolds<K, V>(t: Table<K, V>, hash: K -> nat, hole: int, b: nat)
    requires Shaped(t) && Holds(t, -1) && Live(Capacity(t.mask), t.md, -1, b) && Filed(t, b)
    requires |t.links.home| == |t.links.at| == Capacity(t.mask)
    requires 0 <= hole ==> hole == b
    requires forall i {:trigger Placed(t, hash, i)} :: Live(Capacity(t.mask), t.md, hole, i) ==> Placed(t, hash, i)
    ensures Shaped(Without(t, b)) && Holds(Without(t, b), -1)
    ensures forall i {:trigger Placed(Without(t, b), hash, i)} ::
              Live(Capacity(t.mask), Without(t, b).md, -1, i) ==> Placed(Without(t, b), hash, i)
  {
    hide Bucket, HashFrag, Home;
    var n, t' := Capacity(t.mask), Without(t, b);
    forall i | Live(n, t'.md, -1, i) ensures Placed(t', hash, i) {
      assert Placed(t, hash, i);
    }
    forall i | Live(n, t'.md, -1, i) ensures Filed(t', i) {
      assert Filed(t, i);
    }
    forall k | k in t'.contents ensures Found(t', -1, k) {
      assert Found(t, -1, k);
    }
  }

  /** Emptying the unlinked bucket removes its binding. */
  lemma RemoveUnlinked<K, V>(t: Table<K, V>, hash: K -> nat, b: nat)
    requires Inv(t, hash, b, -1) && Live(Capacity(t.mask), t.md, -1, b)
    ensures Filed(t, b) && Inv(Without(t, b), hash, -1, -1)
  {
    hide Bucket, HashFrag, Home;
    assert Filed(t, b);
    EmptyTheHole(Capacity(t.mask), t.md, t.links, b);
    WithoutHolds(t, hash, b, b);
  }

  /** Emptying the only bucket of a chain removes its binding. */
  lemma RemoveSole<K, V>(t: Table<K, V>, hash: K -> nat, b: nat)
    requires Inv(t, hash, -1, -1)
    requires Live(Capacity(t.mask), t.md, -1, b) && t.md[b].home && t.md[b].disp == DISPLACEMENT_LIMIT
    ensures Filed(t, b) && Inv(Without(t, b), hash, -1, -1)
  {
    hide Bucket, HashFrag, Home;
    assert Filed(t, b);
    DropSoleKeepsChains(Capacity(t.mask), t.md, t.links, b);
    WithoutHolds(t, hash, -1, b);
  }

  /** Letting the unlinked key of bucket b replace the one in bucket a of the same chain removes the binding of a. */
  lemma ReplaceByUnlinked<K, V>(t: Table<K, V>, hash: K -> nat, a: nat, b: nat) returns (t': Table<K, V>)
    requires Inv(t, hash, b, -1) && Live(Capacity(t.mask), t.md, -1, b) && Placed(t, hash, b)
    requires Live(Capacity(t.mask), t.md, b, a) && t.links.home[a] == t.links.home[b]
    ensures t.slots[a].Pair? && t.slots[b].Pair? && t.slots[a].key in t.contents
    ensures t' == t.(md := t.md[a := t.md[a].(frag := t.md[b].frag)][b := EMPTY],
                     slots := t.slots[a := t.slots[b]],
                     contents := t.contents - {t.slots[a].key},
                     at := (t.at - {t.slots[a].key})[t.slots[b].key := a])
    ensures Inv(t', hash, -1, -1) && t'.md[a] != EMPTY
  {
    hide Bucket, HashFrag, Home;
    var n := Capacity(t.mask);
    assert Placed(t, hash, a) && Local(n, t.md, t.links, b, a) && Filed(t, a) && Filed(t, b);
    var md := t.md[a := t.md[a].(frag := t.md[b].frag)];
    t' := t.(md := md[b := EMPTY], slots := t.slots[a := t.slots[b]], contents := t.contents - {t.slots[a].key},
             at := (t.at - {t.slots[a].key})[t.slots[b].key := a]);
    FragmentKeepsChains(n, t.md, t.links, b, a, t.md[b].frag);
    EmptyTheHole(n, md, t.links, b);
    hide Chained;
    assert Shaped(t');
    ReplaceHolds(t, t', a, b);
    forall i | Live(n, t'.md, -1, i) ensures Placed(t', hash, i) {
      assert Placed(t, hash, i);
    }
  }

  lemma ReplaceHolds<K, V>(t: Table<K, V>, t': Table<K, V>, a: nat, b: nat)
    requires Shaped(t) && Shaped(t') && t'.mask == t.mask && Holds(t, -1)
    requires Live(Capacity(t.mask), t.md, -1, a) && Live(Capacity(t.mask), t.md, -1, b) && a != b
    requires forall i :: Live(Capacity(t.mask), t'.md, -1, i) <==> Live(Capacity(t.mask), t.md, -1, i) && i != b
    requires t.slots[a].Pair? && t.slots[b].Pair? && t'.slots == t.slots[a := t.slots[b]]
    requires t'.contents == t.contents - {t.slots[a].key}
    requires t'.at == (t.at - {t.slots[a].key})[t.slots[b].key := a]
    ensures Holds(t', -1)
  {
    assert Filed(t, a) && Filed(t, b);
    forall i | Live(Capacity(t.mask), t'.md, -1, i) ensures Filed(t', i) {
      assert Filed(t, i);
    }
    forall k | k in t'.contents ensures Found(t', -1, k) {
      assert Found(t, -1, k);
    }
  }

  /** Overwriting the element of a bound key. */
  lemma Overwrite<K, V>(t: Table<K, V>, hash: K -> nat, b: nat, k: K, v: V) returns (t': Table<K, V>)
    requires Inv(t, hash, -1, -1)
    requires Live(Capacity(t.mask), t.md, -1, b) && t.slots[b].Pair? && t.slots[b].key == k
    ensures k in t.contents
    ensures t' == t.(slots := t.slots[b := Pair(k, v)], contents := t.contents[k := v])
    ensures Inv(t', hash, -1, -1)
  {
    hide Bucket, HashFrag, Home;
    var n := Capacity(t.mask);
    assert Filed(t, b);
    t' := t.(slots := t.slots[b := Pair(k, v)], contents := t.contents[k := v]);
    forall i | Live(n, t'.md, -1, i) ensures Filed(t', i) {
      assert Filed(t, i);
    }
    forall k | k in t'.contents ensures Found(t', -1, k) {
      assert Found(t, -1, k);
    }
    forall i | Live(n, t'.md, -1, i) ensures Placed(t', hash, i) {
      assert Placed(t, hash, i);
    }
  }

  /** The home bucket of every bound key that has not been unlinked starts a chain. */
  lemma BoundKeyHasChain<K, V>(t: Table<K, V>, hash: K -> nat, hole: int, k: K)
    requires Inv(t, hash, hole, -1) && k in t.contents && Found(t, -1, k) && t.at[k] != hole
    ensures var h := Home(t.mask, hash(k)); Live(Capacity(t.mask), t.md, hole, h) && t.md[h].home
  {
    hide Bucket, HashFrag, Home;
    HomeIsLive(Capacity(t.mask), t.md, t.links, hole, t.at[k]);
    assert Placed(t, hash, t.at[k]);
  }

  /** A walk along the chain of the home of k that has not passed k and does not stand on k can go on, and the next
      step does not pass k either. */
  lemma WalkToKey<K, V>(t: Table<K, V>, hash: K -> nat, hole: int, k: K, i: nat)
    requires Inv(t, hash, hole, -1) && k in t.contents && Found(t, -1, k) && t.at[k] != hole
    requires Live(Capacity(t.mask), t.md, hole, i) && t.at[k] != i
    requires t.links.home[i] == Home(t.mask, hash(k)) && t.links.at[i] <= t.links.at[t.at[k]]
    ensures t.md[i].disp < DISPLACEMENT_LIMIT && Live(Capacity(t.mask), t.md, hole, t.links.next[i])
    ensures t.links.at[t.links.next[i]] <= t.links.at[t.at[k]]
  {
    hide Bucket, HashFrag, Home;
    assert Placed(t, hash, t.at[k]);
    assert Ordered(Capacity(t.mask), t.md, t.links, i, t.at[k]);
    WalkReaches(Capacity(t.mask), t.md, t.links, hole, i, t.at[k]);
  }

  /** Every bucket that a search from home looks at is occupied. */
  ghost predicate Crowded(mask: nat, md: seq<Metadatum>, home: nat)
    requires |md| > mask
  {
    forall d :: 0 <= d < DISPLACEMENT_LIMIT ==> md[Bucket(mask, home, d)] != EMPTY
  }

  lemma SearchFailed(mask: nat, md: seq<Metadatum>, home: nat)
    requires |md| > mask && home <= mask && md[home] != EMPTY
    requires forall d :: 0 < d < DISPLACEMENT_LIMIT ==> md[Bucket(mask, home, d)] != EMPTY
    ensures Crowded(mask, md, home)
  {
    HomeIsFirst(mask, home);
    hide Bucket;
  }

  /** While the number of buckets does not exceed the displacement limit, a search fails only in a full table. */
  lemma CrowdedIsFull(mask: nat, md: seq<Metadatum>, home: nat, b: nat)
    requires |md| > mask && IsPow2(mask + 1) && mask < DISPLACEMENT_LIMIT
    requires Crowded(mask, md, home) && b <= mask
    ensures md[b] != EMPTY
  {
    var k: nat :| Pow2(k) == mask + 1;
    var d := ProbeIsComplete(k, home, b);
    hide Bucket;
    assert md[Bucket(mask, home, d)] != EMPTY;
  }

  ghost function Range<K>(s: set<K>, f: map<K, nat>): set<nat>
    requires s <= f.Keys
  {
    set k | k in s :: f[k]
  }

  lemma {:induction false} ImageSize<K>(s: set<K>, f: map<K, nat>)
    requires s <= f.Keys
    ensures |Range(s, f)| <= |s|
  {
    if k :| k in s {
      ImageSize(s - {k}, f);
      assert Range(s, f) == Range(s - {k}, f) + {f[k]};
    }
  }

  /** How many different buckets a search looks at. */
  function Reach(cap: nat): nat {
    if cap < DISPLACEMENT_LIMIT then cap else DISPLACEMENT_LIMIT
  }

  /** A search fails only when as many keys are bound as it looks at buckets. */
  lemma CrowdedTakesKeys<K, V>(t: Table<K, V>, home: nat)
    requires Shaped(t) && Holds(t, -1) && t.mask != 0 && Crowded(t.mask, t.md, home)
    ensures Reach(Capacity(t.mask)) <= |t.contents|
    ensures if Capacity(t.mask) < 2047 then Capacity(t.mask) <= |t.contents| else 2047 <= |t.contents|
  {
    var n := Capacity(t.mask);
    var k: nat :| Pow2(k) == n;
    hide Bucket;
    forall key | key in t.contents ensures key in t.at {
      assert Found(t, -1, key);
    }
    var reached, used := Reached(t.mask, home, Reach(n)), Range(t.contents.Keys, t.at);
    ReachedOnce(k, home, Reach(n));
    forall b | b in reached ensures b in used {
      var d := ReachedAt(t.mask, home, Reach(n), b);
      assert t.md[Bucket(t.mask, home, d)] != EMPTY;
      assert Filed(t, b);
    }
    ImageSize(t.contents.Keys, t.at);
    SubsetSize(reached, used);
  }

  /** A search in a table of at most 1024 buckets that has an empty one does not fail. */
  lemma SmallTableIsNotCrowded<K, V>(t: Table<K, V>, home: nat)
    requires Shaped(t) && Holds(t, -1) && t.mask != 0
    ensures Capacity(t.mask) <= 1024 && |t.contents| < Capacity(t.mask) ==> !Crowded(t.mask, t.md, home)
  {
    if Crowded(t.mask, t.md, home) {
      CrowdedTakesKeys(t, home);
    }
  }

  /** k cannot be placed: it would join a chain whose search fails, or it would evict a key of such a chain. */
  ghost predicate Blocked<K, V>(t: Table<K, V>, hash: K -> nat, k: K)
    requires Shaped(t)
  {
    var home := Home(t.mask, hash(k));
    && t.mask != 0
    && if t.md[home].home then Crowded(t.mask, t.md, home)
       else t.md[home] != EMPTY && t.slots[home].Pair? && Crowded(t.mask, t.md, Home(t.mask, hash(t.slots[home].key)))
  }

  lemma BlockedTakesKeys<K, V>(t: Table<K, V>, hash: K -> nat, k: K)
    requires Shaped(t) && Holds(t, -1) && Blocked(t, hash, k)
    ensures Reach(Capacity(t.mask)) <= |t.contents|
  {
    hide Crowded;
    var home := Home(t.mask, hash(k));
    CrowdedTakesKeys(t, if t.md[home].home then home else Home(t.mask, hash(t.slots[home].key)));
  }

  /** The bindings in the buckets before i. */
  ghost function Before<K, V>(t: Table<K, V>, i: nat): map<K, V> {
    map k | k in t.contents && k in t.at && t.at[k] < i :: t.contents[k]
  }

  lemma InBucket<K, V>(t: Table<K, V>, k: K, i: nat)
    requires Shaped(t) && Holds(t, -1) && i < Capacity(t.mask) && k in t.contents
    ensures k in t.at
    ensures t.at[k] == i <==> t.md[i] != EMPTY && t.slots[i].Pair? && t.slots[i].key == k
    ensures t.at[k] == i ==> t.slots[i].el == t.contents[k]
  {
    assert Found(t, -1, k);
    assert Live(Capacity(t.mask), t.md, -1, i) ==> Filed(t, i);
  }

  lemma BeforeStep<K, V>(t: Table<K, V>, i: nat)
    requires Shaped(t) && Holds(t, -1) && i < Capacity(t.mask)
    ensures t.md[i] == EMPTY ==> Before(t, i + 1) == Before(t, i)
    ensures t.md[i] != EMPTY ==> Filed(t, i) && t.slots[i].key !in Before(t, i)
                                 && Before(t, i + 1) == Before(t, i)[t.slots[i].key := t.slots[i].el]
                                 && |Before(t, i)| < |t.contents|
  {
    var md, slot := t.md[i], t.slots[i];
    assert md != EMPTY ==> Filed(t, i);
    forall k | k in t.contents
      ensures k in t.at && (t.at[k] == i <==> md != EMPTY && slot.Pair? && slot.key == k)
      ensures t.at[k] == i ==> slot.el == t.contents[k]
    {
      InBucket(t, k, i);
    }
    hide Holds;
    if md != EMPTY {
      SubsetSize(Before(t, i).Keys, t.contents.Keys - {slot.key});
    }
  }

  lemma BeforeAll<K, V>(t: Table<K, V>)
    requires Shaped(t) && Holds(t, -1)
    ensures Before(t, 0) == map[] && Before(t, Capacity(t.mask)) == t.contents
  {
    forall k | k in t.contents ensures k in t.at && 0 <= t.at[k] < Capacity(t.mask) {
      assert Found(t, -1, k);
    }
  }

  lemma NextCapacityIsPow2<K, V>(t: Table<K, V>)
    requires Shaped(t)
    ensures IsPow2(2 * Capacity(t.mask)) || t.mask == 0
    ensures IsPow2(8)
  {
    assert Pow2(3) == 8;
    if t.mask != 0 {
      DoubleIsPow2(Capacity(t.mask));
    }
  }

  /** The keys held in bucket i and beyond. */
  ghost function KeysFrom<K, V>(t: Table<K, V>, i: nat): set<K> {
    set k | k in t.contents && k in t.at && i <= t.at[k]
  }

  /** Erasing the key of bucket b, nothing else moving, leaves the keys beyond b. */
  lemma KeysFromDropped<K, V>(t: Table<K, V>, t': Table<K, V>, b: nat)
    requires Shaped(t) && b < Capacity(t.mask) && Filed(t, b)
    requires t'.contents == t.contents - {t.slots[b].key} && t'.at == t.at - {t.slots[b].key}
    ensures KeysFrom(t', b + 1) == KeysFrom(t, b + 1)
  {}

  /** Erasing the key of bucket b and moving there the key of bucket last leaves, at b or beyond it according to where
      last was, the keys that were beyond b. */
  lemma KeysFromSupplanted<K, V>(t: Table<K, V>, t': Table<K, V>, b: nat, last: nat)
    requires Shaped(t) && Holds(t, -1) && b < Capacity(t.mask) && last < Capacity(t.mask) && b != last
    requires Filed(t, b) && Filed(t, last)
    requires t'.contents == t.contents - {t.slots[b].key}
    requires t'.at == (t.at - {t.slots[b].key})[t.slots[last].key := b]
    ensures KeysFrom(t', if last > b then b else b + 1) == KeysFrom(t, b + 1)
  {
    forall k | k in t.contents ensures k in t.at && (t.at[k] == b ==> k == t.slots[b].key) {
      assert Found(t, -1, k);
    }
  }

  /** The keys from i on, when bucket i is empty or when it holds a key. */
  lemma KeysFromStep<K, V>(t: Table<K, V>, i: nat)
    requires Shaped(t) && Holds(t, -1) && i < Capacity(t.mask)
    ensures t.md[i] == EMPTY ==> KeysFrom(t, i) == KeysFrom(t, i + 1)
    ensures t.md[i] != EMPTY ==> Filed(t, i) && KeysFrom(t, i) == KeysFrom(t, i + 1) + {t.slots[i].key}
                                 && t.slots[i].key !in KeysFrom(t, i + 1)
  {
    assert t.md[i] != EMPTY ==> Filed(t, i);
    forall k | k in t.contents
      ensures k in t.at && (t.at[k] == i <==> t.md[i] != EMPTY && t.slots[i].Pair? && t.slots[i].key == k)
    {
      InBucket(t, k, i);
    }
  }

  lemma KeysFromEnds<K, V>(t: Table<K, V>)
    requires Shaped(t) && Holds(t, -1)
    ensures KeysFrom(t, 0) == t.contents.Keys && KeysFrom(t, Capacity(t.mask)) == {}
  {
    forall k | k in t.contents ensures k in t.at && 0 <= t.at[k] < Capacity(t.mask) {
      assert Found(t, -1, k);
    }
  }
}
