/** What the invariant of the hash map says about the bytes in memory alone: metadata, keys and elements. */
module MapMeaning {
  import opened Metadata
  import opened Probe
  import opened Chains
  import opened Tables

  predicate Occupied<K, V>(t: Table<K, V>, i: nat) {
    i < Capacity(t.mask) && i < |t.md| && t.md[i] != EMPTY
  }

  ghost predicate Stores<K, V>(t: Table<K, V>, i: nat, k: K, v: V) {
    Occupied(t, i) && i < |t.slots| && t.slots[i] == Pair(k, v)
  }

  /** The bindings are exactly the pairs in occupied buckets; no key is in two of them. */
  lemma BucketsHoldTheMap<K, V>(t: Table<K, V>, hash: K -> nat, k: K, v: V)
    requires Inv(t, hash, -1, -1)
    ensures (k in t.contents && t.contents[k] == v) <==> exists i: nat :: Stores(t, i, k, v)
    ensures forall i: nat, j: nat, w :: Stores(t, i, k, v) && Stores(t, j, k, w) ==> i == j
  {
    hide Chained, Placed;
    if k in t.contents {
      assert Found(t, -1, k);
      assert Stores(t, t.at[k], k, t.contents[k]);
    }
    forall i: nat, w | Stores(t, i, k, w) ensures k in t.contents && k in t.at && t.at[k] == i && t.contents[k] == w {
      assert Filed(t, i);
      assert Found(t, -1, k);
    }
  }

  function OccupiedBefore<K, V>(t: Table<K, V>, n: nat): set<nat> {
    set i: nat | i < n && Occupied(t, i)
  }

  /** The number of bindings is the number of occupied buckets. */
  lemma SizeIsOccupancy<K, V>(t: Table<K, V>, hash: K -> nat)
    requires Inv(t, hash, -1, -1)
    ensures |t.contents| == |OccupiedBefore(t, Capacity(t.mask))|
  {
    hide Chained, Placed;
    CountBefore(t, Capacity(t.mask));
    BeforeAll(t);
  }

  lemma {:induction false} CountBefore<K, V>(t: Table<K, V>, n: nat)
    requires Shaped(t) && Holds(t, -1) && n <= Capacity(t.mask)
    ensures |Before(t, n)| == |OccupiedBefore(t, n)|
  {
    hide Holds, Before;
    if n == 0 {
      BeforeAll(t);
    } else {
      CountBefore(t, n - 1);
      BeforeStep(t, n - 1);
      OccupiedStep(t, n - 1);
    }
  }

  lemma OccupiedStep<K, V>(t: Table<K, V>, n: nat)
    ensures |OccupiedBefore(t, n + 1)| == |OccupiedBefore(t, n)| + if Occupied(t, n) then 1 else 0
  {
    var before := OccupiedBefore(t, n);
    assert OccupiedBefore(t, n + 1) == if Occupied(t, n) then before + {n} else before;
  }

  /** The fragment is the four most significant of 64 bits. */
  lemma FragmentIsTop(h: nat)
    requires h < 0x1_0000_0000_0000_0000
    ensures HashFrag(h) * 0x1000_0000_0000_0000 <= h < (HashFrag(h) + 1) * 0x1000_0000_0000_0000
  {}

  /** The home bucket is the hash code under the capacity mask. */
  lemma HomeIsMasked(k: nat, h: nat)
    ensures Home(Pow2(k) - 1, h) == BitAnd(h, Pow2(k) - 1)
  {
    MaskIsModulo(h, k);
  }

  /** The flag is set exactly in the home bucket of the key that a bucket holds, and the fragment is the key's. */
  lemma FlagAndFragment<K, V>(t: Table<K, V>, hash: K -> nat, i: nat)
    requires Inv(t, hash, -1, -1) && Occupied(t, i)
    ensures t.slots[i].Pair?
    ensures var h := hash(t.slots[i].key);
      && (t.md[i].home <==> Home(t.mask, h) == i) && t.md[i].frag == HashFrag(h)
      && Occupied(t, Home(t.mask, h)) && t.md[Home(t.mask, h)].home
  {
    hide Bucket, Home, HashFrag, Holds;
    var n := Capacity(t.mask);
    assert Local(n, t.md, t.links, -1, i) && Placed(t, hash, i);
    HomeIsLive(n, t.md, t.links, -1, i);
    HomeIsFirst(t.mask, t.links.home[i]);
  }

  /** The buckets that the metadata link, from the one at displacement d of home on. */
  function Chain(mask: nat, md: seq<Metadatum>, home: nat, d: nat): seq<nat>
    requires |md| > mask
    decreases DISPLACEMENT_LIMIT - d
  {
    var b := Bucket(mask, home, d);
    [b] + if d < md[b].disp < DISPLACEMENT_LIMIT then Chain(mask, md, home, md[b].disp) else []
  }

  lemma {:induction false} ChainReaches<K, V>(t: Table<K, V>, hash: K -> nat, hole: int, b: nat, i: nat)
    requires Inv(t, hash, hole, -1) && Live(Capacity(t.mask), t.md, hole, b) && t.mask != 0
    ensures t.links.home[b] <= t.mask && |t.md| > t.mask && |t.links.at| == Capacity(t.mask)
    ensures i in Chain(t.mask, t.md, t.links.home[b], t.links.at[b]) <==>
            Live(Capacity(t.mask), t.md, hole, i) && t.links.home[i] == t.links.home[b] && t.links.at[b] <= t.links.at[i]
    decreases DISPLACEMENT_LIMIT - t.links.at[b]
  {
    hide Bucket, Home, HashFrag, Holds;
    var n := Capacity(t.mask);
    assert Local(n, t.md, t.links, hole, b) && Placed(t, hash, b);
    if Live(n, t.md, hole, i) {
      assert Ordered(n, t.md, t.links, b, i) && Local(n, t.md, t.links, hole, i);
    }
    if t.md[b].disp < DISPLACEMENT_LIMIT {
      ChainReaches(t, hash, hole, t.links.next[b], i);
    }
  }

  lemma ChainOfHome<K, V>(t: Table<K, V>, hash: K -> nat, hole: int, h: nat, i: nat)
    requires Inv(t, hash, hole, -1) && t.mask != 0 && Live(Capacity(t.mask), t.md, hole, h) && t.md[h].home
    ensures |t.md| > t.mask
    ensures i in Chain(t.mask, t.md, h, 0) <==>
            Live(Capacity(t.mask), t.md, hole, i) && t.slots[i].Pair? && Home(t.mask, hash(t.slots[i].key)) == h
  {
    hide Bucket, Home, HashFrag, Holds;
    var n := Capacity(t.mask);
    HeadIsHome(n, t.md, t.links, hole, h);
    ChainReaches(t, hash, hole, h, i);
    if Live(n, t.md, hole, i) {
      assert Local(n, t.md, t.links, hole, i) && Placed(t, hash, i);
    }
  }

  /** The chain of an occupied home bucket holds exactly the keys of that home. */
  lemma ChainIsExactlyTheHome<K, V>(t: Table<K, V>, hash: K -> nat, h: nat, i: nat)
    requires Inv(t, hash, -1, -1) && t.mask != 0 && Occupied(t, h) && t.md[h].home
    ensures |t.md| > t.mask
    ensures i in Chain(t.mask, t.md, h, 0) <==>
            Occupied(t, i) && t.slots[i].Pair? && Home(t.mask, hash(t.slots[i].key)) == h
  {
    ChainOfHome(t, hash, -1, h, i);
  }

  /** After a failed eviction from bucket b its key is in no chain, and the map satisfies its invariant no more, whatever
      is recorded about its chains. */
  lemma FailedEvictionDamages<K, V>(t: Table<K, V>, hash: K -> nat, b: nat, l: Links)
    requires Inv(t, hash, b, -1) && t.mask != 0 && Occupied(t, b) && !t.md[b].home
    ensures forall h :: 0 <= h <= t.mask && Occupied(t, h) && t.md[h].home ==> b !in Chain(t.mask, t.md, h, 0)
    ensures !Inv(t.(links := l), hash, -1, -1)
  {
    hide Chained, Placed, Holds, Chain, Home;
    forall h | 0 <= h <= t.mask && Occupied(t, h) && t.md[h].home ensures b !in Chain(t.mask, t.md, h, 0) {
      ChainOfHome(t, hash, b, h, b);
    }
    if Inv(t.(links := l), hash, -1, -1) {
      FlagAndFragment(t.(links := l), hash, b);
      ChainIsExactlyTheHome(t.(links := l), hash, Home(t.mask, hash(t.slots[b].key)), b);
    }
  }

  // ---------- chains as displacements ----------

  /** The displacements at which the members of a chain stand, from the one at d on: each is the link in the metadatum of
      the member before. */
  function Steps(mask: nat, md: seq<Metadatum>, home: nat, d: nat): (s: seq<nat>)
    requires |md| > mask
    ensures |s| == |Chain(mask, md, home, d)| > 0
    decreases DISPLACEMENT_LIMIT - d
  {
    var link := md[Bucket(mask, home, d)].disp;
    [d] + if d < link < DISPLACEMENT_LIMIT then Steps(mask, md, home, link) else []
  }

  /** Each member stands at its displacement from home and links to the next, which stands further out; the last one has
      the end mark. */
  predicate Linear(mask: nat, md: seq<Metadatum>, home: nat, d: nat)
    requires |md| > mask
  {
    var chain, steps := Chain(mask, md, home, d), Steps(mask, md, home, d);
    && (forall i :: 0 <= i < |chain| ==> chain[i] == Bucket(mask, home, steps[i]))
    && (forall i :: 0 <= i < |chain| - 1 ==> steps[i] < steps[i + 1] == md[chain[i]].disp < DISPLACEMENT_LIMIT)
    && md[chain[|chain| - 1]].disp == 0x7FF
  }

  lemma {:induction false} LinearFrom<K, V>(t: Table<K, V>, hash: K -> nat, b: nat)
    requires Inv(t, hash, -1, -1) && t.mask != 0 && Occupied(t, b)
    ensures |t.md| > t.mask && |t.links.home| == |t.links.at| == Capacity(t.mask)
    ensures Linear(t.mask, t.md, t.links.home[b], t.links.at[b])
    decreases DISPLACEMENT_LIMIT - t.links.at[b]
  {
    hide Bucket, Home, HashFrag, Holds;
    var n := Capacity(t.mask);
    assert Local(n, t.md, t.links, -1, b) && Placed(t, hash, b);
    if t.md[b].disp < DISPLACEMENT_LIMIT {
      LinearFrom(t, hash, t.links.next[b]);
    }
  }

  /** In memory, the displacements along the chain of an occupied home bucket increase strictly up to the end mark. */
  lemma ChainIncreases<K, V>(t: Table<K, V>, hash: K -> nat, h: nat)
    requires Inv(t, hash, -1, -1) && t.mask != 0 && Occupied(t, h) && t.md[h].home
    ensures |t.md| > t.mask && Linear(t.mask, t.md, h, 0)
  {
    hide Linear, Bucket, Home, HashFrag, Holds;
    HeadIsHome(Capacity(t.mask), t.md, t.links, -1, h);
    LinearFrom(t, hash, h);
  }
}
