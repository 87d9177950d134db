/** A map in which an eviction fails: 4096 buckets, half of them occupied, and a hash function that is the identity. */
module Crowding {
  import opened Metadata
  import opened Probe
  import opened Chains
  import opened Tables

  const MASK: nat := 4095

  /** Bucket i holds key i, but for bucket 1: that holds key 4096, whose home is bucket 0. */
  function KeyIn(i: nat): nat {
    if i == 1 then 4096 else i
  }

  function Mark(i: nat): Metadatum {
    if i == 0 then Metadatum(0, true, 1)
    else if i == 1 then Metadatum(0, false, DISPLACEMENT_LIMIT)
    else Metadatum(0, true, DISPLACEMENT_LIMIT)
  }

  function BucketOf(k: nat): nat {
    if k == 4096 then 1 else k
  }

  /** The buckets in r are occupied. */
  ghost function Occupying(r: set<nat>): (t: Table<nat, int>)
    ensures t.mask == MASK && |t.md| == 4100 && |t.slots| == 4096
    ensures |t.links.home| == |t.links.at| == |t.links.next| == 4096
    ensures t.contents.Keys == t.at.Keys == set i | i in r :: KeyIn(i)
  {
    var keys := set i | i in r :: KeyIn(i);
    Table(MASK,
          seq(4100, i => if i == 4096 then Metadatum(0, false, 1) else if i in r then Mark(i) else EMPTY),
          seq(4096, i => if i in r then Pair(KeyIn(i), 0) else Raw),
          Links(seq(4096, i => if i == 1 then 0 else i), seq(4096, i => if i == 1 then 1 else 0), seq(4096, _ => 1)),
          map k | k in keys :: 0,
          map k | k in keys :: BucketOf(k))
  }

  ghost predicate Fits(r: set<nat>) {
    0 in r && 1 in r && forall i :: i in r ==> i < 4096
  }

  lemma BucketIs(r: set<nat>, i: nat)
    requires Fits(r) && i < 4096
    ensures var t := Occupying(r);
      && (Live(Capacity(MASK), t.md, -1, i) <==> i in r)
      && (i in r ==> t.md[i] == Mark(i) && t.slots[i] == Pair(KeyIn(i), 0))
      && t.links.home[i] == (if i == 1 then 0 else i) && t.links.at[i] == (if i == 1 then 1 else 0) && t.links.next[i] == 1
  {}

  lemma IsShaped(r: set<nat>)
    requires Fits(r)
    ensures Shaped(Occupying(r))
  {
    assert Pow2(12) == 4096;
    var t := Occupying(r);
    assert t.md[4096..] == [Metadatum(0, false, 1), EMPTY, EMPTY, EMPTY];
  }

  lemma IsChained(r: set<nat>)
    requires Fits(r)
    ensures Chained(Capacity(MASK), Occupying(r).md, Occupying(r).links, -1)
  {
    hide Occupying;
    var t, n := Occupying(r), Capacity(MASK);
    BucketIs(r, 0);
    BucketIs(r, 1);
    forall i | Live(n, t.md, -1, i) ensures Local(n, t.md, t.links, -1, i) {
      BucketIs(r, i);
    }
    forall i, j | Live(n, t.md, -1, i) && Live(n, t.md, -1, j) ensures Ordered(n, t.md, t.links, i, j) {
      BucketIs(r, i);
      BucketIs(r, j);
    }
  }

  /** Fragment, home and displacement of the key in bucket i. */
  lemma KeyBelongs(i: nat)
    requires i < 4096
    ensures HashFrag(KeyIn(i)) == 0
    ensures var h := if i == 1 then 0 else i; Home(MASK, KeyIn(i)) == h && Bucket(MASK, h, if i == 1 then 1 else 0) == i
  {
    HomeIsFirst(MASK, i);
    OneStep();
    hide Bucket;
  }

  lemma OneStep()
    ensures Bucket(MASK, 0, 1) == 1
  {
    assert Quadratic(1) == 1;
  }

  lemma IsPlaced(r: set<nat>, i: nat)
    requires Fits(r) && i in r
    ensures Shaped(Occupying(r)) && Placed(Occupying(r), k => k, i)
  {
    hide Occupying, Bucket, Home, HashFrag, Shaped;
    IsShaped(r);
    BucketIs(r, i);
    KeyBelongs(i);
  }

  lemma DoesHold(r: set<nat>)
    requires Fits(r)
    ensures Shaped(Occupying(r)) && Holds(Occupying(r), -1)
  {
    var t, n := Occupying(r), Capacity(MASK);
    IsShaped(r);
    forall i | Live(n, t.md, -1, i) ensures Filed(t, i) {
      BucketIs(r, i);
      assert KeyIn(i) in t.contents && t.at[KeyIn(i)] == i;
    }
    forall k | k in t.contents ensures Found(t, -1, k) {
      var i :| i in r && KeyIn(i) == k;
      BucketIs(r, i);
      assert t.at[k] == i;
    }
  }

  lemma OccupyingIsValid(r: set<nat>)
    requires Fits(r)
    ensures Inv(Occupying(r), k => k, -1, -1)
  {
    hide Occupying, Chained, Placed, Holds, Shaped;
    var t := Occupying(r);
    IsShaped(r);
    IsChained(r);
    DoesHold(r);
    forall i | Live(Capacity(t.mask), t.md, -1, i) ensures Placed(t, k => k, i) {
      BucketIs(r, i);
      IsPlaced(r, i);
    }
  }

  lemma {:induction false} ReachedHas(mask: nat, home: nat, count: nat, d: nat)
    requires d < count
    ensures Bucket(mask, home, d) in Reached(mask, home, count)
  {
    hide Bucket;
    if d < count - 1 {
      ReachedHas(mask, home, count - 1, d);
    }
  }

  lemma ReachedFits(k: nat, count: nat)
    requires Pow2(k) == MASK + 1 && 2 <= count <= Pow2(k)
    ensures Fits(Reached(MASK, 0, count)) && |Reached(MASK, 0, count)| == count
  {
    hide Reached, Bucket;
    ReachedOnce(k, 0, count);
    ReachedHas(MASK, 0, count, 0);
    ReachedHas(MASK, 0, count, 1);
    HomeIsFirst(MASK, 0);
    OneStep();
  }

  lemma KeysCount(r: set<nat>)
    ensures |Occupying(r).contents| <= |r|
  {
    var f: map<nat, nat> := map i | i in r :: KeyIn(i);
    ImageSize(r, f);
    var t := Occupying(r);
    assert Range(r, f) == t.contents.Keys && |t.contents| == |t.contents.Keys|;
  }

  lemma TheTwoKeys(r: set<nat>)
    requires Fits(r)
    ensures var t := Occupying(r); 1 !in t.contents && 4096 in t.contents && t.at[4096] == 1
    ensures Home(MASK, 1) == 1
  {
    var t := Occupying(r);
    assert KeyIn(1) == 4096 && KeyIn(1) in t.contents.Keys;
  }

  lemma EvictionFails(count: nat) returns (t: Table<nat, int>)
    requires count == DISPLACEMENT_LIMIT
    ensures Inv(t, k => k, -1, -1) && Capacity(t.mask) == 4096 && |t.contents| < 2048
    ensures 1 !in t.contents && 4096 in t.contents && 4096 in t.at && t.at[4096] == 1
    ensures Blocked(t, k => k, 1) && !t.md[1].home
  {
    hide Reached, Bucket, Occupying, Inv, Home;
    assert Pow2(12) == 4096;
    var r := Reached(MASK, 0, count);
    ReachedFits(12, count);
    t := Occupying(r);
    OccupyingIsValid(r);
    KeysCount(r);
    IsShaped(r);
    BucketIs(r, 1);
    KeyBelongs(1);
    TheTwoKeys(r);
    forall d | 0 <= d < DISPLACEMENT_LIMIT ensures t.md[Bucket(MASK, 0, d)] != EMPTY {
      ReachedHas(MASK, 0, count, d);
      BucketIs(r, Bucket(MASK, 0, d));
    }
  }

  /** A valid map with at most half of its buckets occupied in which key 1 cannot be placed: it would evict key 4096 from
      bucket 1, and no bucket that key 4096 may move to is empty. */
  lemma EvictionCanFail() returns (t: Table<nat, int>)
    ensures Inv(t, k => k, -1, -1) && Capacity(t.mask) == 4096 && |t.contents| < 2048
    ensures 1 !in t.contents && 4096 in t.contents && 4096 in t.at && t.at[4096] == 1
    ensures Blocked(t, k => k, 1) && !t.md[1].home
  {
    t := EvictionFails(DISPLACEMENT_LIMIT);
  }
}
