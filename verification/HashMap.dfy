/** The hash map of cc.h:2839-3934: open addressing in which the keys of each home bucket form a chain. */
module HashMap {
  import opened Options
  import opened Metadata
  import opened Probe
  import opened Chains
  import opened Tables
  import opened Allocator

  const MIN_BUCKETS := 8

  class CCMap<!K(==, !new), V(!new)> {
    const hash: K -> nat
    const capMask: nat
    const metadata: array<Metadatum>
    const buckets: array<Slot<K, V>>
    var size: nat

    // What the map holds, where each key is, and what every bucket's position in its chain is.
    ghost var contents: map<K, V>
    ghost var at: map<K, nat>
    ghost var links: Links

    function Cap(): nat {
      Capacity(capMask)
    }

    ghost function T(): Table<K, V>
      reads `contents, `at, `links, metadata, buckets
    {
      Table(capMask, metadata[..], buckets[..], links, contents, at)
    }

    ghost predicate Valid()
      reads this, metadata, buckets
    {
      Inv(T(), hash, -1, -1) && size == |contents|
    }

    /** What a failed eviction leaves: the occupied buckets hold the bindings, but chains may be broken. */
    ghost predicate Weak()
      reads this, metadata, buckets
    {
      Shaped(T()) && Holds(T(), -1) && size == |contents|
    }

    /** The state after a failed eviction from bucket: its key is unlinked and its probe sequence has no empty
        bucket. */
    ghost predicate Evicting(bucket: nat)
      reads this, metadata, buckets
    {
      && Inv(T(), hash, bucket, -1) && Live(Cap(), metadata[..], -1, bucket) && !metadata[bucket].home
      && Crowded(capMask, metadata[..], links.home[bucket])
    }

    /** cc_map_find_first_empty, cc.h:3029-3050. */
    method FindFirstEmpty(home: nat) returns (found: bool, empty: nat, displacement: nat)
      requires Shaped(T()) && capMask != 0 && home <= capMask
      ensures found ==> 0 < displacement < DISPLACEMENT_LIMIT && empty == Bucket(capMask, home, displacement)
      ensures found ==> metadata[empty] == EMPTY
      ensures found ==> forall d :: 0 < d < displacement ==> metadata[Bucket(capMask, home, d)] != EMPTY
      ensures !found ==> forall d :: 0 < d < DISPLACEMENT_LIMIT ==> metadata[Bucket(capMask, home, d)] != EMPTY
    {
      QuadraticStep(0);
      hide Quadratic, IsPow2;
      displacement := 1;
      var linear := 1;
      while true
        invariant 1 <= displacement < DISPLACEMENT_LIMIT
        invariant linear == Quadratic(displacement)
        invariant forall d :: 0 < d < displacement ==> metadata[Bucket(capMask, home, d)] != EMPTY
        decreases DISPLACEMENT_LIMIT - displacement
      {
        empty := (home + linear) % (capMask + 1);
        assert empty == Bucket(capMask, home, displacement);
        if metadata[empty] == EMPTY {
          return true, empty, displacement;
        }
        QuadraticStep(displacement);
        displacement := displacement + 1;
        if displacement == DISPLACEMENT_LIMIT {
          return false, empty, displacement;
        }
        linear := linear + displacement;
      }
    }

    /** cc_map_find_insert_location_in_chain, cc.h:3056-3072. */
    method FindInsertLocation(home: nat, displacement: nat, ghost hole: int) returns (candidate: nat)
      requires Inv(T(), hash, hole, -1) && capMask != 0
      requires Live(Cap(), metadata[..], hole, home) && metadata[home].home
      requires 0 < displacement < DISPLACEMENT_LIMIT && metadata[Bucket(capMask, home, displacement)] == EMPTY
      ensures Live(Cap(), metadata[..], hole, candidate) && links.home[candidate] == home
      ensures links.at[candidate] < displacement < metadata[candidate].disp
    {
      hide Bucket, HashFrag, Home, IsPow2;
      ghost var md := metadata[..];
      HeadIsHome(Cap(), md, links, hole, home);
      candidate := home;
      while true
        invariant Live(Cap(), md, hole, candidate) && links.home[candidate] == home
        invariant links.at[candidate] < displacement
        decreases displacement - links.at[candidate]
      {
        assert Local(Cap(), md, links, hole, candidate);
        var d := metadata[candidate].disp;
        if d > displacement {
          return;
        }
        ghost var next := links.next[candidate];
        assert Placed(T(), hash, next) && Local(Cap(), md, links, hole, next);
        candidate := Bucket(capMask, home, d);
      }
    }

    /** The search of cc_map_evict (cc.h:3094-3104) and of case 2 of cc_map_erase_raw (cc.h:3693-3716): the chain
        member that links to bucket. */
    method FindPrevious(bucket: nat, home: nat) returns (prev: nat)
      requires Inv(T(), hash, -1, -1) && Live(Cap(), metadata[..], -1, bucket) && !metadata[bucket].home
      requires home == links.home[bucket]
      ensures Live(Cap(), metadata[..], -1, prev) && links.home[prev] == home
      ensures metadata[prev].disp < DISPLACEMENT_LIMIT && links.next[prev] == bucket
    {
      hide Bucket, HashFrag, Home, IsPow2;
      ghost var md := metadata[..];
      assert Placed(T(), hash, bucket) && Local(Cap(), md, links, -1, bucket);
      prev := home;
      while true
        invariant Live(Cap(), md, -1, prev) && links.home[prev] == home
        invariant links.at[prev] < links.at[bucket]
        decreases links.at[bucket] - links.at[prev]
      {
        WalkReaches(Cap(), md, links, -1, prev, bucket);
        assert Placed(T(), hash, links.next[prev]);
        var next := Bucket(capMask, home, metadata[prev].disp);
        if next == bucket {
          return;
        }
        prev := next;
      }
    }

    /** The link statements shared by cc_map_evict, cc_map_insert_raw and cc_map_reinsert (cc.h:3121-3132,
        3236-3248, 3298-3306): write a slot into an empty bucket and link it after prev. */
    method LinkAfter(prev: nat, empty: nat, displacement: nat, frag: nat, slot: Slot<K, V>,
                     ghost contents': map<K, V>, ghost at': map<K, nat>)
      requires Shaped(T()) && Sized(Cap(), metadata[..], links)
      requires prev < Cap() && empty < Cap() && prev != empty
      modifies metadata, buckets, `links, `contents, `at
      ensures T() == Linked(old(T()), prev, empty, displacement, frag, slot).(contents := contents', at := at')
    {
      hide IsPow2;
      buckets[empty] := slot;
      metadata[empty] := Metadatum(frag, false, metadata[prev].disp);
      metadata[prev] := metadata[prev].(disp := displacement);
      links := Links(links.home[empty := links.home[prev]], links.at[empty := displacement],
                     links.next[empty := links.next[prev]][prev := empty]);
      contents, at := contents', at';
    }

    /** cc.h:3106-3110: take the key of bucket out of its chain. */
    method Disconnect(bucket: nat) returns (home: nat)
      requires Inv(T(), hash, -1, -1) && Live(Cap(), metadata[..], -1, bucket) && !metadata[bucket].home
      modifies metadata, `links
      ensures Inv(T(), hash, bucket, -1) && Live(Cap(), metadata[..], -1, bucket) && Placed(T(), hash, bucket)
      ensures home == links.home[bucket] && Live(Cap(), metadata[..], bucket, home) && metadata[home].home
      ensures home == Home(capMask, hash(buckets[bucket].key))
      ensures T().slots == old(T().slots) && metadata[bucket] == old(metadata[bucket])
      ensures forall i :: 0 <= i < Cap() ==> (metadata[i] == EMPTY <==> old(metadata[i] == EMPTY))
    {
      hide Bucket, HashFrag, Home, IsPow2;
      assert Placed(T(), hash, bucket);
      home := Home(capMask, hash(buckets[bucket].key));
      var prev := FindPrevious(bucket, home);
      ghost var t' := Unlink(T(), hash, prev, bucket);
      assert metadata[prev] != EMPTY && metadata[prev].(disp := metadata[bucket].disp) != EMPTY by {
        assert Local(Cap(), T().md, links, -1, bucket);
      }
      HomeIsLive(Cap(), T().md, links, -1, bucket);
      metadata[prev] := metadata[prev].(disp := metadata[bucket].disp);
      links := t'.links;
      assert T() == t';
    }

    /** cc.h:3118-3132: move the unlinked key of bucket to an empty bucket and link it there. */
    method MoveTo(bucket: nat, home: nat, empty: nat, displacement: nat)
      requires Inv(T(), hash, bucket, -1) && Live(Cap(), metadata[..], -1, bucket) && Placed(T(), hash, bucket)
      requires home == links.home[bucket] && Live(Cap(), metadata[..], bucket, home) && metadata[home].home
      requires 0 < displacement < DISPLACEMENT_LIMIT && empty == Bucket(capMask, home, displacement)
      requires metadata[empty] == EMPTY
      modifies metadata, buckets, `contents, `at, `links
      ensures Inv(T(), hash, bucket, bucket) && metadata[bucket] != EMPTY && contents == old(contents)
    {
      hide Bucket, HashFrag, Home, IsPow2;
      var prev := FindInsertLocation(home, displacement, bucket);
      ghost var t' := LinkMoved(T(), hash, bucket, prev, empty, displacement);
      LinkAfter(prev, empty, displacement, metadata[bucket].frag, buckets[bucket], contents, t'.at);
      assert T() == t';
    }

    /** cc_map_evict, cc.h:3085-3135.  It fails exactly when the home of the evicted key is crowded; the key is in no
        chain any more then. */
    method Evict(bucket: nat) returns (ok: bool)
      requires Inv(T(), hash, -1, -1) && Live(Cap(), metadata[..], -1, bucket) && !metadata[bucket].home
      requires buckets[bucket].Pair?
      modifies metadata, buckets, `contents, `at, `links
      ensures metadata[bucket] != EMPTY && contents == old(contents)
      ensures !ok <==> old(Crowded(capMask, metadata[..], Home(capMask, hash(buckets[bucket].key))))
      ensures ok ==> Inv(T(), hash, bucket, bucket)
      ensures !ok ==> Evicting(bucket)
    {
      hide Bucket, HashFrag, Home, IsPow2;
      var home := Disconnect(bucket);
      var found, empty, displacement := FindFirstEmpty(home);
      assert Crowded(capMask, metadata[..], home) == old(Crowded(capMask, metadata[..], Home(capMask, hash(buckets[bucket].key))));
      if found {
        assert metadata[Bucket(capMask, home, displacement)] == EMPTY;
        MoveTo(bucket, home, empty, displacement);
      } else {
        SearchFailed(capMask, metadata[..], home);
      }
      ok := found;
    }

    /** The chain walk of cc_map_insert_raw (cc.h:3196-3225), cc_map_get (cc.h:3504-3520) and cc_map_erase
        (cc.h:3793-3811).  A key in the hole is not found. */
    method FindInChain(k: K, home: nat, ghost hole: int) returns (r: Option<nat>)
      requires Inv(T(), hash, hole, -1) && capMask != 0 && home == Home(capMask, hash(k))
      requires Live(Cap(), metadata[..], hole, home) && metadata[home].home
      ensures r.None? <==> k !in contents || (k in at && at[k] == hole)
      ensures r.Some? ==> Live(Cap(), metadata[..], hole, r.value) && buckets[r.value] == Pair(k, contents[k])
      ensures r.Some? ==> k in at && r.value == at[k]
    {
      hide Bucket, HashFrag, Home, IsPow2;
      ghost var md := metadata[..];
      HeadIsHome(Cap(), md, links, hole, home);
      if k in contents {
        assert Found(T(), -1, k);
        assert at[k] != hole ==> Placed(T(), hash, at[k]);
      }
      var hashfrag := HashFrag(hash(k));
      var bucket := home;
      while true
        invariant Live(Cap(), md, hole, bucket) && links.home[bucket] == home
        invariant k in contents && at[k] != hole ==> links.at[bucket] <= links.at[at[k]]
        decreases DISPLACEMENT_LIMIT - links.at[bucket]
      {
        assert Placed(T(), hash, bucket) && Local(Cap(), md, links, hole, bucket) && Filed(T(), bucket);
        if metadata[bucket].frag == hashfrag && buckets[bucket].key == k {
          return Some(bucket);
        }
        if k in contents && at[k] != hole {
          WalkToKey(T(), hash, hole, k, bucket);
        }
        var displacement := metadata[bucket].disp;
        if displacement == DISPLACEMENT_LIMIT {
          return None;
        }
        ghost var next := links.next[bucket];
        assert Placed(T(), hash, next) && Local(Cap(), md, links, hole, next);
        bucket := Bucket(capMask, home, displacement);
      }
    }

    /** cc_map_get, cc.h:3486-3521. */
    method Get(k: K, ghost hole: int) returns (r: Option<nat>)
      requires Inv(T(), hash, hole, -1)
      requires 0 <= hole ==> Live(Cap(), metadata[..], -1, hole) && !metadata[hole].home
      ensures r.None? <==> k !in contents || (k in at && at[k] == hole)
      ensures r.Some? ==> Live(Cap(), metadata[..], -1, r.value) && buckets[r.value] == Pair(k, contents[k])
    {
      hide Bucket, HashFrag, IsPow2;
      var home := Home(capMask, hash(k));
      if !metadata[home].home {
        if k in contents {
          assert Found(T(), -1, k);
          if at[k] != hole {
            BoundKeyHasChain(T(), hash, hole, k);
          }
        }
        return None;
      }
      assert capMask != 0;
      r := FindInChain(k, home, hole);
    }

    /** The writes of cc.h:3185-3187 and 3283-3285. */
    method WriteHead(home: nat, frag: nat, slot: Slot<K, V>, ghost t': Table<K, V>)
      requires Shaped(T()) && Sized(Cap(), metadata[..], links) && home < Cap()
      requires t' == T().(md := T().md[home := Metadatum(frag, true, DISPLACEMENT_LIMIT)],
                          slots := T().slots[home := slot], links := t'.links, contents := t'.contents, at := t'.at)
      modifies this, metadata, buckets
      ensures T() == t' && size == old(size) + 1
    {
      hide IsPow2;
      buckets[home] := slot;
      metadata[home] := Metadatum(frag, true, DISPLACEMENT_LIMIT);
      size := size + 1;
      contents, at, links := t'.contents, t'.at, t'.links;
    }

    /** Start the chain of k in its vacant home bucket. */
    method StartAt(k: K, v: V, home: nat, ghost hole: int)
      requires Inv(T(), hash, hole, hole) && size == |contents| && k !in contents
      requires home == Home(capMask, hash(k)) && home < Cap()
      requires !Live(Cap(), metadata[..], hole, home) && (0 <= hole ==> hole == home)
      modifies this, metadata, buckets
      ensures Inserted(k, v, old(contents), home)
    {
      hide Bucket, HashFrag, Home, IsPow2;
      ghost var t' := StartChain(T(), hash, hole, home, k, v);
      WriteHead(home, HashFrag(hash(k)), Pair(k, v), t');
      assert metadata[home] == t'.md[home] && buckets[home] == t'.slots[home];
    }

    /** Case 1 of cc_map_insert_raw and cc_map_reinsert (cc.h:3172-3191, 3275-3289) after the load check: k starts a
        chain in its home bucket, from which a foreign key is first evicted. */
    method InsertHead(k: K, v: V) returns (r: Option<nat>)
      requires Valid() && capMask != 0 && k !in contents && !metadata[Home(capMask, hash(k))].home
      modifies this, metadata, buckets
      ensures r.Some? ==> Inserted(k, v, old(contents), r.value)
      ensures r.None? <==> old(Blocked(T(), hash, k))
      ensures r.None? ==> contents == old(contents) && size == old(size)
      ensures r.None? ==> Evicting(Home(capMask, hash(k)))
    {
      hide Bucket, HashFrag, Home, IsPow2, Crowded;
      var home := Home(capMask, hash(k));
      if metadata[home] != EMPTY {
        assert Placed(T(), hash, home);
        var ok := Evict(home);
        if !ok {
          return None;
        }
        StartAt(k, v, home, home);
      } else {
        StartAt(k, v, home, -1);
      }
      r := Some(home);
    }

    ghost predicate Inserted(k: K, v: V, before: map<K, V>, bucket: nat)
      reads this, metadata, buckets
    {
      && Valid() && contents == before[k := v]
      && bucket < Cap() && metadata[bucket] != EMPTY && buckets[bucket] == Pair(k, v)
    }

    /** cc.h:3237-3252: write k into an empty bucket and link it to the chain of its home bucket. */
    method InsertAt(k: K, v: V, home: nat, empty: nat, displacement: nat)
      requires Valid() && capMask != 0 && k !in contents && home == Home(capMask, hash(k)) && metadata[home].home
      requires 0 < displacement < DISPLACEMENT_LIMIT && empty == Bucket(capMask, home, displacement)
      requires metadata[empty] == EMPTY
      modifies this, metadata, buckets
      ensures Inserted(k, v, old(contents), empty)
    {
      hide Bucket, HashFrag, Home, IsPow2;
      var prev := FindInsertLocation(home, displacement, -1);
      ghost var t' := LinkNew(T(), hash, prev, empty, displacement, k, v);
      LinkAfter(prev, empty, displacement, HashFrag(hash(k)), Pair(k, v), t'.contents, t'.at);
      assert T() == t';
      size := size + 1;
      assert metadata[empty] == t'.md[empty] && buckets[empty] == t'.slots[empty];
    }

    /** Case 2 of cc_map_insert_raw and cc_map_reinsert (cc.h:3228-3252, 3292-3310) after the load check: k joins the
        chain that starts in its home bucket. */
    method InsertInChain(k: K, v: V) returns (r: Option<nat>)
      requires Valid() && capMask != 0 && k !in contents && metadata[Home(capMask, hash(k))].home
      modifies this, metadata, buckets
      ensures r.Some? ==> Inserted(k, v, old(contents), r.value)
      ensures r.None? <==> old(Blocked(T(), hash, k))
      ensures r.None? ==> T() == old(T()) && size == old(size)
    {
      HomeIsFirst(capMask, Home(capMask, hash(k)));
      hide Bucket, HashFrag, Home, IsPow2;
      var home := Home(capMask, hash(k));
      var found, empty, displacement := FindFirstEmpty(home);
      if !found {
        SearchFailed(capMask, metadata[..], home);
        return None;
      }
      assert metadata[Bucket(capMask, home, displacement)] == EMPTY;
      InsertAt(k, v, home, empty, displacement);
      r := Some(empty);
    }

    /** cc_map_insert_raw, cc.h:3149-3253.  limit gives the load limit of each capacity. */
    method InsertRaw(k: K, v: V, replace: bool, limit: nat -> nat) returns (r: Option<nat>)
      requires Valid() && limit(0) == 0
      modifies this, metadata, buckets
      ensures r.Some? ==> Valid()
      ensures r.Some? && (replace || k !in old(contents)) ==> contents == old(contents)[k := v]
      ensures r.Some? && !replace && k in old(contents) ==> contents == old(contents)
      ensures r.Some? ==> Live(Cap(), metadata[..], -1, r.value) && buckets[r.value] == Pair(k, contents[k])
      ensures r.None? ==> contents == old(contents) && k !in contents && size == old(size)
      // It fails exactly when the key is new and the load limit is reached or the key cannot be placed.
      ensures r.None? <==> k !in old(contents) && (old(size) + 1 > limit(Cap()) || old(Blocked(T(), hash, k)))
      // Only a failed eviction damages the map.
      ensures r.None? ==> if size + 1 > limit(Cap()) || old(metadata[Home(capMask, hash(k))].home) then T() == old(T())
                          else Evicting(Home(capMask, hash(k)))
      ensures r.None? ==> Weak()
      // A key cannot be placed only if as many keys are bound as a search looks at buckets.
      ensures r.None? ==> size + 1 > limit(Cap()) || Reach(Cap()) <= size
    {
      hide Bucket, HashFrag, Home, IsPow2, Crowded;
      if Blocked(T(), hash, k) {
        BlockedTakesKeys(T(), hash, k);
      }
      hide Blocked;
      var home := Home(capMask, hash(k));
      if !metadata[home].home {
        if k in contents {
          assert Found(T(), -1, k);
          BoundKeyHasChain(T(), hash, -1, k);
        }
        if size + 1 > limit(Cap()) {
          return None;
        }
        r := InsertHead(k, v);
        return;
      }

      var found := FindInChain(k, home, -1);
      if found.Some? {
        if replace {
          Replace(found.value, k, v);
        }
        return found;
      }
      if size + 1 > limit(Cap()) {
        return None;
      }
      r := InsertInChain(k, v);
    }

    /** cc.h:3204-3217. */
    method Replace(bucket: nat, k: K, v: V)
      requires Valid() && Live(Cap(), metadata[..], -1, bucket) && k in contents
      requires buckets[bucket].Pair? && buckets[bucket].key == k
      modifies this, buckets
      ensures Inserted(k, v, old(contents), bucket)
    {
      hide Bucket, HashFrag, Home, IsPow2;
      ghost var t' := Overwrite(T(), hash, bucket, k, v);
      buckets[bucket] := Pair(k, v);
      contents := t'.contents;
      assert T() == t';
    }

    /** cc_map_reinsert, cc.h:3262-3311: no load check and no search for the key, which must be new. */
    method Reinsert(k: K, v: V) returns (r: Option<nat>)
      requires Valid() && capMask != 0 && k !in contents
      modifies this, metadata, buckets
      ensures r.Some? ==> Valid() && contents == old(contents)[k := v]
      ensures r.None? <==> old(Blocked(T(), hash, k))
      ensures r.None? ==> contents == old(contents) && size == old(size) && Reach(Cap()) <= size
    {
      hide Bucket, HashFrag, Home, IsPow2, Crowded;
      if Blocked(T(), hash, k) {
        BlockedTakesKeys(T(), hash, k);
      }
      var home := Home(capMask, hash(k));
      if !metadata[home].home {
        r := InsertHead(k, v);
      } else {
        r := InsertInChain(k, v);
      }
    }

    /** The placeholder of cc.h:2925-2929. */
    constructor Placeholder(hash: K -> nat)
      ensures Valid() && contents == map[] && Cap() == 0 && this.hash == hash
      ensures fresh(metadata) && fresh(buckets)
    {
      this.hash := hash;
      capMask := 0;
      metadata := new Metadatum[1](_ => EMPTY);
      buckets := new Slot<K, V>[0](_ => Raw);
      size, contents, at, links := 0, map[], map[], Links([], [], []);
      new;
      assert metadata[..] == [EMPTY];
    }

    /** A new table of cap buckets (cc.h:3342-3353). */
    constructor WithBuckets(hash: K -> nat, cap: nat)
      requires IsPow2(cap) && 2 <= cap
      ensures Valid() && contents == map[] && Cap() == cap && this.hash == hash
      ensures fresh(metadata) && fresh(buckets)
    {
      this.hash := hash;
      capMask := cap - 1;
      metadata := new Metadatum[cap + 4](i => if i == cap then Metadatum(0, false, 1) else EMPTY);
      buckets := new Slot<K, V>[cap](_ => Raw);
      var zeros := seq(cap, _ => 0);
      size, contents, at, links := 0, map[], map[], Links(zeros, zeros, zeros);
      new;
      assert metadata[..][cap..] == [Metadatum(0, false, 1), EMPTY, EMPTY, EMPTY];
    }

    /** The copying loop of cc_map_make_rehash (cc.h:3355-3368): every binding of this map, or a prefix of them in
        bucket order if one cannot be placed. */
    method CopyInto(copy: CCMap<K, V>)
      requires Weak() && copy.Valid() && copy.contents == map[] && copy.capMask != 0
      requires copy.metadata != metadata && copy.buckets != buckets && copy != this
      modifies copy, copy.metadata, copy.buckets
      ensures copy.size >= size ==> copy.Valid() && copy.contents == contents
      ensures copy.size < size ==> StuckCopying(T(), copy.hash, copy.Cap())
      ensures copy.size < size ==> Reach(copy.Cap()) <= copy.size
    {
      hide Bucket, HashFrag, Home, IsPow2, Chained;
      BeforeAll(T());
      ghost var t := T();
      var i := 0;
      while i < Cap()
        invariant 0 <= i <= Cap() && T() == t
        invariant copy.Valid() && copy.contents == Before(t, i)
      {
        BeforeStep(t, i);
        if metadata[i] != EMPTY {
          ghost var part := copy.T();
          var r := copy.Reinsert(buckets[i].key, buckets[i].el);
          if r.None? {
            assert Cramped(copy.hash, copy.Cap(), Before(t, i), t.slots[i].key) by {
              assert CrampedIn(part, copy.hash, copy.Cap(), Before(t, i), t.slots[i].key);
            }
            break;
          }
        }
        i := i + 1;
      }
    }

    /** cc_map_make_rehash, cc.h:3324-3380, on a map whose chains may be broken: n tables are granted, of cap buckets
        and ever twice as many, and all but the last cannot hold the bindings; or the next request is refused. */
    method MakeRehash(cap: nat, a: Allocator, ghost maxCap: nat) returns (r: CCMap?<K, V>, ghost n: nat)
      requires Weak() && IsPow2(cap) && 2 <= cap && a.Valid() && a.Bounded(maxCap)
      modifies a
      ensures a.Valid()
      ensures Requested(old(a.log), a.log, cap, n, r == null)
      ensures Outgrown(T(), hash, cap, if r == null then n else n - 1)
      ensures r != null ==> fresh(r) && fresh(r.metadata) && fresh(r.buckets)
      ensures r != null ==> r.Valid() && r.contents == contents && r.hash == hash
      ensures r != null ==> 0 < n && r.capMask != 0 && cap <= r.Cap() == Doubled(cap, n - 1) <= maxCap
    {
      hide Holds, Shaped, Inv, IsPow2, Requested, Outgrown, Doubled, Reach, StuckCopying;
      ghost var t := T();
      var c := cap;
      n := 0;
      NothingRequested(a.log, cap);
      NoneOutgrown(t, hash, cap);
      while true
        invariant cap <= c == Doubled(cap, n) && IsPow2(c) && a.Valid()
        invariant Requested(old(a.log), a.log, cap, n, false)
        invariant Outgrown(t, hash, cap, n) && T() == t
        decreases maxCap - c
      {
        RequestedNext(old(a.log), a.log, cap, n, a.grants(|a.log|, c));
        var granted := a.Ask(c);
        if !granted {
          return null, n;
        }
        n := n + 1;
        r := new CCMap<K, V>.WithBuckets(hash, c);
        CopyInto(r);
        if r.size < size {
          NextOutgrown(t, hash, cap, n - 1);
          DoubleIsPow2(c);
          c := c * 2;
        } else {
          return;
        }
      }
    }

    lemma IsShaped()
      requires Valid()
      ensures Shaped(T())
    {}

    /** The bucket count that cc_map_insert asks for first (cc.h:3468). */
    function NextCap(): nat {
      if capMask != 0 then Cap() * 2 else MIN_BUCKETS
    }

    /** cc_map_insert, cc.h:3430-3484.  It asks for memory only if the key cannot go into the map as it is; n requests
        are granted, each for twice as many buckets, and it fails only when one is refused. */
    static method Insert(handle: CCMap<K, V>, k: K, v: V, replace: bool, limit: nat -> nat, a: Allocator,
                         ghost maxCap: nat)
      returns (m: CCMap<K, V>, r: Option<nat>, ghost n: nat)
      requires handle.Valid() && limit(0) == 0 && a.Valid() && a.Bounded(maxCap)
      modifies handle, handle.metadata, handle.buckets, a
      ensures a.Valid()
      ensures m == handle || (fresh(m) && fresh(m.metadata) && fresh(m.buckets))
      ensures m.hash == handle.hash
      ensures r.Some? ==> m.Valid()
      ensures r.Some? && (replace || k !in old(handle.contents)) ==> m.contents == old(handle.contents)[k := v]
      ensures r.Some? && !replace && k in old(handle.contents) ==> m.contents == old(handle.contents)
      ensures r.Some? ==> Live(m.Cap(), m.metadata[..], -1, r.value) && m.buckets[r.value] == Pair(k, m.contents[k])
      ensures r.None? ==> m.contents == old(handle.contents) && k !in m.contents
      ensures r.None? ==> m.Valid() || m.Evicting(Home(m.capMask, m.hash(k)))
      // What is asked for: nothing if and only if the key fits as it is.
      ensures Requested(old(a.log), a.log, handle.NextCap(), n, r.None?)
      ensures a.log != old(a.log) ==>
                |old(a.log)| < |a.log| && a.log[|old(a.log)|].cap == if handle.Cap() == 0 then 8 else 2 * handle.Cap()
      ensures a.log == old(a.log) <==>
              k in old(handle.contents)
              || (old(handle.size) + 1 <= limit(handle.Cap()) && !old(Blocked(handle.T(), handle.hash, k)))
      // A table is given up only for its load limit or because the bindings can get stuck in it.
      ensures GivenUp(handle.NextCap(), if r.None? then n else n - 1, handle.hash, old(handle.contents)[k := v], limit)
      ensures r.Some? && 0 < n ==> m.Cap() == Doubled(handle.NextCap(), n - 1)
      // It succeeds if the first table is granted and no such thing happens in it.
      ensures a.grants(|old(a.log)|, handle.NextCap()) ==>
                r.Some? || TooSmall(handle.NextCap(), handle.hash, old(handle.contents)[k := v], limit)
    {
      hide Inv, Home, Blocked, Reach, TooSmall, Doubled, Requested, GivenUp, Holds, Stuck;
      handle.IsShaped();
      m, n := handle, 0;
      ghost var first, size := handle.NextCap(), handle.size;
      ghost var fits := k in handle.contents || (size + 1 <= limit(handle.Cap()) && !Blocked(handle.T(), handle.hash, k));
      NothingRequested(a.log, first);
      ghost var whole := handle.contents[k := v];
      NoneGivenUp(first, handle.hash, whole, limit);
      while true
        invariant m == handle || (fresh(m) && fresh(m.metadata) && fresh(m.buckets))
        invariant a.Valid() && m.Valid() && m.contents == old(handle.contents) && m.hash == handle.hash
        invariant m.size == size && (n == 0 ==> m == handle && m.T() == old(handle.T()))
        invariant 0 < n ==> !fits && m.capMask != 0 && m.Cap() == Doubled(first, n - 1)
        invariant Requested(old(a.log), a.log, first, n, false)
        invariant GivenUp(first, n - 1, handle.hash, whole, limit)
        decreases maxCap - m.Cap()
      {
        ghost var t := m.T();
        r := m.InsertRaw(k, v, replace, limit);
        RequestsCount(old(a.log), a.log, first, n, false);
        if r.Some? {
          return;
        }
        RefusedIsTooSmall(t, m.hash, k, v, limit);
        var larger;
        larger, n := m.Grow(a, maxCap, old(a.log), first, n, limit, k, v);
        if larger == null {
          RequestsCount(old(a.log), a.log, first, n, true);
          return;
        }
        m := larger;
      }
    }

    /** The step of cc_map_insert to a larger table (cc.h:3466-3481), after n0 tables have been granted since before. */
    method Grow(a: Allocator, ghost maxCap: nat, ghost before: seq<Request>, ghost first: nat, ghost n0: nat,
                ghost limit: nat -> nat, ghost k: K, ghost v: V)
      returns (larger: CCMap?<K, V>, ghost n: nat)
      requires Weak() && a.Valid() && a.Bounded(maxCap)
      requires Requested(before, a.log, first, n0, false) && GivenUp(first, n0 - 1, hash, contents[k := v], limit)
      requires if n0 == 0 then NextCap() == first else capMask != 0 && Cap() == Doubled(first, n0 - 1)
      requires k !in contents && TooSmall(Cap(), hash, contents[k := v], limit)
      modifies a
      ensures a.Valid() && Requested(before, a.log, first, n, larger == null)
      ensures GivenUp(first, if larger == null then n else n - 1, hash, contents[k := v], limit)
      ensures larger != null ==> fresh(larger) && fresh(larger.metadata) && fresh(larger.buckets)
      ensures larger != null ==> larger.Valid() && larger.contents == contents && larger.hash == hash
      ensures larger != null ==> 0 < n && larger.capMask != 0 && Cap() < larger.Cap() == Doubled(first, n - 1) <= maxCap
    {
      hide Inv, Holds, Reach, TooSmall, Doubled, Requested, Outgrown, GivenUp, Stuck, StuckCopying;
      ghost var more, log, t, whole := 0, a.log, T(), contents[k := v];
      NextCapacityIsPow2(T());
      NothingRequested(log, first);
      StillTooSmall(first, Cap(), n0, hash, whole, limit);
      larger, more := MakeRehash(NextCap(), a, maxCap);
      MoreRequested(before, log, a.log, first, n0, more, larger == null);
      MoreGivenUp(first, n0, if larger == null then more else more - 1, t, hash, k, v, limit);
      n := n0 + more;
    }

    /** Compared with before, the map lacks exactly the key that was in bucket b. */
    ghost predicate Erased(before: Table<K, V>, b: nat)
      reads this, metadata, buckets
    {
      && b < |before.slots| && before.slots[b].Pair?
      && Valid() && contents == before.contents - {before.slots[b].key}
    }

    /** Empty bucket b, whose key is in no chain or is its whole chain. */
    method Drop(b: nat)
      requires Shaped(T()) && Live(Cap(), metadata[..], -1, b) && Filed(T(), b)
      requires Inv(Without(T(), b), hash, -1, -1) && size == |contents|
      modifies this, metadata
      ensures Erased(old(T()), b) && at == old(at) - {old(buckets[b].key)} && metadata[b] == EMPTY
    {
      hide Inv, IsPow2;
      ghost var t' := Without(T(), b);
      metadata[b] := EMPTY;
      size := size - 1;
      contents, at := t'.contents, t'.at;
      assert T() == t';
    }

    /** Case 1 of cc_map_erase_raw (cc.h:3661-3674): the only key of its chain. */
    method EraseSole(b: nat)
      requires Valid() && Live(Cap(), metadata[..], -1, b) && metadata[b].home
      requires metadata[b].disp == DISPLACEMENT_LIMIT
      modifies this, metadata
      ensures Erased(old(T()), b) && at == old(at) - {old(T()).slots[b].key} && metadata[b] == EMPTY
    {
      hide Bucket, HashFrag, Home, IsPow2;
      RemoveSole(T(), hash, b);
      Drop(b);
    }

    /** Take bucket, the last member of its chain, out of the chain: metadata[prev] |= DISPLACEMENT_MASK. */
    method CutAfter(prev: nat, bucket: nat)
      requires Inv(T(), hash, -1, -1) && Live(Cap(), metadata[..], -1, prev)
      requires metadata[prev].disp < DISPLACEMENT_LIMIT && links.next[prev] == bucket && bucket < Cap()
      requires metadata[bucket].disp == DISPLACEMENT_LIMIT
      modifies metadata, `links
      ensures Inv(T(), hash, bucket, -1) && Live(Cap(), metadata[..], -1, bucket) && Placed(T(), hash, bucket)
      ensures T().slots == old(T().slots) && links.home == old(links.home)
      ensures forall i :: 0 <= i < Cap() ==> metadata[i].frag == old(metadata[i].frag)
      ensures forall i :: 0 <= i < Cap() ==> (metadata[i] == EMPTY <==> old(metadata[i] == EMPTY))
      ensures prev != bucket
    {
      hide Bucket, HashFrag, Home, IsPow2;
      ghost var t' := Unlink(T(), hash, prev, bucket);
      metadata[prev] := metadata[prev].(disp := DISPLACEMENT_LIMIT);
      links := t'.links;
      assert T() == t';
    }

    /** Case 2 of cc_map_erase_raw (cc.h:3693-3711): the last of several keys of its chain. */
    method EraseLast(b: nat, home: nat)
      requires Valid() && Live(Cap(), metadata[..], -1, b) && !metadata[b].home && home == links.home[b]
      requires metadata[b].disp == DISPLACEMENT_LIMIT
      modifies this, metadata
      ensures Erased(old(T()), b) && at == old(at) - {old(T()).slots[b].key} && metadata[b] == EMPTY
    {
      hide Bucket, HashFrag, Home, IsPow2;
      var prev := FindPrevious(b, home);
      CutAfter(prev, b);
      RemoveUnlinked(T(), hash, b);
      Drop(b);
    }

    /** The walk of case 3 of cc_map_erase_raw (cc.h:3714-3723) to the last two members of the chain. */
    method FindLast(b: nat, home: nat) returns (prev: nat, last: nat)
      requires Inv(T(), hash, -1, -1) && Live(Cap(), metadata[..], -1, b) && home == links.home[b]
      requires metadata[b].disp < DISPLACEMENT_LIMIT
      ensures Live(Cap(), metadata[..], -1, prev) && metadata[prev].disp < DISPLACEMENT_LIMIT
      ensures links.next[prev] == last && last != b && last < Cap()
      ensures metadata[last].disp == DISPLACEMENT_LIMIT && links.home[last] == home
    {
      hide Bucket, HashFrag, Home, IsPow2;
      ghost var md := metadata[..];
      last := b;
      while true
        invariant Live(Cap(), md, -1, last) && links.home[last] == home && links.at[b] <= links.at[last]
        invariant metadata[last].disp < DISPLACEMENT_LIMIT
        decreases DISPLACEMENT_LIMIT - links.at[last]
      {
        assert Local(Cap(), md, links, -1, last);
        assert Placed(T(), hash, links.next[last]) && Local(Cap(), md, links, -1, links.next[last]);
        prev := last;
        last := Bucket(capMask, home, metadata[last].disp);
        if metadata[last].disp == DISPLACEMENT_LIMIT {
          return;
        }
      }
    }

    /** Case 3 of cc_map_erase_raw (cc.h:3713-3744): the chain's last key takes the place of the erased one. */
    method EraseInner(b: nat, home: nat) returns (last: nat)
      requires Valid() && Live(Cap(), metadata[..], -1, b) && home == links.home[b]
      requires metadata[b].disp < DISPLACEMENT_LIMIT
      modifies this, metadata, buckets
      ensures Erased(old(T()), b) && metadata[b] != EMPTY
      ensures last != b && last < |old(T()).slots| && old(T()).slots[last].Pair?
      ensures at == (old(at) - {old(T()).slots[b].key})[old(T()).slots[last].key := b]
      ensures old(Filed(T(), last))
    {
      hide Bucket, HashFrag, Home, IsPow2;
      var prev;
      prev, last := FindLast(b, home);
      CutAfter(prev, last);
      Supplant(b, last);
    }

    /** cc.h:3723-3735. */
    method Supplant(b: nat, last: nat)
      requires Inv(T(), hash, last, -1) && size == |contents|
      requires Live(Cap(), metadata[..], -1, last) && Placed(T(), hash, last)
      requires Live(Cap(), metadata[..], last, b) && links.home[b] == links.home[last]
      modifies this, metadata, buckets
      ensures Erased(old(T()), b) && metadata[b] != EMPTY
      ensures old(T()).slots[last].Pair?
      ensures at == (old(at) - {old(T()).slots[b].key})[old(T()).slots[last].key := b]
    {
      hide Bucket, HashFrag, Home, IsPow2;
      ghost var t' := ReplaceByUnlinked(T(), hash, b, last);
      buckets[b] := buckets[last];
      metadata[b] := metadata[b].(frag := metadata[last].frag);
      metadata[last] := EMPTY;
      size := size - 1;
      contents, at := t'.contents, t'.at;
      assert T() == t';
      assert metadata[b] == t'.md[b];
    }

    /** cc_map_erase_raw, cc.h:3647-3747.  home is None where the source passes SIZE_MAX. */
    method EraseRaw(b: nat, home: Option<nat>) returns (advance: bool)
      requires Valid() && Live(Cap(), metadata[..], -1, b)
      requires home.Some? ==> home.value == links.home[b]
      modifies this, metadata, buckets
      ensures Erased(old(T()), b)
      // The keys still to be visited by an iteration that stands at b.
      ensures advance ==> KeysFrom(T(), b + 1) == KeysFrom(old(T()), b + 1)
      ensures !advance ==> metadata[b] != EMPTY && KeysFrom(T(), b) == KeysFrom(old(T()), b + 1)
    {
      hide Bucket, HashFrag, Home, IsPow2, KeysFrom;
      ghost var t := T();
      assert Filed(t, b) && Placed(t, hash, b) && Local(Cap(), t.md, links, -1, b);
      if metadata[b].home && metadata[b].disp == DISPLACEMENT_LIMIT {
        EraseSole(b);
        KeysFromDropped(t, T(), b);
        return true;
      }
      if metadata[b].home {
        HeadIsHome(Cap(), t.md, links, -1, b);
      }
      var h := if home.Some? then home.value
      else if metadata[b].home then b
      else Home(capMask, hash(buckets[b].key));
      if metadata[b].disp == DISPLACEMENT_LIMIT {
        EraseLast(b, h);
        KeysFromDropped(t, T(), b);
        return true;
      }
      var last := EraseInner(b, h);
      KeysFromSupplanted(t, T(), b, last);
      advance := last <= b;
    }

    /** cc_map_erase, cc.h:3775-3812. */
    method Erase(k: K) returns (erased: bool)
      requires Valid()
      modifies this, metadata, buckets
      ensures Valid() && contents == old(contents) - {k}
      ensures erased <==> k in old(contents)
    {
      hide Bucket, HashFrag, Home, IsPow2, KeysFrom;
      var home := Home(capMask, hash(k));
      if !metadata[home].home {
        if k in contents {
          assert Found(T(), -1, k);
          BoundKeyHasChain(T(), hash, -1, k);
        }
        return false;
      }
      var r := FindInChain(k, home, -1);
      if r.None? {
        return false;
      }
      assert Placed(T(), hash, r.value) && Filed(T(), r.value);
      var _ := EraseRaw(r.value, Some(home));
      erased := true;
    }

    /** cc_map_leap_forward, cc.h:3541-3555: the first occupied bucket at or after start, four metadata at a time. */
    method LeapForward(start: nat) returns (i: nat)
      requires Weak() && capMask != 0 && start <= Cap()
      ensures start <= i <= Cap() && (i < Cap() ==> metadata[i] != EMPTY)
      ensures forall j :: start <= j < i ==> metadata[j] == EMPTY
      ensures KeysFrom(T(), i) == KeysFrom(T(), start)
    {
      hide Bucket, HashFrag, Home, IsPow2, Chained, Holds, Placed, KeysFrom;
      i := start;
      assert metadata[Cap()] == metadata[..][Cap()..][0];
      while true
        invariant start <= i <= Cap()
        invariant forall j :: start <= j < i ==> metadata[j] == EMPTY
        invariant KeysFrom(T(), i) == KeysFrom(T(), start)
        decreases Cap() - i
      {
        var four := metadata[i..i + 4];
        assert Cap() < i + 4 ==> four[Cap() - i] == metadata[Cap()];
        var first := FirstNonzero(four);
        forall b | i <= b < i + first && b < Cap() ensures metadata[..][b] == EMPTY {
          assert four[b - i] == metadata[b];
        }
        SkipEmpty(T(), i, i + first);
        if first < 4 {
          return i + first;
        }
        i := i + 4;
      }
    }

    /** cc_map_first, cc.h:3591-3603. */
    method First() returns (i: nat)
      requires Weak()
      ensures i <= Cap() && (i < Cap() ==> metadata[i] != EMPTY)
      ensures KeysFrom(T(), i) == contents.Keys
    {
      KeysFromEnds(T());
      hide Holds, KeysFrom;
      if capMask == 0 {
        return 0;
      }
      i := LeapForward(0);
    }

    /** cc_map_next, cc.h:3626-3635. */
    method Next(i: nat) returns (next: nat)
      requires Weak() && i < Cap()
      ensures i < next <= Cap() && (next < Cap() ==> metadata[next] != EMPTY)
      ensures KeysFrom(T(), next) == KeysFrom(T(), i + 1)
    {
      next := LeapForward(i + 1);
    }

    /** cc_map_erase_itr, cc.h:3753-3770: the keys from the returned bucket on are those that were beyond b. */
    method EraseItr(b: nat) returns (next: nat)
      requires Valid() && Live(Cap(), metadata[..], -1, b)
      modifies this, metadata, buckets
      ensures Erased(old(T()), b)
      ensures next <= Cap() && (next < Cap() ==> metadata[next] != EMPTY)
      ensures KeysFrom(T(), next) == KeysFrom(old(T()), b + 1)
    {
      hide KeysFrom, Holds, Chained;
      var advance := EraseRaw(b, None);
      if advance {
        next := Next(b);
      } else {
        next := b;
      }
    }

    /** One step of the loop below. */
    method Visit(i: nat, doomed: (K, V) -> bool) returns (k: K, next: nat)
      requires Valid() && Live(Cap(), metadata[..], -1, i)
      modifies this, metadata, buckets
      ensures Valid() && next <= Cap() && (next < Cap() ==> metadata[next] != EMPTY)
      ensures k in old(contents) && k in old(KeysFrom(T(), i)) && KeysFrom(T(), next) == old(KeysFrom(T(), i)) - {k}
      ensures contents == if doomed(k, old(contents)[k]) then old(contents) - {k} else old(contents)
    {
      hide Bucket, HashFrag, Home, IsPow2, Chained, KeysFrom;
      KeysFromStep(T(), i);
      k := buckets[i].key;
      assert Found(T(), -1, k);
      if doomed(k, buckets[i].el) {
        next := EraseItr(i);
      } else {
        next := Next(i);
      }
    }

    /** Iteration from first to end (cc.h:7481-7486) that moves on with erase_itr (cc.h:561-565) from the elements it
        erases: it visits every key exactly once, although erasing moves keys between buckets. */
    method EraseWhile(doomed: (K, V) -> bool) returns (visited: seq<K>)
      requires Valid()
      modifies this, metadata, buckets
      ensures Valid() && contents == map k | k in old(contents) && !doomed(k, old(contents)[k]) :: old(contents)[k]
      ensures multiset(visited) == multiset(old(contents).Keys)
    {
      hide Bucket, HashFrag, Home, IsPow2, Chained, Placed, Holds, KeysFrom, Swept;
      visited := [];
      var i: nat := First();
      ghost var left, before := contents.Keys, contents;
      SweepStarts(contents, doomed);
      while i < Cap()
        invariant Valid() && i <= Cap() <= metadata.Length
        invariant i < Cap() ==> metadata[i] != EMPTY
        invariant left == KeysFrom(T(), i)
        invariant multiset(visited) + multiset(left) == multiset(before.Keys)
        invariant Swept(before, contents, left, doomed)
        decreases |left|
      {
        ghost var now := contents;
        var k;
        k, i := Visit(i, doomed);
        SweepSteps(before, now, left, doomed, k);
        visited := visited + [k];
        assert multiset(left) == multiset(left - {k}) + multiset{k};
        left := left - {k};
      }
      KeysFromEnds(T());
      SweepEnds(before, contents, doomed);
    }
  }

  /** now is what before has become when the keys outside left have been visited. */
  ghost predicate Swept<K, V>(before: map<K, V>, now: map<K, V>, left: set<K>, doomed: (K, V) -> bool) {
    && (forall k :: k in left ==> k in now)
    && (forall k :: k in now ==> k in before && now[k] == before[k])
    && (forall k :: k in before && k !in left ==> (k in now <==> !doomed(k, before[k])))
  }

  lemma SweepStarts<K, V>(m: map<K, V>, doomed: (K, V) -> bool)
    ensures Swept(m, m, m.Keys, doomed)
  {}

  lemma SweepSteps<K, V>(before: map<K, V>, now: map<K, V>, left: set<K>, doomed: (K, V) -> bool, k: K)
    requires Swept(before, now, left, doomed) && k in left && k in now
    ensures Swept(before, if doomed(k, now[k]) then now - {k} else now, left - {k}, doomed)
  {}

  lemma SweepEnds<K, V>(before: map<K, V>, now: map<K, V>, doomed: (K, V) -> bool)
    requires Swept(before, now, {}, doomed)
    ensures now == map k | k in before && !doomed(k, before[k]) :: before[k]
  {}

  // ---------- tables that are given up ----------

  /** t is a valid table of cap buckets that holds the bindings in part, and k cannot be placed in it. */
  ghost predicate CrampedIn<K, V>(t: Table<K, V>, hash: K -> nat, cap: nat, part: map<K, V>, k: K) {
    Inv(t, hash, -1, -1) && Capacity(t.mask) == cap && t.contents == part && k !in part && Blocked(t, hash, k)
  }

  ghost predicate Cramped<K(!new), V(!new)>(hash: K -> nat, cap: nat, part: map<K, V>, k: K) {
    exists t: Table<K, V> :: CrampedIn(t, hash, cap, part, k)
  }

  /** When the bindings of t are put into cap buckets in their order, those before some bucket can come to stand so that the
      key of that bucket cannot be placed. */
  ghost predicate StuckCopying<K(!new), V(!new)>(t: Table<K, V>, hash: K -> nat, cap: nat) {
    exists i: nat :: i < |t.md| && i < |t.slots| && t.md[i] != EMPTY && t.slots[i].Pair?
      && Cramped(hash, cap, Before(t, i), t.slots[i].key)
  }

  /** Some of the bindings can come to stand in cap buckets so that the key of another one cannot be placed. */
  ghost predicate Stuck<K(!new), V(!new)>(hash: K -> nat, cap: nat, whole: map<K, V>) {
    exists part: map<K, V>, k: K :: PartOf(part, whole) && k in whole && Cramped(hash, cap, part, k)
  }

  ghost predicate PartOf<K, V>(part: map<K, V>, whole: map<K, V>) {
    forall k :: k in part ==> k in whole && part[k] == whole[k]
  }

  /** A table of cap buckets is too small for the bindings. */
  ghost predicate TooSmall<K(!new), V(!new)>(cap: nat, hash: K -> nat, whole: map<K, V>, limit: nat -> nat) {
    |whole| > limit(cap) || Stuck(hash, cap, whole)
  }

  /** Bindings get stuck only if there are more of them than a search looks at buckets. */
  lemma StuckTakesKeys<K(!new), V(!new)>(hash: K -> nat, cap: nat, whole: map<K, V>)
    requires Stuck(hash, cap, whole)
    ensures Reach(cap) < |whole|
  {
    hide Inv, Blocked, Reach;
    var part: map<K, V>, k: K :| PartOf(part, whole) && k in whole && Cramped(hash, cap, part, k);
    var t: Table<K, V> :| CrampedIn(t, hash, cap, part, k);
    CrampedTakesKeys(t, hash, k);
    SubsetSize(part.Keys, whole.Keys - {k});
    assert |part| == |part.Keys| && |whole| == |whole.Keys|;
  }

  lemma CrampedTakesKeys<K, V>(t: Table<K, V>, hash: K -> nat, k: K)
    requires Inv(t, hash, -1, -1) && Blocked(t, hash, k)
    ensures Reach(Capacity(t.mask)) <= |t.contents|
  {
    BlockedTakesKeys(t, hash, k);
  }

  /** A map that cannot place a new key is an instance. */
  lemma BlockedIsStuck<K(!new), V(!new)>(t: Table<K, V>, hash: K -> nat, k: K, v: V)
    requires Inv(t, hash, -1, -1) && Blocked(t, hash, k) && k !in t.contents
    ensures Stuck(hash, Capacity(t.mask), t.contents[k := v])
  {
    hide Inv, Blocked;
    assert CrampedIn(t, hash, Capacity(t.mask), t.contents, k);
    assert Cramped(hash, Capacity(t.mask), t.contents, k);
    assert PartOf(t.contents, t.contents[k := v]);
  }

  lemma RefusedIsTooSmall<K(!new), V(!new)>(t: Table<K, V>, hash: K -> nat, k: K, v: V, limit: nat -> nat)
    requires Inv(t, hash, -1, -1) && k !in t.contents
    requires |t.contents| + 1 > limit(Capacity(t.mask)) || Blocked(t, hash, k)
    ensures TooSmall(Capacity(t.mask), hash, t.contents[k := v], limit)
  {
    hide Chained, Blocked, Stuck;
    if Blocked(t, hash, k) {
      BlockedIsStuck(t, hash, k, v);
    }
    assert t.contents[k := v].Keys == t.contents.Keys + {k};
    assert |t.contents[k := v]| == |t.contents[k := v].Keys|;
  }

  lemma CopyingIsStuck<K(!new), V(!new)>(t: Table<K, V>, hash: K -> nat, cap: nat, k: K, v: V)
    requires Shaped(t) && Holds(t, -1) && StuckCopying(t, hash, cap) && k !in t.contents
    ensures Stuck(hash, cap, t.contents[k := v])
  {
    hide Cramped;
    var i: nat :| i < |t.md| && i < |t.slots| && t.md[i] != EMPTY && t.slots[i].Pair?
      && Cramped(hash, cap, Before(t, i), t.slots[i].key);
    assert Filed(t, i);
    assert PartOf(Before(t, i), t.contents[k := v]);
  }

  /** The bindings of t get stuck in each of the first n tables. */
  ghost predicate Outgrown<K(!new), V(!new)>(t: Table<K, V>, hash: K -> nat, first: nat, n: int) {
    forall i: nat {:trigger Doubled(first, i)} :: i < n ==> StuckCopying(t, hash, Doubled(first, i))
  }

  lemma NoneOutgrown<K(!new), V(!new)>(t: Table<K, V>, hash: K -> nat, first: nat)
    ensures Outgrown(t, hash, first, 0)
  {}

  lemma NextOutgrown<K(!new), V(!new)>(t: Table<K, V>, hash: K -> nat, first: nat, n: nat)
    requires Outgrown(t, hash, first, n) && StuckCopying(t, hash, Doubled(first, n))
    ensures Outgrown(t, hash, first, n + 1)
  {}

  /** Each of the first n tables is too small for the bindings. */
  ghost predicate GivenUp<K(!new), V(!new)>(first: nat, n: int, hash: K -> nat, whole: map<K, V>, limit: nat -> nat) {
    forall i: nat {:trigger Doubled(first, i)} :: i < n ==> TooSmall(Doubled(first, i), hash, whole, limit)
  }

  lemma NoneGivenUp<K(!new), V(!new)>(first: nat, hash: K -> nat, whole: map<K, V>, limit: nat -> nat)
    ensures GivenUp(first, -1, hash, whole, limit)
    ensures forall n: int :: 0 < n && GivenUp(first, n, hash, whole, limit) ==> TooSmall(first, hash, whole, limit)
  {
    assert Doubled(first, 0) == first;
  }

  lemma MoreGivenUp<K(!new), V(!new)>(first: nat, n: nat, given: int, t: Table<K, V>, hash: K -> nat, k: K, v: V,
                                      limit: nat -> nat)
    requires Shaped(t) && Holds(t, -1) && k !in t.contents
    requires GivenUp(first, n, hash, t.contents[k := v], limit) && Outgrown(t, hash, Doubled(first, n), given)
    ensures GivenUp(first, n + given, hash, t.contents[k := v], limit)
    ensures 0 <= given ==> Doubled(first, n + given) == Doubled(Doubled(first, n), given)
  {
    hide Holds, Shaped, Stuck, StuckCopying;
    if 0 <= given { DoubledTwice(first, n, given); }
    forall i: nat | i < n + given ensures TooSmall(Doubled(first, i), hash, t.contents[k := v], limit) {
      if n <= i {
        DoubledTwice(first, n, i - n);
        CopyingIsStuck(t, hash, Doubled(first, i), k, v);
      }
    }
  }

  /** The capacity that the map has after n doublings, and what follows if it cannot take the key. */
  lemma StillTooSmall<K(!new), V(!new)>(first: nat, cap: nat, n: nat, hash: K -> nat, whole: map<K, V>,
                                        limit: nat -> nat)
    requires GivenUp(first, n - 1, hash, whole, limit)
    requires 0 < n ==> cap == Doubled(first, n - 1) && TooSmall(cap, hash, whole, limit)
    ensures 0 < n ==> Doubled(first, n) == 2 * cap
    ensures GivenUp(first, n, hash, whole, limit)
  {}

  /** cc_first_nonzero_uint16. */
  function FirstNonzero(s: seq<Metadatum>): (i: nat)
    ensures i <= |s| && (i < |s| ==> s[i] != EMPTY) && forall j :: 0 <= j < i ==> s[j] == EMPTY
  {
    if s == [] || s[0] != EMPTY then 0 else 1 + FirstNonzero(s[1..])
  }

  lemma {:induction false} SkipEmpty<K, V>(t: Table<K, V>, i: nat, j: nat)
    requires Shaped(t) && Holds(t, -1) && i <= j
    requires forall b :: i <= b < j && b < Capacity(t.mask) ==> t.md[b] == EMPTY
    ensures j <= Capacity(t.mask) ==> KeysFrom(t, j) == KeysFrom(t, i)
    decreases j - i
  {
    hide KeysFrom;
    if i < j <= Capacity(t.mask) {
      KeysFromStep(t, i);
      SkipEmpty(t, i + 1, j);
    }
  }
}
