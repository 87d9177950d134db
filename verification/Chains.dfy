/** The chains of the hash map, as pure sequences: what linking, unlinking, starting and shortening a chain preserve. */
module Chains {
  import opened Metadata

  /** Per bucket: the home bucket of the key it holds, the displacement at which it stands in that home's chain,
      and the bucket of the next chain member. */
  datatype Links = Links(home: seq<nat>, at: seq<nat>, next: seq<nat>)

  ghost predicate Sized(n: nat, md: seq<Metadatum>, l: Links) {
    |md| >= n && |l.home| == |l.at| == |l.next| == n
  }

  /** Bucket i takes part in the chains: it is occupied and is not the one bucket (if any) whose key has been
      unlinked. */
  predicate Live(n: nat, md: seq<Metadatum>, hole: int, i: int)
    requires |md| >= n
  {
    0 <= i < n && md[i] != EMPTY && i != hole
  }

  /** What a live bucket says about itself and its neighbours: its home bucket is live and starts the chain; the flag
      marks the chain's first member; the link goes to the chain member standing at the displacement it names, which
      is larger, or is the end mark. */
  ghost predicate Local(n: nat, md: seq<Metadatum>, l: Links, hole: int, i: nat)
    requires Sized(n, md, l) && i < n
  {
    var h, d := l.home[i], md[i].disp;
    && Live(n, md, hole, h) && l.home[h] == h && l.at[h] == 0
    && (md[i].home <==> l.at[i] == 0)
    && l.at[i] < d <= DISPLACEMENT_LIMIT
    && md[i].frag < 16
    && (d < DISPLACEMENT_LIMIT ==> Live(n, md, hole, l.next[i]) && l.home[l.next[i]] == h && l.at[l.next[i]] == d)
  }

  /** Two live buckets of one chain stand at different displacements, and no link jumps over a chain member. */
  ghost predicate Ordered(n: nat, md: seq<Metadatum>, l: Links, i: nat, j: nat)
    requires Sized(n, md, l) && i < n && j < n
  {
    && (l.home[i] == l.home[j] && l.at[i] == l.at[j] ==> i == j)
    && (l.home[i] == l.home[j] && l.at[i] < l.at[j] ==> md[i].disp <= l.at[j])
  }

  /** Every chain starts at its home bucket, has strictly increasing displacements, ends in the limit and holds
      exactly the live buckets of that home. */
  ghost predicate Chained(n: nat, md: seq<Metadatum>, l: Links, hole: int)
  {
    && Sized(n, md, l)
    && (forall i {:trigger Local(n, md, l, hole, i)} :: Live(n, md, hole, i) ==> Local(n, md, l, hole, i))
    && (forall i, j {:trigger Ordered(n, md, l, i, j)} :: Live(n, md, hole, i) && Live(n, md, hole, j) ==> Ordered(n, md, l, i, j))
  }

  /** Link bucket e, empty or unlinked so far, at displacement d after prev. */
  lemma LinkKeepsChains(n: nat, md: seq<Metadatum>, l: Links, hole: int,
                        h: nat, prev: nat, e: nat, d: nat, frag: nat, md': seq<Metadatum>, l': Links)
    requires Chained(n, md, l, hole)
    requires Live(n, md, hole, prev) && l.home[prev] == h
    requires l.at[prev] < d < md[prev].disp
    requires e < n && md[e] == EMPTY && e != hole
    requires frag < 16
    requires md' == md[e := Metadatum(frag, false, md[prev].disp)][prev := md[prev].(disp := d)]
    requires l' == Links(l.home[e := h], l.at[e := d], l.next[e := l.next[prev]][prev := e])
    ensures Chained(n, md', l', hole)
    ensures forall i :: Live(n, md', hole, i) <==> Live(n, md, hole, i) || i == e
  {
    assert Local(n, md, l, hole, prev);
    forall i | Live(n, md', hole, i) ensures Local(n, md', l', hole, i) {
      if i != e {
        assert Local(n, md, l, hole, i);
      }
    }
    forall i, j | Live(n, md', hole, i) && Live(n, md', hole, j) ensures Ordered(n, md', l', i, j) {
      if i != e && j != e {
        assert Ordered(n, md, l, i, j);
      } else if i != e {
        assert Ordered(n, md, l, i, prev) && Ordered(n, md, l, prev, i);
        assert Local(n, md, l, hole, i);
      } else if j != e {
        assert Ordered(n, md, l, j, prev) && Ordered(n, md, l, prev, j);
      }
    }
  }

  /** Unlink bucket b, which prev links to; b keeps its metadatum but takes part in no chain. */
  lemma UnlinkKeepsChains(n: nat, md: seq<Metadatum>, l: Links, prev: nat, b: nat, md': seq<Metadatum>, l': Links)
    requires Chained(n, md, l, -1)
    requires Live(n, md, -1, prev) && md[prev].disp < DISPLACEMENT_LIMIT && l.next[prev] == b
    requires b < n && md' == md[prev := md[prev].(disp := md[b].disp)]
    requires l' == l.(next := l.next[prev := l.next[b]])
    ensures Live(n, md, -1, b) && l.at[b] != 0 && prev != b
    ensures Chained(n, md', l', b)
  {
    assert Local(n, md, l, -1, prev) && Local(n, md, l, -1, b);
    forall i | Live(n, md', b, i) ensures Local(n, md', l', b, i) {
      assert Local(n, md, l, -1, i);
      assert Ordered(n, md, l, i, prev) && Ordered(n, md, l, prev, i);
      assert Ordered(n, md, l, i, b);
    }
    forall i, j | Live(n, md', b, i) && Live(n, md', b, j) ensures Ordered(n, md', l', i, j) {
      assert Ordered(n, md, l, i, j) && Ordered(n, md, l, b, j) && Ordered(n, md, l, j, b);
    }
  }

  /** Whether the unlinked bucket still counts as occupied does not matter to the chains. */
  lemma EmptyTheHole(n: nat, md: seq<Metadatum>, l: Links, b: nat)
    requires Chained(n, md, l, b) && b < n
    ensures Chained(n, md[b := EMPTY], l, -1)
  {
    var md' := md[b := EMPTY];
    forall i | Live(n, md', -1, i) ensures Local(n, md', l, -1, i) {
      assert Local(n, md, l, b, i);
    }
    forall i, j | Live(n, md', -1, i) && Live(n, md', -1, j) ensures Ordered(n, md', l, i, j) {
      assert Ordered(n, md, l, i, j);
    }
  }

  /** Start the chain of h in its home bucket, which is empty or holds the unlinked key. */
  lemma HeadKeepsChains(n: nat, md: seq<Metadatum>, l: Links, hole: int, h: nat, frag: nat,
                        md': seq<Metadatum>, l': Links)
    requires Chained(n, md, l, hole)
    requires h < n && !Live(n, md, hole, h) && (0 <= hole ==> hole == h)
    requires frag < 16
    requires md' == md[h := Metadatum(frag, true, DISPLACEMENT_LIMIT)]
    requires l' == l.(home := l.home[h := h], at := l.at[h := 0])
    ensures Chained(n, md', l', -1)
  {
    forall i | Live(n, md', -1, i) ensures Local(n, md', l', -1, i) {
      if i != h {
        assert Local(n, md, l, hole, i);
      }
    }
    forall i, j | Live(n, md', -1, i) && Live(n, md', -1, j) ensures Ordered(n, md', l', i, j) {
      if i != h && j != h {
        assert Ordered(n, md, l, i, j);
      } else if i != h {
        assert Local(n, md, l, hole, i);
      } else if j != h {
        assert Local(n, md, l, hole, j);
      }
    }
  }

  /** Empty a bucket that is the whole of its chain. */
  lemma DropSoleKeepsChains(n: nat, md: seq<Metadatum>, l: Links, b: nat)
    requires Chained(n, md, l, -1)
    requires Live(n, md, -1, b) && md[b].home && md[b].disp == DISPLACEMENT_LIMIT
    ensures l.home[b] == b
    ensures Chained(n, md[b := EMPTY], l, -1)
  {
    assert Local(n, md, l, -1, b);
    HeadIsHome(n, md, l, -1, b);
    var md' := md[b := EMPTY];
    forall i | Live(n, md', -1, i) ensures Local(n, md', l, -1, i) {
      assert Local(n, md, l, -1, i);
      assert Ordered(n, md, l, b, i);
    }
    forall i, j | Live(n, md', -1, i) && Live(n, md', -1, j) ensures Ordered(n, md', l, i, j) {
      assert Ordered(n, md, l, i, j);
    }
  }

  /** A flagged bucket is its own home. */
  lemma HeadIsHome(n: nat, md: seq<Metadatum>, l: Links, hole: int, b: nat)
    requires Chained(n, md, l, hole)
    requires Live(n, md, hole, b) && md[b].home
    ensures l.home[b] == b && l.at[b] == 0
  {
    assert Local(n, md, l, hole, b);
    var h := l.home[b];
    assert Local(n, md, l, hole, h);
    assert Ordered(n, md, l, b, h);
  }

  /** Changing a fragment changes no chain. */
  lemma FragmentKeepsChains(n: nat, md: seq<Metadatum>, l: Links, hole: int, b: nat, frag: nat)
    requires Chained(n, md, l, hole)
    requires Live(n, md, hole, b) && frag < 16
    ensures Chained(n, md[b := md[b].(frag := frag)], l, hole)
  {
    var md' := md[b := md[b].(frag := frag)];
    assert Local(n, md, l, hole, b);
    forall i | Live(n, md', hole, i) ensures Local(n, md', l, hole, i) {
      assert Local(n, md, l, hole, i);
    }
    forall i, j | Live(n, md', hole, i) && Live(n, md', hole, j) ensures Ordered(n, md', l, i, j) {
      assert Ordered(n, md, l, i, j);
    }
  }

  /** Only the chain member just before b links to b, so a walk from the chain's start that has not passed b
      stands strictly before it. */
  lemma WalkReaches(n: nat, md: seq<Metadatum>, l: Links, hole: int, i: nat, b: nat)
    requires Chained(n, md, l, hole)
    requires Live(n, md, hole, i) && Live(n, md, hole, b) && l.home[i] == l.home[b] && l.at[i] < l.at[b]
    ensures md[i].disp < DISPLACEMENT_LIMIT && Live(n, md, hole, l.next[i])
    ensures l.next[i] == b || l.at[l.next[i]] < l.at[b]
    ensures Local(n, md, l, hole, i)
  {
    assert Local(n, md, l, hole, i) && Local(n, md, l, hole, b);
    assert Ordered(n, md, l, i, b);
    assert Ordered(n, md, l, l.next[i], b);
  }

  /** The home bucket of a live bucket is live and flagged. */
  lemma HomeIsLive(n: nat, md: seq<Metadatum>, l: Links, hole: int, i: nat)
    requires Chained(n, md, l, hole) && Live(n, md, hole, i)
    ensures Live(n, md, hole, l.home[i]) && md[l.home[i]].home
  {
    assert Local(n, md, l, hole, i);
    assert Local(n, md, l, hole, l.home[i]);
  }
}
