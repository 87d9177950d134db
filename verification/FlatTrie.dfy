/** The flattened trie: bit sets of 128 characters in two 64-bit words, and ranks in them (trie.h, trie.c). */
module FlatTrie {
  import opened Options
  import opened TrieBuilder

  /** A uint64_t, least significant bit first. */
  type Bits64 = s: seq<bool> | |s| == 64 witness seq(64, _ => false)

  const NO_BITS: Bits64 := seq(64, _ => false)

  /** One node of the flat trie (trie.h:12-17). */
  datatype Node = Node(keys0: Bits64, keys1: Bits64, terms0: Bits64, terms1: Bits64, next: nat, data: nat)

  /** How many of the flags are set. */
  function Count(s: seq<bool>): nat {
    if s == [] then 0 else Count(s[..|s| - 1]) + (if s[|s| - 1] then 1 else 0)
  }

  /** __builtin_popcountl. */
  function Popcount(w: Bits64): nat {
    Count(w)
  }

  /** w << k; shifting by the width of the word or more has no defined meaning. */
  function ShiftLeft(w: Bits64, k: nat): Bits64
    requires k < 64
  {
    seq(k, _ => false) + w[..64 - k]
  }

  /** trie_next_, trie.c:3-17; -1 if the character's bit is not set. */
  function TrieNext(keys0: Bits64, keys1: Bits64, next: nat, c: Byte): (r: int)
    requires (keys0 + keys1)[c % 128] ==> c % 64 != 0
  {
    var ik, frag := c / 64 % 2, c % 64;
    var word := if ik == 1 then keys1 else keys0;
    if !word[frag] then -1 else
      next + (if ik == 1 then Popcount(keys0) else 0) + Popcount(ShiftLeft(word, 64 - frag))
  }

  /** How many characters of the set come before slot i. */
  function Rank(bits: seq<bool>, i: nat): nat
    requires i <= |bits|
  {
    Count(bits[..i])
  }

  lemma {:induction false} CountConcat(a: seq<bool>, b: seq<bool>)
    ensures Count(a + b) == Count(a) + Count(b)
  {
    if b == [] {
      assert a + b == a;
    } else {
      CountConcat(a, b[..|b| - 1]);
      assert (a + b)[..|a + b| - 1] == a + b[..|b| - 1];
    }
  }

  lemma {:induction false} CountNone(s: seq<bool>)
    requires forall i :: 0 <= i < |s| ==> !s[i]
    ensures Count(s) == 0
  {
    if s != [] {
      CountNone(s[..|s| - 1]);
    }
  }

  /** The popcount expression of trie.c:12-15 is the rank in the 128-character set. */
  lemma TrieNextIsRank(keys0: Bits64, keys1: Bits64, next: nat, c: Byte)
    requires var bits := keys0 + keys1; bits[c % 128] ==> c % 64 != 0
    ensures var bits := keys0 + keys1;
      TrieNext(keys0, keys1, next, c) == if bits[c % 128] then next + Rank(bits, c % 128) else -1
  {
    var ik, frag, bits := c / 64 % 2, c % 64, keys0 + keys1;
    assert c % 128 == 64 * ik + frag;
    var word := if ik == 1 then keys1 else keys0;
    assert word[frag] == bits[c % 128];
    if word[frag] {
      var zeros := seq(64 - frag, _ => false);
      CountNone(zeros);
      CountConcat(zeros, word[..frag]);
      assert ShiftLeft(word, 64 - frag) == zeros + word[..frag];
      if ik == 1 {
        CountConcat(keys0, keys1[..frag]);
        assert bits[..c % 128] == keys0 + keys1[..frag];
      } else {
        assert bits[..c % 128] == keys0[..frag];
      }
    }
  }

  lemma {:induction false} RankGrows(bits: seq<bool>, i: nat, j: nat)
    requires i < j <= |bits|
    ensures Rank(bits, i) + (if bits[i] then 1 else 0) <= Rank(bits, j)
    decreases j - i
  {
    if j == i + 1 {
      assert bits[..j][..i] == bits[..i];
    } else {
      RankGrows(bits, i, j - 1);
      assert bits[..j][..j - 1] == bits[..j - 1];
    }
  }

  /** Rank numbers the set characters without repetition, below the size of the set. */
  lemma RankIsInjective(bits: seq<bool>, i: nat, j: nat)
    requires i < |bits| && j < |bits| && bits[i] && bits[j]
    ensures Rank(bits, i) == Rank(bits, j) <==> i == j
    ensures Rank(bits, i) < Count(bits)
  {
    RankGrows(bits, i, |bits|);
    assert bits[..|bits|] == bits;
    if i < j {
      RankGrows(bits, i, j);
    } else if j < i {
      RankGrows(bits, j, i);
    }
  }

  /** ... and every number below the size of the set is the rank of some set character. */
  lemma {:induction false} RankIsOnto(bits: seq<bool>, r: nat) returns (i: nat)
    requires r < Count(bits)
    ensures i < |bits| && bits[i] && Rank(bits, i) == r
  {
    var n := |bits| - 1;
    if bits[n] && Count(bits[..n]) == r {
      i := n;
    } else {
      i := RankIsOnto(bits[..n], r);
      assert bits[..n][..i] == bits[..i];
    }
  }

  lemma {:induction false} CountSet(bits: seq<bool>, i: nat)
    requires i < |bits| && !bits[i]
    ensures Count(bits[i := true]) == Count(bits) + 1
  {
    var n := |bits| - 1;
    if i == n {
      assert bits[i := true][..n] == bits[..n];
    } else {
      CountSet(bits[..n], i);
      assert bits[i := true][..n] == bits[..n][i := true];
    }
  }
}
