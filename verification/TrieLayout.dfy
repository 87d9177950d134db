/** Where the trie compiler puts every node and every link: sizes, bit sets and the layout that the flat trie has. */
module TrieLayout {
  import opened Options
  import opened TrieBuilder
  import opened FlatTrie

  /** Characters have seven bits and none is a multiple of 64; no node has a character twice. */
  predicate WellFormed(b: Builder) {
    forall i :: 0 <= i < |b.ents| ==> EntryOk(b.ents, i) && WellFormed(b.ents[i].next)
  }

  predicate EntryOk(ents: seq<Entry>, i: nat)
    requires i < |ents|
  {
    && ents[i].key < 128 && ents[i].key % 64 != 0
    && forall j :: 0 <= j < |ents| && ents[j].key == ents[i].key ==> j == i
  }

  predicate HasKids(e: Entry) {
    e.next.ents != []
  }

  /** Whether entry e belongs to the set of links (kids) or to the set of word ends. */
  predicate Chosen(e: Entry, kids: bool) {
    if kids then HasKids(e) else e.term
  }

  function Number(ents: seq<Entry>, kids: bool): nat {
    if ents == [] then 0 else Number(ents[..|ents| - 1], kids) + (if Chosen(ents[|ents| - 1], kids) then 1 else 0)
  }

  /** The nodes below the first i entries of a node. */
  function NodesBefore(b: Builder, i: nat): nat
    requires i <= |b.ents|
    decreases b, i
  {
    if i == 0 then 0 else
      var e := b.ents[i - 1];
      NodesBefore(b, i - 1) + if HasKids(e) then 1 + NodesBefore(e.next, |e.next.ents|) else 0
  }

  /** The nodes below a node: what gbuf_size adds to gpos. */
  function NodesOf(b: Builder): nat {
    NodesBefore(b, |b.ents|)
  }

  /** The auxiliary slots of the nodes below the first i entries of a node. */
  function InnerBefore(b: Builder, i: nat): nat
    requires i <= |b.ents|
    decreases b, i
  {
    if i == 0 then 0 else
      var e := b.ents[i - 1];
      InnerBefore(b, i - 1)
      + if HasKids(e) then Own(e.next) + InnerBefore(e.next, |e.next.ents|) else 0
  }

  /** The auxiliary slots of a node itself. */
  function Own(b: Builder): nat {
    Number(b.ents, true) + Number(b.ents, false)
  }

  /** The auxiliary slots of a node and of the nodes below it: what gbuf_size adds to apos. */
  function AuxOf(b: Builder): nat {
    Own(b) + InnerBefore(b, |b.ents|)
  }

  function BitsOf(ents: seq<Entry>, kids: bool): (bits: seq<bool>)
    ensures |bits| == 128
  {
    if ents == [] then seq(128, _ => false) else
      var e := ents[|ents| - 1];
      var bits := BitsOf(ents[..|ents| - 1], kids);
      if Chosen(e, kids) then bits[e.key % 128 := true] else bits
  }

  lemma {:induction false} BitsMean(ents: seq<Entry>, kids: bool, s: nat)
    requires s < 128
    ensures BitsOf(ents, kids)[s] <==> exists i :: 0 <= i < |ents| && Chosen(ents[i], kids) && ents[i].key % 128 == s
  {
    if ents != [] {
      var n := |ents| - 1;
      BitsMean(ents[..n], kids, s);
      assert forall i | 0 <= i < n :: ents[..n][i] == ents[i];
    }
  }

  lemma {:induction false} BitsCount(ents: seq<Entry>, kids: bool)
    requires forall i, j :: 0 <= i < j < |ents| ==> ents[i].key % 128 != ents[j].key % 128
    ensures Count(BitsOf(ents, kids)) == Number(ents, kids)
  {
    if ents == [] {
      CountNone(BitsOf(ents, kids));
    } else {
      var n := |ents| - 1;
      BitsCount(ents[..n], kids);
      if Chosen(ents[n], kids) {
        BitsMean(ents[..n], kids, ents[n].key % 128);
        CountSet(BitsOf(ents[..n], kids), ents[n].key % 128);
      }
    }
  }

  // ---------- layout ----------

  function NodeAt(n: nat, b: Builder, i: nat): nat
    requires i < |b.ents|
  {
    n + 1 + NodesBefore(b, i)
  }

  function AuxAt(a: nat, b: Builder, i: nat): nat
    requires i < |b.ents|
  {
    a + Own(b) + InnerBefore(b, i)
  }

  function LinkSlot(a: nat, ents: seq<Entry>, i: nat): nat
    requires i < |ents|
  {
    a + Rank(BitsOf(ents, true), ents[i].key % 128)
  }

  function TermSlot(a: nat, ents: seq<Entry>, i: nat): nat
    requires i < |ents|
  {
    a + Number(ents, true) + Rank(BitsOf(ents, false), ents[i].key % 128)
  }

  /** The header of the node of b, when its slots start at a. */
  predicate HeaderOk(node: Node, a: nat, ents: seq<Entry>) {
    && node.keys0 + node.keys1 == BitsOf(ents, true)
    && node.terms0 + node.terms1 == BitsOf(ents, false)
    && (Number(ents, true) != 0 ==> node.next == a)
    && (Number(ents, false) != 0 ==> node.data == a + Number(ents, true))
  }

  /** From node n and slot a on, the arrays hold the trie b. */
  ghost predicate Flat(g: seq<Node>, x: seq<int>, n: nat, a: nat, b: Builder)
    decreases b, 1
  {
    && n + NodesOf(b) < |g| && a + AuxOf(b) <= |x|
    && HeaderOk(g[n], a, b.ents)
    && forall i {:trigger FlatEntry(g, x, n, a, b, i)} :: 0 <= i < |b.ents| ==> FlatEntry(g, x, n, a, b, i)
  }

  ghost predicate FlatEntry(g: seq<Node>, x: seq<int>, n: nat, a: nat, b: Builder, i: nat)
    requires i < |b.ents|
    decreases b, 0
  {
    var e := b.ents[i];
    && (e.term ==> TermSlot(a, b.ents, i) < |x| && x[TermSlot(a, b.ents, i)] == e.data)
    && (HasKids(e) ==>
          && LinkSlot(a, b.ents, i) < |x| && x[LinkSlot(a, b.ents, i)] == NodeAt(n, b, i)
          && Flat(g, x, NodeAt(n, b, i), AuxAt(a, b, i), e.next))
  }

  /** The nodes and slots below the first entries lie before those below the later ones. */
  lemma {:induction false} Nested(b: Builder, i: nat, j: nat)
    requires i <= j <= |b.ents|
    ensures NodesBefore(b, i) <= NodesBefore(b, j) && InnerBefore(b, i) <= InnerBefore(b, j)
    decreases j - i
  {
    if i < j {
      Nested(b, i, j - 1);
    }
  }

  /** The region of entry i lies within that of its node. */
  lemma Within(n: nat, a: nat, b: Builder, i: nat)
    requires i < |b.ents| && HasKids(b.ents[i])
    ensures n < NodeAt(n, b, i) && NodeAt(n, b, i) + NodesOf(b.ents[i].next) == n + NodesBefore(b, i + 1) <= n + NodesOf(b)
    ensures AuxAt(a, b, i) + AuxOf(b.ents[i].next) == a + Own(b) + InnerBefore(b, i + 1) <= a + AuxOf(b)
    ensures a + Own(b) <= AuxAt(a, b, i)
  {
    Nested(b, i + 1, |b.ents|);
  }

  /** The slots of a node's own links and word ends. */
  lemma OwnSlots(a: nat, ents: seq<Entry>, i: nat)
    requires i < |ents| && forall j, k :: 0 <= j < k < |ents| ==> ents[j].key % 128 != ents[k].key % 128
    ensures HasKids(ents[i]) ==> a <= LinkSlot(a, ents, i) < a + Number(ents, true)
    ensures ents[i].term ==> a + Number(ents, true) <= TermSlot(a, ents, i)
                             < a + Number(ents, true) + Number(ents, false)
  {
    BitsCount(ents, true);
    BitsCount(ents, false);
    var s := ents[i].key % 128;
    BitsMean(ents, true, s);
    BitsMean(ents, false, s);
    if HasKids(ents[i]) {
      assert Chosen(ents[i], true);
      RankIsInjective(BitsOf(ents, true), s, s);
    }
    if ents[i].term {
      assert Chosen(ents[i], false);
      RankIsInjective(BitsOf(ents, false), s, s);
    }
  }

  /** Different entries use different slots. */
  lemma SlotsDiffer(a: nat, ents: seq<Entry>, i: nat, j: nat)
    requires i < |ents| && j < |ents| && ents[i].key % 128 != ents[j].key % 128
    ensures HasKids(ents[i]) && HasKids(ents[j]) ==> LinkSlot(a, ents, i) != LinkSlot(a, ents, j)
    ensures ents[i].term && ents[j].term ==> TermSlot(a, ents, i) != TermSlot(a, ents, j)
  {
    var s, t := ents[i].key % 128, ents[j].key % 128;
    BitsMean(ents, true, s);
    BitsMean(ents, true, t);
    BitsMean(ents, false, s);
    BitsMean(ents, false, t);
    if HasKids(ents[i]) && HasKids(ents[j]) {
      assert Chosen(ents[i], true) && Chosen(ents[j], true);
      RankIsInjective(BitsOf(ents, true), s, t);
    }
    if ents[i].term && ents[j].term {
      assert Chosen(ents[i], false) && Chosen(ents[j], false);
      RankIsInjective(BitsOf(ents, false), s, t);
    }
  }

  ghost predicate SameFrom<T>(s: seq<T>, s': seq<T>, lo: nat, hi: nat) {
    |s'| == |s| && hi <= |s| && forall j :: lo <= j < hi ==> s'[j] == s[j]
  }

  lemma DistinctSlots(b: Builder)
    requires WellFormed(b)
    ensures forall j, k :: 0 <= j < k < |b.ents| ==> b.ents[j].key % 128 != b.ents[k].key % 128
  {
    forall j, k | 0 <= j < k < |b.ents| ensures b.ents[j].key % 128 != b.ents[k].key % 128 {
      assert EntryOk(b.ents, j) && EntryOk(b.ents, k);
    }
  }

  /** What lies outside the region of a trie does not matter to it. */
  lemma {:induction false} FlatFrame(g: seq<Node>, x: seq<int>, g': seq<Node>, x': seq<int>, n: nat, a: nat, b: Builder)
    requires Flat(g, x, n, a, b) && WellFormed(b)
    requires SameFrom(g, g', n, n + NodesOf(b) + 1) && SameFrom(x, x', a, a + AuxOf(b))
    ensures Flat(g', x', n, a, b)
    decreases b, 1
  {
    DistinctSlots(b);
    forall i | 0 <= i < |b.ents| ensures FlatEntry(g', x', n, a, b, i) {
      assert FlatEntry(g, x, n, a, b, i);
      OwnSlots(a, b.ents, i);
      if HasKids(b.ents[i]) {
        Within(n, a, b, i);
      }
      FlatEntryFrame(g, x, g', x', n, a, b, i);
    }
  }

  lemma {:induction false} FlatEntryFrame(g: seq<Node>, x: seq<int>, g': seq<Node>, x': seq<int>, n: nat, a: nat,
                                          b: Builder, i: nat)
    requires i < |b.ents| && FlatEntry(g, x, n, a, b, i) && WellFormed(b)
    requires |x'| == |x|
    requires b.ents[i].term ==> x'[TermSlot(a, b.ents, i)] == x[TermSlot(a, b.ents, i)]
    requires HasKids(b.ents[i]) ==>
               && x'[LinkSlot(a, b.ents, i)] == x[LinkSlot(a, b.ents, i)]
               && SameFrom(g, g', NodeAt(n, b, i), NodeAt(n, b, i) + NodesOf(b.ents[i].next) + 1)
               && SameFrom(x, x', AuxAt(a, b, i), AuxAt(a, b, i) + AuxOf(b.ents[i].next))
    ensures FlatEntry(g', x', n, a, b, i)
    decreases b, 0
  {
    if HasKids(b.ents[i]) {
      FlatFrame(g, x, g', x', NodeAt(n, b, i), AuxAt(a, b, i), b.ents[i].next);
    }
  }

  // ---------- no slot is left over ----------

  /** Slot s is where an entry of the trie, or of a trie below it, puts its link or its value. */
  predicate Used(a: nat, b: Builder, s: nat)
    decreases b, 1
  {
    exists i {:trigger UsedBy(a, b, i, s)} :: 0 <= i < |b.ents| && UsedBy(a, b, i, s)
  }

  predicate UsedBy(a: nat, b: Builder, i: nat, s: nat)
    requires i < |b.ents|
    decreases b, 0
  {
    var e := b.ents[i];
    || (HasKids(e) && s == LinkSlot(a, b.ents, i))
    || (e.term && s == TermSlot(a, b.ents, i))
    || (HasKids(e) && Used(AuxAt(a, b, i), e.next, s))
  }

  /** Every slot of a node's own belongs to an entry: rank is onto. */
  lemma OwnerOf(a: nat, b: Builder, s: nat) returns (i: nat)
    requires WellFormed(b) && a <= s < a + Own(b)
    ensures i < |b.ents|
    ensures (HasKids(b.ents[i]) && s == LinkSlot(a, b.ents, i)) || (b.ents[i].term && s == TermSlot(a, b.ents, i))
  {
    DistinctSlots(b);
    var kids := s < a + Number(b.ents, true);
    var r := if kids then s - a else s - a - Number(b.ents, true);
    BitsCount(b.ents, kids);
    var c := RankIsOnto(BitsOf(b.ents, kids), r);
    BitsMean(b.ents, kids, c);
    i :| 0 <= i < |b.ents| && Chosen(b.ents[i], kids) && b.ents[i].key % 128 == c;
  }

  /** The entry below which slot s lies. */
  lemma {:induction false} EntryOfSlot(b: Builder, r: nat, n: nat) returns (i: nat)
    requires n <= |b.ents| && r < InnerBefore(b, n)
    ensures i < n && InnerBefore(b, i) <= r < InnerBefore(b, i + 1)
  {
    if InnerBefore(b, n - 1) <= r {
      i := n - 1;
    } else {
      i := EntryOfSlot(b, r, n - 1);
    }
  }

  /** Together with the sizes: gbuf_fill leaves no slot of the auxiliary array unwritten. */
  lemma {:induction false} EverySlotIsUsed(a: nat, b: Builder, s: nat)
    requires WellFormed(b) && a <= s < a + AuxOf(b)
    ensures Used(a, b, s)
    decreases b
  {
    if s < a + Own(b) {
      var i := OwnerOf(a, b, s);
      assert UsedBy(a, b, i, s);
    } else {
      var i := EntryOfSlot(b, s - a - Own(b), |b.ents|);
      EverySlotIsUsed(AuxAt(a, b, i), b.ents[i].next, s);
      assert UsedBy(a, b, i, s);
    }
  }

  // ---------- no slot is written twice ----------

  predicate LinksAt(a: nat, ents: seq<Entry>, i: nat, s: nat)
    requires i < |ents|
  {
    HasKids(ents[i]) && s == LinkSlot(a, ents, i)
  }

  predicate EndsAt(a: nat, ents: seq<Entry>, i: nat, s: nat)
    requires i < |ents|
  {
    ents[i].term && s == TermSlot(a, ents, i)
  }

  /** How often the first i entries put a link or a value of their own into slot s. */
  function OwnWrites(a: nat, ents: seq<Entry>, i: nat, s: nat): nat
    requires i <= |ents|
  {
    if i == 0 then 0
    else
      OwnWrites(a, ents, i - 1, s)
      + (if LinksAt(a, ents, i - 1, s) then 1 else 0) + (if EndsAt(a, ents, i - 1, s) then 1 else 0)
  }

  /** How often the tries below the first i entries are written into slot s. */
  function InnerWrites(a: nat, b: Builder, i: nat, s: nat): nat
    requires i <= |b.ents|
    decreases b, i
  {
    if i == 0 then 0
    else
      var e := b.ents[i - 1];
      InnerWrites(a, b, i - 1, s)
      + if HasKids(e) then
          OwnWrites(AuxAt(a, b, i - 1), e.next.ents, |e.next.ents|, s)
          + InnerWrites(AuxAt(a, b, i - 1), e.next, |e.next.ents|, s)
        else 0
  }

  /** How often the whole trie writes slot s. */
  function Writes(a: nat, b: Builder, s: nat): nat {
    OwnWrites(a, b.ents, |b.ents|, s) + InnerWrites(a, b, |b.ents|, s)
  }

  /** An entry's link and its value are in different slots, and so are those of different entries. */
  lemma OwnSlotsDiffer(a: nat, b: Builder, i: nat, j: nat, s: nat)
    requires WellFormed(b) && i < |b.ents| && j < |b.ents|
    ensures !(LinksAt(a, b.ents, i, s) && EndsAt(a, b.ents, j, s))
    ensures i != j ==> !(LinksAt(a, b.ents, i, s) && LinksAt(a, b.ents, j, s))
    ensures i != j ==> !(EndsAt(a, b.ents, i, s) && EndsAt(a, b.ents, j, s))
  {
    DistinctSlots(b);
    OwnSlots(a, b.ents, i);
    OwnSlots(a, b.ents, j);
    if i != j {
      assert b.ents[i].key % 128 != b.ents[j].key % 128;
      SlotsDiffer(a, b.ents, i, j);
    }
  }

  lemma {:induction false} OwnWritesExactly(a: nat, b: Builder, i: nat, s: nat)
    requires WellFormed(b) && i <= |b.ents|
    ensures OwnWrites(a, b.ents, i, s)
         == if exists e :: 0 <= e < i && (LinksAt(a, b.ents, e, s) || EndsAt(a, b.ents, e, s)) then 1 else 0
  {
    hide LinksAt, EndsAt;
    if i != 0 {
      OwnWritesExactly(a, b, i - 1, s);
      OwnSlotsDiffer(a, b, i - 1, i - 1, s);
      if LinksAt(a, b.ents, i - 1, s) || EndsAt(a, b.ents, i - 1, s) {
        forall e | 0 <= e < i - 1 ensures !LinksAt(a, b.ents, e, s) && !EndsAt(a, b.ents, e, s) {
          OwnSlotsDiffer(a, b, i - 1, e, s);
          OwnSlotsDiffer(a, b, e, i - 1, s);
        }
      }
    }
  }

  lemma OwnWritesInRange(a: nat, b: Builder, s: nat)
    requires WellFormed(b)
    ensures OwnWrites(a, b.ents, |b.ents|, s) == if a <= s < a + Own(b) then 1 else 0
  {
    OwnWritesExactly(a, b, |b.ents|, s);
    if a <= s < a + Own(b) {
      var i := OwnerOf(a, b, s);
      assert LinksAt(a, b.ents, i, s) || EndsAt(a, b.ents, i, s);
    } else {
      DistinctSlots(b);
      forall e | 0 <= e < |b.ents| ensures !LinksAt(a, b.ents, e, s) && !EndsAt(a, b.ents, e, s) {
        OwnSlots(a, b.ents, e);
      }
    }
  }

  lemma {:induction false} InnerWritesExactly(a: nat, b: Builder, i: nat, s: nat)
    requires WellFormed(b) && i <= |b.ents|
    ensures InnerWrites(a, b, i, s) == if a + Own(b) <= s < a + Own(b) + InnerBefore(b, i) then 1 else 0
    decreases b, i
  {
    if i != 0 {
      InnerWritesExactly(a, b, i - 1, s);
      var e := b.ents[i - 1];
      if HasKids(e) {
        OwnWritesInRange(AuxAt(a, b, i - 1), e.next, s);
        InnerWritesExactly(AuxAt(a, b, i - 1), e.next, |e.next.ents|, s);
      }
    }
  }

  /** gbuf_fill writes every slot within the computed size exactly once, and no other. */
  lemma EverySlotIsWrittenOnce(a: nat, b: Builder, s: nat)
    requires WellFormed(b)
    ensures Writes(a, b, s) == if a <= s < a + AuxOf(b) then 1 else 0
  {
    hide OwnWrites, InnerWrites, WellFormed, InnerBefore, Own;
    OwnWritesInRange(a, b, s);
    InnerWritesExactly(a, b, |b.ents|, s);
  }

  // ---------- logs of the slots written ----------

  /** From log w to log w' entry i and the trie below it have been written. */
  ghost predicate LogsEntry(w: multiset<nat>, w': multiset<nat>, a: nat, b: Builder, i: nat)
    requires i < |b.ents|
  {
    forall s: nat {:trigger w'[s]} ::
      w'[s] == w[s] + (if LinksAt(a, b.ents, i, s) then 1 else 0) + (if EndsAt(a, b.ents, i, s) then 1 else 0)
               + if HasKids(b.ents[i]) then Writes(AuxAt(a, b, i), b.ents[i].next, s) else 0
  }

  /** ... the first i entries and the tries below them. */
  ghost predicate LogsEntries(w: multiset<nat>, w': multiset<nat>, a: nat, b: Builder, i: nat)
    requires i <= |b.ents|
  {
    forall s: nat {:trigger w'[s]} :: w'[s] == w[s] + OwnWrites(a, b.ents, i, s) + InnerWrites(a, b, i, s)
  }

  /** ... the whole trie. */
  ghost predicate LogsTrie(w: multiset<nat>, w': multiset<nat>, a: nat, b: Builder) {
    forall s: nat {:trigger w'[s]} :: w'[s] == w[s] + Writes(a, b, s)
  }

  lemma LogsNone(w: multiset<nat>, a: nat, b: Builder)
    ensures LogsEntries(w, w, a, b, 0)
  {
    forall s: nat ensures w[s] == w[s] + OwnWrites(a, b.ents, 0, s) + InnerWrites(a, b, 0, s) {
      assert OwnWrites(a, b.ents, 0, s) == 0 && InnerWrites(a, b, 0, s) == 0;
    }
  }

  lemma LogsNext(w: multiset<nat>, w1: multiset<nat>, w2: multiset<nat>, a: nat, b: Builder, i: nat)
    requires i < |b.ents| && LogsEntries(w, w1, a, b, i) && LogsEntry(w1, w2, a, b, i)
    ensures LogsEntries(w, w2, a, b, i + 1)
  {
    hide LinksAt, EndsAt;
    forall s: nat ensures w2[s] == w[s] + OwnWrites(a, b.ents, i + 1, s) + InnerWrites(a, b, i + 1, s) {
      assert w1[s] == w[s] + OwnWrites(a, b.ents, i, s) + InnerWrites(a, b, i, s);
    }
  }

  lemma LogsAll(w: multiset<nat>, w': multiset<nat>, a: nat, b: Builder)
    requires LogsEntries(w, w', a, b, |b.ents|)
    ensures LogsTrie(w, w', a, b)
  {
    hide OwnWrites, InnerWrites;
  }

  /** One entry: its value, its link, and the trie below it. */
  lemma LogsOne(w: multiset<nat>, w1: multiset<nat>, w2: multiset<nat>, w3: multiset<nat>, a: nat, b: Builder, i: nat)
    requires i < |b.ents|
    requires w1 == if b.ents[i].term then w + multiset{TermSlot(a, b.ents, i)} else w
    requires w2 == if HasKids(b.ents[i]) then w1 + multiset{LinkSlot(a, b.ents, i)} else w1
    requires if HasKids(b.ents[i]) then LogsTrie(w2, w3, AuxAt(a, b, i), b.ents[i].next) else w3 == w2
    ensures LogsEntry(w, w3, a, b, i)
  {
    hide Writes, LinkSlot, TermSlot;
  }
}
