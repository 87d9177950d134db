/** What the colours are for: a red-black tree is shallow. */
module RedBlackHeight {
  import opened RedBlackTree
  import opened Probe

  function Larger(a: nat, b: nat): nat {
    if a < b then b else a
  }

  /** How many nodes the longest way down crosses. */
  function Height<K, V>(t: Tree<K, V>): nat {
    if t.Leaf? then 0 else 1 + Larger(Height(t.kid0), Height(t.kid1))
  }

  lemma {:induction false} BlackNodesAlone<K, V>(t: Tree<K, V>)
    requires Balanced(t)
    ensures Pow2(BlackHeight(t)) <= |Items(t)| + 1
  {
    if t.Node? {
      BlackNodesAlone(t.kid0);
      BlackNodesAlone(t.kid1);
    }
  }

  lemma {:induction false} HalfAreBlack<K, V>(t: Tree<K, V>)
    requires Balanced(t)
    ensures Height(t) <= 2 * BlackHeight(t) + if IsRed(t) then 1 else 0
  {
    if t.Node? {
      HalfAreBlack(t.kid0);
      HalfAreBlack(t.kid1);
    }
  }

  lemma {:induction false} Pow2Grows(a: nat, b: nat)
    requires a <= b
    ensures Pow2(a) <= Pow2(b)
  {
    if a < b {
      Pow2Grows(a, b - 1);
    }
  }

  /** A red-black tree of n items is at most 2 * log2(n + 1) nodes high. */
  lemma RedBlackIsShallow<K, V>(t: Tree<K, V>)
    requires RedBlack(t)
    ensures Pow2((Height(t) + 1) / 2) <= |Items(t)| + 1
  {
    BlackNodesAlone(t);
    HalfAreBlack(t);
    Pow2Grows((Height(t) + 1) / 2, BlackHeight(t));
  }
}
