/** What the stackless copying loop of cc_omap_init_clone has done when it stands at a place. */
module RedBlackClone {
  import opened RedBlackTree
  import opened RedBlackMemory
  import opened SortedItems

  /** t has the shape, colours, keys and elements of s, at addresses of its own. */
  ghost predicate CopyOf<K, V>(s: Tree<K, V>, t: Tree<K, V>) {
    (s.Leaf? <==> t.Leaf?) &&
    (s.Node? ==>
       && t.red == s.red && t.item.key == s.item.key && t.item.el == s.item.el
       && CopyOf(s.kid0, t.kid0) && CopyOf(s.kid1, t.kid1))
  }

  /** The node t copies the node s; of the subtrees of s none, the first or both have been copied. */
  ghost predicate Started<K, V>(s: Tree<K, V>, t: Tree<K, V>) {
    && s.Node? && t.Node?
    && t.red == s.red && t.item.key == s.item.key && t.item.el == s.item.el
    && (t.kid0.Leaf? || CopyOf(s.kid0, t.kid0))
    && (t.kid1.Leaf? || (CopyOf(s.kid0, t.kid0) && CopyOf(s.kid1, t.kid1)))
  }

  /** Around the place: first subtrees passed have been copied, second ones still ahead have not. */
  ghost predicate PathStarted<K, V>(p: Path<K, V>, q: Path<K, V>) {
    (p.Top? <==> q.Top?) &&
    (p.Down? ==>
       && q.dir == p.dir && q.red == p.red && q.item.key == p.item.key && q.item.el == p.item.el
       && (if p.dir then CopyOf(p.other, q.other) else q.other.Leaf?)
       && PathStarted(p.up, q.up))
  }

  /** Steps left. */
  function Todo<K, V>(s: Tree<K, V>, t: Tree<K, V>): nat
    requires s.Node? && t.Node?
  {
    1 + (if t.kid0.Leaf? then Load(s.kid0) else 0) + (if t.kid1.Leaf? then Load(s.kid1) else 0)
  }

  function PathTodo<K, V>(p: Path<K, V>): nat {
    if p.Top? then 0 else 1 + (if p.dir then 0 else Load(p.other)) + PathTodo(p.up)
  }

  /** Descending to the child on side dir, just copied. */
  lemma CopiedChild<K, V>(p: Path<K, V>, s: Tree<K, V>, q: Path<K, V>, t: Tree<K, V>, dir: bool, r: Ref)
    requires PathStarted(p, q) && Started(s, t) && Kid(s, dir).Node? && Kid(t, dir).Leaf?
    requires dir ==> s.kid0.Leaf? || t.kid0.Node?
    ensures var k := Kid(s, dir);
      var p', q' := Down(p, dir, s.red, s.item, Kid(s, !dir)), Down(q, dir, t.red, t.item, Kid(t, !dir));
      var t' := Node(k.red, Item(r, k.item.key, k.item.el), Leaf, Leaf);
      PathStarted(p', q') && Started(k, t') && PathTodo(p') + Todo(k, t') < PathTodo(p) + Todo(s, t)
  {}

  /** When no child is left to copy, the subtree has been copied, and the loop goes up. */
  lemma CopiedTree<K, V>(p: Path<K, V>, s: Tree<K, V>, q: Path<K, V>, t: Tree<K, V>)
    requires PathStarted(p, q) && Started(s, t)
    requires s.kid0.Leaf? || t.kid0.Node?
    requires s.kid1.Leaf? || t.kid1.Node?
    ensures CopyOf(s, t) && (p.Top? <==> q.Top?)
    ensures p.Down? ==> var s', t' := Make(p.red, p.item, p.dir, s, p.other), Make(q.red, q.item, q.dir, t, q.other);
      PathStarted(p.up, q.up) && Started(s', t') && PathTodo(p.up) + Todo(s', t') < PathTodo(p) + Todo(s, t)
  {}

  // ---------- how many nodes have been copied ----------

  function Nodes<K, V>(t: Tree<K, V>): nat {
    if t.Leaf? then 0 else 1 + Nodes(t.kid0) + Nodes(t.kid1)
  }

  function PathNodes<K, V>(p: Path<K, V>): nat {
    if p.Top? then 0 else 1 + Nodes(p.other) + PathNodes(p.up)
  }

  lemma {:induction false} NodesAreItems<K, V>(t: Tree<K, V>)
    ensures Nodes(t) == |Items(t)|
  {
    if t.Node? {
      NodesAreItems(t.kid0);
      NodesAreItems(t.kid1);
    }
  }

  lemma {:induction false} NodesOfPlug<K, V>(p: Path<K, V>, t: Tree<K, V>)
    ensures Nodes(Plug(p, t)) == Nodes(t) + PathNodes(p)
  {
    if p.Down? {
      NodesUp(p, t);
      NodesOfPlug(p.up, Make(p.red, p.item, p.dir, t, p.other));
    }
  }

  /** Going up changes nothing. */
  lemma NodesUp<K, V>(p: Path<K, V>, t: Tree<K, V>)
    requires p.Down?
    ensures Nodes(Make(p.red, p.item, p.dir, t, p.other)) + PathNodes(p.up) == Nodes(t) + PathNodes(p)
  {}

  /** Copying a child adds one. */
  lemma NodesDown<K, V>(q: Path<K, V>, t: Tree<K, V>, dir: bool, red: bool, item: Item<K, V>)
    requires t.Node? && Kid(t, dir).Leaf?
    ensures Nodes(Node(red, item, Leaf, Leaf)) == 1
    ensures 1 + PathNodes(Down(q, dir, t.red, t.item, Kid(t, !dir))) == 1 + Nodes(t) + PathNodes(q)
  {
    assert Nodes(Kid(t, dir)) == 0;
  }

  lemma {:induction false} CopyHasNodes<K, V>(s: Tree<K, V>, t: Tree<K, V>)
    requires CopyOf(s, t)
    ensures Nodes(t) == Nodes(s)
  {
    if s.Node? {
      CopyHasNodes(s.kid0, t.kid0);
      CopyHasNodes(s.kid1, t.kid1);
    }
  }

  /** While a child of s is left to copy, fewer nodes have been copied than there are. */
  lemma StartedHasFewer<K, V>(s: Tree<K, V>, t: Tree<K, V>)
    requires Started(s, t)
    ensures Nodes(t) <= Nodes(s)
    ensures (s.kid0.Node? && t.kid0.Leaf?) || (s.kid1.Node? && t.kid1.Leaf?) ==> Nodes(t) < Nodes(s)
  {
    if t.kid0.Node? { CopyHasNodes(s.kid0, t.kid0); }
    if t.kid1.Node? { CopyHasNodes(s.kid1, t.kid1); }
  }

  lemma {:induction false} PathHasFewer<K, V>(p: Path<K, V>, q: Path<K, V>)
    requires PathStarted(p, q)
    ensures PathNodes(q) <= PathNodes(p)
  {
    if p.Down? {
      if p.dir { CopyHasNodes(p.other, q.other); }
      PathHasFewer(p.up, q.up);
    }
  }

  ghost predicate SameContents<K, V>(s: seq<Item<K, V>>, t: seq<Item<K, V>>) {
    |s| == |t| && forall i :: 0 <= i < |s| ==> s[i].key == t[i].key && s[i].el == t[i].el
  }

  lemma {:induction false} CopyKeeps<K, V>(s: Tree<K, V>, t: Tree<K, V>)
    requires CopyOf(s, t)
    ensures SameContents(Items(s), Items(t))
    ensures BlackHeight(t) == BlackHeight(s) && (Balanced(s) ==> Balanced(t))
  {
    if s.Node? {
      CopyKeeps(s.kid0, t.kid0);
      CopyKeeps(s.kid1, t.kid1);
    }
  }

  lemma {:induction false} SameContentsSameMap<K, V>(s: seq<Item<K, V>>, t: seq<Item<K, V>>)
    requires SameContents(s, t)
    ensures ToMap(s) == ToMap(t)
  {
    if s != [] {
      SameContentsSameMap(s[..|s| - 1], t[..|t| - 1]);
    }
  }
}
