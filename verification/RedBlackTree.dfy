/** Red-black trees as values: a tree, a path from the root to a place in it, and what the colours require. */
module RedBlackTree {

  // Node addresses.  The sentinel is one object that belongs to no tree.
  type Ref = nat
  const SENTINEL: Ref := 0

  /** What a node keeps for its whole life: its address, its key and its element. */
  datatype Item<K, V> = Item(ref: Ref, key: K, el: V)

  /** kid0 and kid1 are the subtrees at children[0] and children[1]. */
  datatype Tree<K, V> = Leaf | Node(red: bool, item: Item<K, V>, kid0: Tree<K, V>, kid1: Tree<K, V>)

  /** Down(up, d, red, item, other): from the place up, one step to children[d] of a node whose other child is
      other. */
  datatype Path<K, V> = Top | Down(up: Path<K, V>, dir: bool, red: bool, item: Item<K, V>, other: Tree<K, V>)

  /** The node whose children[dir] is a and whose children[!dir] is b. */
  function Make<K, V>(red: bool, item: Item<K, V>, dir: bool, a: Tree<K, V>, b: Tree<K, V>): Tree<K, V> {
    if dir then Node(red, item, b, a) else Node(red, item, a, b)
  }

  function Kid<K, V>(t: Tree<K, V>, dir: bool): Tree<K, V>
    requires t.Node?
  {
    if dir then t.kid1 else t.kid0
  }

  function Plug<K, V>(p: Path<K, V>, t: Tree<K, V>): Tree<K, V> {
    match p
    case Top => t
    case Down(up, dir, red, item, other) => Plug(up, Make(red, item, dir, t, other))
  }

  function Depth<K, V>(p: Path<K, V>): nat {
    if p.Top? then 0 else 1 + Depth(p.up)
  }

  // ---------- in-order contents ----------

  function Items<K, V>(t: Tree<K, V>): seq<Item<K, V>> {
    if t.Leaf? then [] else Items(t.kid0) + [t.item] + Items(t.kid1)
  }

  /** The items before the place p. */
  function Pre<K, V>(p: Path<K, V>): seq<Item<K, V>> {
    match p
    case Top => []
    case Down(up, dir, _, item, other) => if dir then Pre(up) + Items(other) + [item] else Pre(up)
  }

  /** The items after the place p. */
  function Post<K, V>(p: Path<K, V>): seq<Item<K, V>> {
    match p
    case Top => []
    case Down(up, dir, _, item, other) => if dir then Post(up) else [item] + Items(other) + Post(up)
  }

  lemma {:induction false} ItemsOfPlug<K, V>(p: Path<K, V>, t: Tree<K, V>)
    ensures Items(Plug(p, t)) == Pre(p) + Items(t) + Post(p)
  {
    if p.Down? {
      var m := Make(p.red, p.item, p.dir, t, p.other);
      ItemsOfPlug(p.up, m);
      if p.dir {
        Regroup(Pre(p.up), Items(p.other) + [p.item], Items(t), Post(p.up));
        assert Pre(p.up) + (Items(p.other) + [p.item]) == Pre(p);
      } else {
        Regroup(Pre(p.up), Items(t), [p.item] + Items(p.other), Post(p.up));
        assert Items(m) == Items(t) + ([p.item] + Items(p.other));
      }
    }
  }

  lemma Regroup<T>(a: seq<T>, b: seq<T>, c: seq<T>, d: seq<T>)
    ensures a + (b + c) + d == (a + b) + c + d == a + b + (c + d)
  {}

  /** Rotation towards dir keeps the in-order contents. */
  lemma RotationKeepsItems<K, V>(r1: bool, x: Item<K, V>, r2: bool, y: Item<K, V>, s1: bool, s2: bool, dir: bool,
                                 a: Tree<K, V>, b: Tree<K, V>, c: Tree<K, V>)
    ensures Items(Make(r1, x, dir, a, Make(r2, y, dir, b, c))) == Items(Make(s2, y, dir, Make(s1, x, dir, a, b), c))
  {
    if dir {
      assert Items(c) + [y] + Items(b) + [x] + Items(a) == Items(c) + [y] + (Items(b) + [x] + Items(a));
    } else {
      assert Items(a) + [x] + (Items(b) + [y] + Items(c)) == Items(a) + [x] + Items(b) + [y] + Items(c);
    }
  }

  // ---------- addresses ----------

  function RefOf<K, V>(t: Tree<K, V>): Ref {
    if t.Leaf? then SENTINEL else t.item.ref
  }

  function ParentRef<K, V>(p: Path<K, V>): Ref {
    if p.Top? then SENTINEL else p.item.ref
  }

  function RootRef<K, V>(p: Path<K, V>, hole: Ref): Ref {
    if p.Top? then hole else RootRef(p.up, p.item.ref)
  }

  function Refs<K, V>(t: Tree<K, V>): set<Ref> {
    if t.Leaf? then {} else Refs(t.kid0) + {t.item.ref} + Refs(t.kid1)
  }

  function PathRefs<K, V>(p: Path<K, V>): set<Ref> {
    if p.Top? then {} else PathRefs(p.up) + {p.item.ref} + Refs(p.other)
  }

  lemma {:induction false} RefsOfPlug<K, V>(p: Path<K, V>, t: Tree<K, V>)
    ensures Refs(Plug(p, t)) == PathRefs(p) + Refs(t)
    ensures RefOf(Plug(p, t)) == RootRef(p, RefOf(t))
  {
    if p.Down? {
      RefsOfPlug(p.up, Make(p.red, p.item, p.dir, t, p.other));
    }
  }

  // ---------- colours ----------

  predicate IsRed<K, V>(t: Tree<K, V>) {
    t.Node? && t.red
  }

  function BlackHeight<K, V>(t: Tree<K, V>): nat {
    if t.Leaf? then 0 else BlackHeight(t.kid0) + (if t.red then 0 else 1)
  }

  /** No red node has a red child, and all ways down cross equally many black nodes. */
  predicate Balanced<K, V>(t: Tree<K, V>) {
    t.Node? ==>
      && Balanced(t.kid0) && Balanced(t.kid1) && BlackHeight(t.kid0) == BlackHeight(t.kid1)
      && (t.red ==> !IsRed(t.kid0) && !IsRed(t.kid1))
  }

  predicate RedBlack<K, V>(t: Tree<K, V>) {
    Balanced(t) && !IsRed(t)
  }

  predicate RedPath<K, V>(p: Path<K, V>) {
    p.Down? && p.red
  }

  /** Around the place p everything is as in a red-black tree, if a subtree of black height h, black when the node
      above it is red, stands there. */
  predicate Fits<K, V>(p: Path<K, V>, h: nat) {
    p.Down? ==>
      && Balanced(p.other) && BlackHeight(p.other) == h
      && (p.red ==> !IsRed(p.other) && p.up.Down? && !p.up.red)
      && Fits(p.up, h + if p.red then 0 else 1)
  }

  lemma {:induction false} PlugBalanced<K, V>(p: Path<K, V>, t: Tree<K, V>)
    requires Balanced(t) && Fits(p, BlackHeight(t))
    requires IsRed(t) ==> p.Down? && !p.red
    ensures RedBlack(Plug(p, t))
  {
    if p.Down? {
      PlugBalanced(p.up, Make(p.red, p.item, p.dir, t, p.other));
    }
  }

  lemma {:induction false} UnplugBalanced<K, V>(p: Path<K, V>, t: Tree<K, V>)
    requires RedBlack(Plug(p, t))
    ensures Balanced(t) && Fits(p, BlackHeight(t))
    ensures IsRed(t) ==> p.Down? && !p.red
  {
    if p.Down? {
      UnplugBalanced(p.up, Make(p.red, p.item, p.dir, t, p.other));
    }
  }

  // ---------- places ----------

  /** The place of a node in a tree. */
  lemma {:induction false} Locate<K, V>(p: Path<K, V>, t: Tree<K, V>, ref: Ref) returns (q: Path<K, V>, s: Tree<K, V>)
    requires ref in Refs(t)
    ensures Plug(q, s) == Plug(p, t) && s.Node? && s.item.ref == ref
    decreases t
  {
    if t.item.ref == ref {
      q, s := p, t;
    } else if ref in Refs(t.kid0) {
      q, s := Locate(Down(p, false, t.red, t.item, t.kid1), t.kid0, ref);
    } else {
      q, s := Locate(Down(p, true, t.red, t.item, t.kid0), t.kid1, ref);
    }
  }

  /** The rotation of t towards dir. */
  function RotateTree<K, V>(t: Tree<K, V>, dir: bool): Tree<K, V>
    requires t.Node? && Kid(t, !dir).Node?
  {
    var y := Kid(t, !dir);
    Make(y.red, y.item, dir, Make(t.red, t.item, dir, Kid(t, dir), Kid(y, dir)), Kid(y, !dir))
  }

  lemma KidsOfMake<K, V>(red: bool, item: Item<K, V>, dir: bool, a: Tree<K, V>, b: Tree<K, V>)
    ensures Kid(Make(red, item, dir, a, b), dir) == a && Kid(Make(red, item, dir, a, b), !dir) == b
    ensures Make(red, item, !dir, b, a) == Make(red, item, dir, a, b)
    ensures Make(red, item, dir, a, b).Node? && Make(red, item, dir, a, b).item == item
    ensures Make(red, item, dir, a, b).red == red
    ensures forall r :: Make(red, item, dir, a, b).(red := r) == Make(r, item, dir, a, b)
  {}

  lemma BalancedMake<K, V>(red: bool, item: Item<K, V>, dir: bool, a: Tree<K, V>, b: Tree<K, V>)
    requires Balanced(a) && Balanced(b) && BlackHeight(a) == BlackHeight(b)
    requires red ==> !IsRed(a) && !IsRed(b)
    ensures Balanced(Make(red, item, dir, a, b))
    ensures BlackHeight(Make(red, item, dir, a, b)) == BlackHeight(a) + if red then 0 else 1
  {}

  /** The contents around a node. */
  lemma ItemsAround<K, V>(p: Path<K, V>, t: Tree<K, V>)
    requires t.Node?
    ensures Items(Plug(p, t)) == (Pre(p) + Items(t.kid0)) + [t.item] + (Items(t.kid1) + Post(p))
  {
    ItemsOfPlug(p, t);
    RegroupNode(Pre(p), Items(t.kid0), t.item, Items(t.kid1), Post(p));
  }

  lemma RegroupNode<T>(a: seq<T>, b: seq<T>, x: T, c: seq<T>, d: seq<T>)
    ensures a + (b + [x] + c) + d == (a + b) + [x] + (c + d)
  {}

  lemma {:induction false} RefsAreItems<K, V>(t: Tree<K, V>)
    ensures Refs(t) == set x | x in Items(t) :: x.ref
  {
    if t.Node? {
      RefsAreItems(t.kid0);
      RefsAreItems(t.kid1);
      assert forall x :: x in Items(t) <==> x in Items(t.kid0) || x == t.item || x in Items(t.kid1);
    }
  }
}
