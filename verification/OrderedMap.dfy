/** The ordered map of cc.h:4163-4923: a red-black tree of nodes with parent links. */
module OrderedMap {
  import opened Options
  import opened RedBlackTree
  import opened RedBlackMemory
  import opened RedBlackInsert
  import opened RedBlackErase
  import opened SortedItems
  import opened RedBlackClone

  /** Positions: before the first node, at a node, after the last (cc.h:4265-4287). */
  datatype Iterator = REnd | At(node: Ref) | End

  function EndOf(dir: bool): Iterator {
    if dir then End else REnd
  }

  /** itr is position i of the sequence s, -1 and |s| being the positions outside. */
  ghost predicate Stands<K, V>(s: seq<Item<K, V>>, itr: Iterator, i: int) {
    match itr
    case REnd => i == -1
    case End => i == |s|
    case At(r) => 0 <= i < |s| && s[i].ref == r
  }

  /** What follows the header of a node in memory. */
  datatype Entry<K, V> = Entry(key: K, el: V)

  /** Every item's key and element lie at its address. */
  ghost predicate Stored<K, V>(data: map<Ref, Entry<K, V>>, s: seq<Item<K, V>>) {
    forall x :: x in s ==> x.ref in data && data[x.ref] == Entry(x.key, x.el)
  }

  class COMap<K(==, !new), V> {
    const cmpr: (K, K) -> int
    var size: nat
    var root: Ref
    var mem: Memory
    var data: map<Ref, Entry<K, V>>
    ghost var tree: Tree<K, V>

    ghost predicate Valid()
      reads this
    {
      && TotalOrder(cmpr) && Sorted(cmpr, Items(tree)) && size == |Items(tree)|
      && Here(mem, root, Top, tree) && mem.Keys == data.Keys == Refs(tree) && Stored(data, Items(tree))
      && RedBlack(tree)
    }

    /** The plain map that this map stands for. */
    ghost function Contents(): map<K, V>
      reads this
    {
      ToMap(Items(tree))
    }

    /** is_red of a node or of the sentinel. */
    function Red(r: Ref): bool
      requires r != SENTINEL ==> r in mem
      reads `mem
    {
      r != SENTINEL && mem[r].red
    }

    /** The first assignments of cc_omap_rotate (cc.h:4403-4408): the inner subtree changes sides. */
    method RotateInnerLinks(node: Ref, child: Ref, dir: bool)
      requires SENTINEL !in mem && node in mem && child in mem && child != node
      requires mem[child].Child(dir) != SENTINEL ==>
                 mem[child].Child(dir) in mem && mem[child].Child(dir) != node && mem[child].Child(dir) != child
      modifies `mem
      ensures mem.Keys == old(mem.Keys)
      ensures mem[node] == old(mem[node].SetChild(!dir, mem[child].Child(dir)))
      ensures mem[child] == old(mem[child].(parent := mem[node].parent))
      ensures forall r {:trigger mem[r]} :: r in mem && r != node && r != child ==>
                mem[r] == if r == old(mem[child].Child(dir)) then old(mem)[r].(parent := node) else old(mem)[r]
    {
      var inner := mem[child].Child(dir);
      mem := mem[node := mem[node].SetChild(!dir, inner)];
      if inner != SENTINEL {
        mem := mem[inner := mem[inner].(parent := node)];
      }
      if child != SENTINEL {
        mem := mem[child := mem[child].(parent := mem[node].parent)];
      }
    }

    /** The remaining assignments of cc_omap_rotate (cc.h:4410-4417): child takes the place of node and node goes below. */
    method RotateOuterLinks(node: Ref, child: Ref, dir: bool)
      requires SENTINEL !in mem && node in mem && child in mem && child != node
      requires mem[node].parent != SENTINEL ==>
                 mem[node].parent in mem && mem[node].parent != node && mem[node].parent != child
      modifies `mem, `root
      ensures mem.Keys == old(mem.Keys)
      ensures mem[node] == old(mem[node].(parent := child)) && mem[child] == old(mem[child].SetChild(dir, node))
      ensures forall r {:trigger mem[r]} :: r in mem && r != node && r != child ==>
                mem[r] == if r == old(mem[node].parent) then old(mem)[r].SetChild(node == old(mem)[r].child1, child) else old(mem)[r]
      ensures root == if old(mem[node].parent) != SENTINEL then old(root) else child
    {
      var up := mem[node].parent;
      if up != SENTINEL {
        mem := mem[up := mem[up].SetChild(node == mem[up].child1, child)];
      } else {
        root := child;
      }
      mem := mem[child := mem[child].SetChild(dir, node)];
      if node != SENTINEL {
        mem := mem[node := mem[node].(parent := child)];
      }
    }

    /** The assignments of cc_omap_rotate. */
    method RotateLinks(node: Ref, dir: bool, ghost p: Path<K, V>, ghost y: Ref, ghost b: Tree<K, V>)
      requires SENTINEL !in mem
      requires node in mem && mem[node].Child(!dir) == y && mem[node].parent == ParentRef(p)
      requires y in mem && mem[y].Child(dir) == RefOf(b) && y != node
      requires b.Node? ==> b.item.ref in mem && b.item.ref !in {node, y, ParentRef(p)}
      requires p.Down? ==> p.item.ref in mem && p.item.ref !in {node, y}
      requires p.Down? ==> mem[p.item.ref].Child(p.dir) == node && mem[p.item.ref].Child(!p.dir) != node
      modifies `mem, `root
      ensures Rotated(old(mem), mem, p, node, y, b, dir)
      ensures root == if p.Down? then old(root) else y
    {
      var child := mem[node].Child(!dir);
      RotateInnerLinks(node, child, dir);
      RotateOuterLinks(node, child, dir);
    }

    /** cc_omap_rotate, cc.h:4395-4418. */
    method Rotate(node: Ref, dir: bool, ghost p: Path<K, V>, ghost t: Tree<K, V>)
      requires Here(mem, root, p, t) && t.Node? && Kid(t, !dir).Node? && node == t.item.ref && SENTINEL !in mem
      modifies `mem, `root
      ensures Here(mem, root, p, RotateTree(t, dir)) && mem.Keys == old(mem.Keys)
    {
      ghost var m, r, y := mem, root, Kid(t, !dir);
      ghost var a, b, c := Kid(t, dir), Kid(y, dir), Kid(y, !dir);
      assert t == Make(t.red, t.item, dir, a, Make(y.red, y.item, dir, b, c));
      RotationLinks(mem, root, p, t, y, b, dir);
      hide Rep, RepPath, Refs, PathRefs, Here;
      RotateLinks(node, dir, p, y.item.ref, b);
      RotatedRep(m, r, mem, p, dir, t.red, t.item, a, y.red, y.item, b, c);
      RootOfRotated(p, r, t.item.ref, y.item.ref);
    }

    method SetRed(r: Ref, red: bool, ghost p: Path<K, V>, ghost t: Tree<K, V>)
      requires Here(mem, root, p, t) && t.Node? && r == t.item.ref
      modifies `mem
      ensures Here(mem, root, p, t.(red := red)) && mem.Keys == old(mem.Keys)
    {
      FamilyLinks(mem, root, p, t);
      Painted(mem, root, p, t, red);
      mem := mem[r := mem[r].(red := red)];
    }

    /** Paint the node just above the place. */
    method PaintParent(r: Ref, red: bool, ghost p: Path<K, V>, ghost t: Tree<K, V>)
      requires Here(mem, root, p, t) && p.Down? && r == p.item.ref
      modifies `mem
      ensures Here(mem, root, p.(red := red), t) && mem.Keys == old(mem.Keys)
    {
      hide Rep, RepPath, Refs, PathRefs, Here;
      ghost var par := Make(p.red, p.item, p.dir, t, p.other);
      GoUp(mem, root, p, t);
      SetRed(r, red, p.up, par);
      KidsOfMake(p.red, p.item, p.dir, t, p.other);
      KidsOfMake(red, p.item, p.dir, t, p.other);
      GoDown(mem, root, p.up, Make(red, p.item, p.dir, t, p.other), p.dir);
    }

    /** Paint the sibling of the place. */
    method PaintSibling(r: Ref, red: bool, ghost p: Path<K, V>, ghost t: Tree<K, V>)
      requires Here(mem, root, p, t) && p.Down? && p.other.Node? && r == p.other.item.ref
      modifies `mem
      ensures Here(mem, root, p.(other := p.other.(red := red)), t) && mem.Keys == old(mem.Keys)
    {
      hide Rep, RepPath, Refs, PathRefs, Here;
      ghost var other' := p.other.(red := red);
      KidsOfMake(p.red, p.item, p.dir, t, p.other);
      KidsOfMake(p.red, p.item, p.dir, t, other');
      GoUp(mem, root, p, t);
      GoDown(mem, root, p.up, Make(p.red, p.item, p.dir, t, p.other), !p.dir);
      ghost var q := Down(p.up, !p.dir, p.red, p.item, t);
      SetRed(r, red, q, p.other);
      GoUp(mem, root, q, other');
      GoDown(mem, root, p.up, Make(p.red, p.item, p.dir, t, other'), p.dir);
    }

    /** The first branch of cc_omap_post_insert_fixup (cc.h:4431-4437): the parent and the uncle of node are red. */
    method PaintFamily(node: Ref, ghost p: Path<K, V>, ghost t: Tree<K, V>)
      requires Here(mem, root, p, t) && t.Node? && node == t.item.ref
      requires p.Down? && p.up.Down? && p.up.other.Node?
      modifies `mem
      ensures Here(mem, root, p.up.up, Make(true, p.up.item, p.up.dir, Make(false, p.item, p.dir, t, p.other),
                                            p.up.other.(red := false)))
      ensures mem.Keys == old(mem.Keys)
    {
      hide Rep, RepPath, Refs, PathRefs, Here;
      FamilyLinks(mem, root, p, t);
      var parent := mem[node].parent;
      PaintParent(parent, false, p, t);
      GoUp(mem, root, p.(red := false), t);
      ghost var g, par := p.up, Make(false, p.item, p.dir, t, p.other);
      FamilyLinks(mem, root, g, par);
      var grandparent := mem[parent].parent;
      PaintSibling(mem[grandparent].Child(parent == mem[grandparent].child0), false, g, par);
      ghost var g' := g.(other := g.other.(red := false));
      PaintParent(grandparent, true, g', par);
      GoUp(mem, root, g'.(red := true), par);
    }

    /** cc.h:4440-4444: node, an inner grandchild, changes places with its parent. */
    method RotateInner(node: Ref, dir: bool, ghost p: Path<K, V>, ghost t: Tree<K, V>) returns (parent: Ref)
      requires Here(mem, root, p, t) && t.Node? && node == t.item.ref && p.Down? && p.dir == dir && SENTINEL !in mem
      modifies `mem, `root
      ensures Here(mem, root, Down(p.up, !dir, t.red, t.item, Kid(t, dir)),
                   Make(p.red, p.item, !dir, p.other, Kid(t, !dir)))
      ensures parent == p.item.ref && mem.Keys == old(mem.Keys)
    {
      hide Rep, RepPath, Refs, PathRefs, Here;
      FamilyLinks(mem, root, p, t);
      GoUp(mem, root, p, t);
      ghost var par := Make(p.red, p.item, dir, t, p.other);
      parent := mem[node].parent;
      Rotate(parent, !dir, p.up, par);
      GoDown(mem, root, p.up, RotateTree(par, !dir), !dir);
    }

    /** cc.h:4446-4448: node is an outer grandchild. */
    method RotateOuter(node: Ref, dir: bool, ghost p: Path<K, V>, ghost t: Tree<K, V>)
      requires Here(mem, root, p, t) && t.Node? && node == t.item.ref && SENTINEL !in mem
      requires p.Down? && p.up.Down? && p.dir == p.up.dir == !dir
      modifies `mem, `root
      ensures Here(mem, root, Down(p.up.up, !dir, false, p.item, Make(true, p.up.item, dir, p.up.other, p.other)), t)
      ensures mem.Keys == old(mem.Keys)
    {
      hide Rep, RepPath, Refs, PathRefs, Here;
      ghost var g, par := p.up, Make(p.red, p.item, !dir, t, p.other);
      FamilyLinks(mem, root, p, t);
      GoUp(mem, root, p, t);
      var parent := mem[node].parent;
      SetRed(parent, false, g, par);

      ghost var par' := Make(false, p.item, !dir, t, p.other);
      KidsOfMake(p.red, p.item, !dir, t, p.other);
      FamilyLinks(mem, root, g, par');
      GoUp(mem, root, g, par');
      ghost var grand := Make(g.red, g.item, !dir, par', g.other);
      KidsOfMake(g.red, g.item, !dir, par', g.other);
      var grandparent := mem[parent].parent;
      SetRed(grandparent, true, g.up, grand);

      ghost var grand' := Make(true, g.item, !dir, par', g.other);
      Rotate(grandparent, dir, g.up, grand');
      GoDown(mem, root, g.up, RotateTree(grand', dir), !dir);
    }

    /** The body of the loop of cc_omap_post_insert_fixup (cc.h:4426-4450). */
    method ClimbOnce(node: Ref, ghost p: Path<K, V>, ghost t: Tree<K, V>)
      returns (next: Ref, ghost q: Path<K, V>, ghost s: Tree<K, V>)
      requires Here(mem, root, p, t) && Climbing(p, t) && RedPath(p) && node == RefOf(t) && SENTINEL !in mem
      modifies `mem, `root
      ensures Here(mem, root, q, s) && Climbing(q, s) && next == RefOf(s) && Depth(q) < Depth(p)
      ensures Items(Plug(q, s)) == Items(Plug(p, t)) && mem.Keys == old(mem.Keys)
    {
      hide Rep, RepPath, Refs, PathRefs, Here, Climbing, Fits, Balanced, Plug, Items;
      ClimbingNode(p, t);
      FamilyLinks(mem, root, p, t);
      GoUp(mem, root, p, t);
      FamilyLinks(mem, root, p.up, Make(p.red, p.item, p.dir, t, p.other));
      var parent := mem[node].parent;
      var grandparent := mem[parent].parent;
      var dir := parent == mem[grandparent].child0;
      var uncle := mem[grandparent].Child(dir);
      assert dir == !p.up.dir && uncle == RefOf(p.up.other);
      if Red(uncle) {
        PaintFamilySound(p, t);
        PaintFamily(node, p, t);
        q, s := p.up.up, Make(true, p.up.item, p.up.dir, Make(false, p.item, p.dir, t, p.other),
                              p.up.other.(red := false));
        next := grandparent;
        return;
      }
      next, q, s := node, p, t;
      if node == mem[parent].Child(dir) {
        RotateInnerSound(p, t);
        next := RotateInner(node, dir, p, t);
        q, s := Down(p.up, !dir, t.red, t.item, Kid(t, dir)), Make(p.red, p.item, !dir, p.other, Kid(t, !dir));
      }
      assert q.up == p.up && q.dir == p.up.dir;
      RotateOuterSound(q, s);
      RotateOuter(next, dir, q, s);
      q := Down(q.up.up, !dir, false, q.item, Make(true, q.up.item, dir, q.up.other, q.other));
    }

    /** cc_omap_post_insert_fixup, cc.h:4421-4453. */
    method PostInsertFixup(inserted: Ref, ghost p0: Path<K, V>, ghost t0: Tree<K, V>) returns (ghost w: Tree<K, V>)
      requires Here(mem, root, p0, t0) && Climbing(p0, t0) && inserted == RefOf(t0) && SENTINEL !in mem
      modifies `mem, `root
      ensures Here(mem, root, Top, w) && RedBlack(w) && Items(w) == Items(Plug(p0, t0))
      ensures mem.Keys == old(mem.Keys)
    {
      hide Rep, RepPath, Refs, PathRefs, Here, Climbing, Fits, Balanced, Plug, Items;
      var node := inserted;
      ghost var p, t := p0, t0;
      ClimbingNode(p, t);
      FamilyLinks(mem, root, p, t);
      while node != root && mem[mem[node].parent].red
        invariant Here(mem, root, p, t) && Climbing(p, t) && t.Node? && node == t.item.ref
        invariant Items(Plug(p, t)) == Items(Plug(p0, t0))
        invariant mem.Keys == old(mem.Keys) && node in mem && mem[node].parent == ParentRef(p)
        invariant root == node <==> p.Top?
        invariant p.Down? ==> p.item.ref in mem && mem[p.item.ref].red == p.red
        decreases Depth(p)
      {
        node, p, t := ClimbOnce(node, p, t);
        ClimbingNode(p, t);
        FamilyLinks(mem, root, p, t);
      }
      w := BlackenRoot(p, t);
      GoToTop(mem, root, p, t);
      PaintRoot(p, t);
    }

    /** cc.h:4452: paint the root black. */
    method PaintRoot(ghost p: Path<K, V>, ghost t: Tree<K, V>)
      requires Here(mem, root, Top, Plug(p, t)) && t.Node?
      requires p.Down? ==> RedBlack(Plug(p, t))
      modifies `mem
      ensures Here(mem, root, Top, if p.Top? then t.(red := false) else Plug(p, t)) && mem.Keys == old(mem.Keys)
    {
      ghost var w := Plug(p, t);
      RefsOfPlug(p, t);
      FamilyLinks(mem, root, Top, w);
      SetRed(root, false, Top, w);
      assert p.Down? ==> w == w.(red := false);
    }

    /** The descent of cc_omap_insert (cc.h:4489-4519) and cc_omap_get (cc.h:4559-4567): to the node with key k, or to
        the empty place where it would be; order is the last comparison on the way. */
    method Search(k: K) returns (node: Ref, parent: Ref, order: int, ghost p: Path<K, V>, ghost t: Tree<K, V>)
      requires Valid()
      ensures Here(mem, root, p, t) && Plug(p, t) == tree && node == RefOf(t)
      ensures node == SENTINEL <==> t.Leaf?
      ensures t.Node? ==> t.item.key == k
      ensures t.Leaf? ==> AllBelow(cmpr, Pre(p), k) && AllAbove(cmpr, Post(p), k)
      ensures t.Leaf? ==> parent == ParentRef(p) && (p.Down? ==> p.dir == (order > 0))
    {
      hide Rep, RepPath, Refs, PathRefs, Here, Plug, Items, RedBlack, TotalOrder, Sorted;
      node, parent, order := root, SENTINEL, 0;
      p, t := Top, tree;
      PlugTop(tree);
      RootAt(mem, root, p, t);
      while node != SENTINEL
        invariant Here(mem, root, p, t) && Plug(p, t) == tree && node == RefOf(t)
        invariant node == SENTINEL <==> t.Leaf?
        invariant AllBelow(cmpr, Pre(p), k) && AllAbove(cmpr, Post(p), k)
        invariant parent == ParentRef(p) && (p.Down? ==> p.dir == (order > 0))
        decreases t
      {
        FamilyLinks(mem, root, p, t);
        NodeIsStored(data, p, t);
        order := cmpr(k, data[node].key);
        if order == 0 {
          SameKey(cmpr, k, t.item.key);
          return;
        }
        ghost var dir := order > 0;
        ItemsAround(p, t);
        BeyondNode(cmpr, Pre(p) + Items(t.kid0), t.item, Items(t.kid1) + Post(p), k);
        GoDown(mem, root, p, t, dir);
        PlugDown(p, t, dir);
        parent := node;
        node := mem[node].Child(order > 0);
        NotEqual(cmpr, k, t.item.key);
        p, t := Down(p, dir, t.red, t.item, Kid(t, !dir)), Kid(t, dir);
        RootAt(mem, root, p, t);
      }
    }

    /** cc_omap_get, cc.h:4550-4570. */
    method Get(k: K) returns (r: Option<Ref>)
      requires Valid()
      ensures r.None? <==> k !in Contents()
      ensures r.Some? ==> r.value in data && data[r.value] == Entry(k, Contents()[k])
    {
      hide Rep, RepPath, Refs, PathRefs, Here, Plug, Items, RedBlack, TotalOrder, Sorted;
      ghost var p, t;
      var node, parent, order;
      node, parent, order, p, t := Search(k);
      if node == SENTINEL {
        AbsentKey(cmpr, p, k);
        return None;
      }
      NodeIsStored(data, p, t);
      BoundKey(cmpr, p, t);
      r := Some(node);
    }

    /** cc.h:4500-4515: the key is bound already. */
    method Overwrite(node: Ref, k: K, v: V, ghost p: Path<K, V>, ghost t: Tree<K, V>)
      requires Valid() && Here(mem, root, p, t) && Plug(p, t) == tree && t.Node? && node == t.item.ref && t.item.key == k
      modifies this
      ensures Valid() && Contents() == old(Contents())[k := v] && mem.Keys == old(mem.Keys)
      ensures Items(tree) == Refill(old(Items(tree)), k, v)
      ensures data == old(data)[node := Entry(k, v)]
    {
      hide Rep, RepPath, Refs, PathRefs, Here, Plug, Items, RedBlack, TotalOrder, Sorted, ToMap, Refill;
      ghost var t' := t.(item := Item(node, k, v));
      NodeIsStored(data, p, t);
      Refilled(mem, root, p, t, Item(node, k, v));
      RefilledTree(cmpr, p, t, k, v);
      RefilledData(cmpr, data, p, t, k, v);
      data := data[node := Entry(k, v)];
      GoToTop(mem, root, p, t');
      RefsOfPlug(p, t);
      RefsOfPlug(p, t');
      tree := Plug(p, t');
    }

    /** cc.h:4530-4541: link the new node. */
    method Attach(node: Ref, parent: Ref, order: int, k: K, v: V, ghost p: Path<K, V>)
      requires Here(mem, root, p, Leaf) && node != SENTINEL && node !in mem
      requires parent == ParentRef(p) && (p.Down? ==> p.dir == (order > 0))
      modifies `mem, `root
      ensures Here(mem, root, p, Node(true, Item(node, k, v), Leaf, Leaf)) && mem.Keys == old(mem.Keys) + {node}
    {
      RootAt(mem, root, p, Leaf);
      AboveInMemory(mem, p, SENTINEL);
      ghost var m, r := mem, root;
      var cell := Header(true, parent, SENTINEL, SENTINEL);
      if parent != SENTINEL {
        mem := mem[parent := mem[parent].SetChild(order > 0, node)];
      } else {
        root := node;
      }
      mem := mem[node := cell];
      Attached(m, r, p, Item(node, k, v), true, mem);
      RootOfRotated(p, r, SENTINEL, node);
    }

    /** cc_omap_insert, cc.h:4461-4547.  alloc is the address of a new node, None if the allocation fails. */
    method Insert(k: K, v: V, replace: bool, alloc: Option<Ref>) returns (r: Option<Ref>)
      requires Valid() && (alloc.Some? ==> alloc.value != SENTINEL && alloc.value !in mem)
      modifies this
      ensures Valid()
      ensures r.None? <==> k !in old(Contents()) && alloc.None?
      ensures r.None? ==> Items(tree) == old(Items(tree))
      ensures r.Some? ==> k in Contents() && r.value in data && data[r.value] == Entry(k, Contents()[k])
      ensures r.Some? ==> Contents() == if k in old(Contents()) && !replace then old(Contents()) else old(Contents())[k := v]
      // The other nodes keep their addresses, keys, elements and order.
      ensures data == if r.Some? && (replace || k !in old(Contents())) then old(data)[r.value := Entry(k, v)] else old(data)
      ensures r.Some? && k !in old(Contents()) ==>
                r == alloc && InsertedAmong(old(Items(tree)), Items(tree), Item(r.value, k, v))
      ensures r.Some? && k in old(Contents()) ==>
                Items(tree) == if replace then Refill(old(Items(tree)), k, v) else old(Items(tree))
    {
      hide Rep, RepPath, Refs, PathRefs, Here, Plug, Items, RedBlack, TotalOrder, Sorted, ToMap, Refill, InsertedAmong;
      ghost var p, t;
      var node, parent, order;
      node, parent, order, p, t := Search(k);
      if node != SENTINEL {
        NodeIsStored(data, p, t);
        BoundKey(cmpr, p, t);
        if replace {
          Overwrite(node, k, v, p, t);
        }
        return Some(node);
      }
      AbsentKey(cmpr, p, k);
      if alloc.None? {
        return None;
      }
      InsertNew(alloc.value, parent, order, k, v, p);
      r := alloc;
    }

    /** cc.h:4521-4546. */
    method InsertNew(node: Ref, parent: Ref, order: int, k: K, v: V, ghost p: Path<K, V>)
      requires Valid() && Here(mem, root, p, Leaf) && Plug(p, Leaf) == tree && node != SENTINEL && node !in mem
      requires parent == ParentRef(p) && (p.Down? ==> p.dir == (order > 0))
      requires AllBelow(cmpr, Pre(p), k) && AllAbove(cmpr, Post(p), k)
      modifies this
      ensures Valid() && Contents() == old(Contents())[k := v]
      ensures InsertedAmong(old(Items(tree)), Items(tree), Item(node, k, v))
      ensures data == old(data)[node := Entry(k, v)]
    {
      hide Rep, RepPath, Refs, PathRefs, Here, Plug, Items, RedBlack, TotalOrder, Sorted, ToMap, InsertedAmong;
      ghost var item, t := Item(node, k, v), Node(true, Item(node, k, v), Leaf, Leaf);
      NoSentinel(mem, root, tree);
      NewLeaf(cmpr, p, item);
      RefsAreItems(tree);
      NewData(data, p, true, item);
      Attach(node, parent, order, k, v, p);
      tree := PostInsertFixup(node, p, t);
      size := size + 1;
      data := data[node := Entry(k, v)];
      RefsOfNewLeaf(p, item, tree);
    }

    /** Paint the child on side dir of the sibling of the place. */
    method PaintNephew(r: Ref, dir: bool, red: bool, ghost p: Path<K, V>, ghost t: Tree<K, V>)
      requires Here(mem, root, p, t) && p.Down? && p.other.Node? && Kid(p.other, dir).Node?
      requires r == Kid(p.other, dir).item.ref
      modifies `mem
      ensures Here(mem, root, p.(other := Make(p.other.red, p.other.item, dir, Kid(p.other, dir).(red := red),
                                               Kid(p.other, !dir))), t)
      ensures mem.Keys == old(mem.Keys)
    {
      hide Rep, RepPath, Refs, PathRefs, Here;
      ghost var s, q := p.other, Down(p.up, !p.dir, p.red, p.item, t);
      KidsOfMake(p.red, p.item, p.dir, t, s);
      GoUp(mem, root, p, t);
      GoDown(mem, root, p.up, Make(p.red, p.item, p.dir, t, s), !p.dir);
      GoDown(mem, root, q, s, dir);
      ghost var nephew, qq := Kid(s, dir), Down(q, dir, s.red, s.item, Kid(s, !dir));
      SetRed(r, red, qq, nephew);
      GoUp(mem, root, qq, nephew.(red := red));
      ghost var s' := Make(s.red, s.item, dir, nephew.(red := red), Kid(s, !dir));
      KidsOfMake(p.red, p.item, p.dir, t, s');
      GoUp(mem, root, q, s');
      GoDown(mem, root, p.up, Make(p.red, p.item, p.dir, t, s'), p.dir);
    }

    /** Rotate the node just above the place towards the place. */
    method RotateParent(r: Ref, dir: bool, ghost p: Path<K, V>, ghost t: Tree<K, V>)
      requires Here(mem, root, p, t) && p.Down? && p.other.Node? && r == p.item.ref && dir == p.dir && SENTINEL !in mem
      modifies `mem, `root
      ensures Here(mem, root, p.up, Make(p.other.red, p.other.item, p.dir,
                                         Make(p.red, p.item, p.dir, t, Kid(p.other, p.dir)), Kid(p.other, !p.dir)))
      ensures mem.Keys == old(mem.Keys)
    {
      hide Rep, RepPath, Refs, PathRefs, Here;
      ghost var x := Make(p.red, p.item, p.dir, t, p.other);
      KidsOfMake(p.red, p.item, p.dir, t, p.other);
      GoUp(mem, root, p, t);
      Rotate(r, dir, p.up, x);
    }

    /** cc.h:4619-4625. */
    method RedSibling(sibling: Ref, parent: Ref, dir: bool, ghost p: Path<K, V>, ghost t: Tree<K, V>)
      requires Here(mem, root, p, t) && p.Down? && p.other.Node? && SENTINEL !in mem
      requires sibling == p.other.item.ref && parent == p.item.ref && dir == !p.dir && p.other.red
      modifies `mem, `root
      ensures Here(mem, root, AfterRedSibling(p), t) && mem.Keys == old(mem.Keys)
    {
      hide Rep, RepPath, Refs, PathRefs, Here;
      PaintSibling(sibling, false, p, t);
      ghost var p1 := p.(other := p.other.(red := false));
      PaintParent(parent, true, p1, t);
      ghost var p2 := p1.(red := true);
      RotateParent(parent, !dir, p2, t);
      ghost var s := p.other;
      ghost var left := Make(true, p.item, p.dir, t, Kid(s, p.dir));
      KidsOfMake(false, s.item, p.dir, left, Kid(s, !p.dir));
      KidsOfMake(true, p.item, p.dir, t, Kid(s, p.dir));
      GoDown(mem, root, p.up, Make(false, s.item, p.dir, left, Kid(s, !p.dir)), p.dir);
      GoDown(mem, root, Down(p.up, p.dir, false, s.item, Kid(s, !p.dir)), left, p.dir);
    }

    /** cc.h:4635-4641. */
    method NearNephew(sibling: Ref, dir: bool, ghost p: Path<K, V>, ghost t: Tree<K, V>)
      requires Here(mem, root, p, t) && p.Down? && p.other.Node? && SENTINEL !in mem
      requires sibling == p.other.item.ref && dir == !p.dir && Kid(p.other, p.dir).Node?
      requires sibling in mem && mem[sibling].Child(!dir) == Kid(p.other, p.dir).item.ref
      modifies `mem, `root
      ensures Here(mem, root, AfterNearNephew(p), t) && mem.Keys == old(mem.Keys)
    {
      hide Rep, RepPath, Refs, PathRefs, Here;
      ghost var s, near := p.other, Kid(p.other, p.dir);
      PaintNephew(mem[sibling].Child(!dir), !dir, false, p, t);
      ghost var near' := near.(red := false);
      ghost var s1 := Make(s.red, s.item, p.dir, near', Kid(s, dir));
      ghost var p1 := p.(other := s1);
      KidsOfMake(s.red, s.item, p.dir, near', Kid(s, dir));
      KidsOfMake(true, s.item, p.dir, near', Kid(s, dir));
      PaintSibling(sibling, true, p1, t);
      ghost var s2 := Make(true, s.item, p.dir, near', Kid(s, dir));
      ghost var p2, q := p.(other := s2), Down(p.up, dir, p.red, p.item, t);
      KidsOfMake(p.red, p.item, p.dir, t, s2);
      GoUp(mem, root, p2, t);
      GoDown(mem, root, p.up, Make(p.red, p.item, p.dir, t, s2), dir);
      Rotate(sibling, dir, q, s2);
      GoUp(mem, root, q, RotateTree(s2, dir));
      KidsOfMake(p.red, p.item, p.dir, t, RotateTree(s2, dir));
      GoDown(mem, root, p.up, Make(p.red, p.item, p.dir, t, RotateTree(s2, dir)), p.dir);
    }

    /** cc.h:4643-4646. */
    method FarNephew(sibling: Ref, parent: Ref, dir: bool, ghost p: Path<K, V>, ghost t: Tree<K, V>)
      requires Here(mem, root, p, t) && p.Down? && p.other.Node? && SENTINEL !in mem
      requires sibling == p.other.item.ref && parent == p.item.ref && dir == !p.dir && Kid(p.other, !p.dir).Node?
      requires sibling in mem && mem[sibling].Child(dir) == Kid(p.other, !p.dir).item.ref
      requires parent in mem && mem[parent].red == p.red
      modifies `mem, `root
      ensures Here(mem, root, p.up, AfterFarNephew(p, t)) && mem.Keys == old(mem.Keys)
    {
      hide Rep, RepPath, Refs, PathRefs, Here;
      ghost var s, far := p.other, Kid(p.other, dir);
      var farRef := mem[sibling].Child(dir);
      PaintSibling(sibling, mem[parent].red, p, t);
      ghost var p1 := p.(other := s.(red := p.red));
      PaintParent(parent, false, p1, t);
      ghost var p2 := p1.(red := false);
      PaintNephew(farRef, dir, false, p2, t);
      ghost var p3 := p2.(other := Make(p.red, s.item, dir, far.(red := false), Kid(s, p.dir)));
      KidsOfMake(p.red, s.item, dir, far.(red := false), Kid(s, p.dir));
      RotateParent(parent, !dir, p3, t);
    }

    /** The body of the loop of cc_omap_post_erase_fixup (cc.h:4614-4649). */
    method FillOnce(node0: Ref, parent0: Ref, ghost p: Path<K, V>, ghost t: Tree<K, V>)
      returns (node: Ref, parent: Ref, ghost q: Path<K, V>, ghost s: Tree<K, V>)
      requires Here(mem, root, p, t) && Unfinished(p, t) && SENTINEL !in mem
      requires node0 == RefOf(t) && parent0 == ParentRef(p)
      modifies `mem, `root
      ensures Here(mem, root, q, s) && Lacking(q, s) && node == RefOf(s) && (q.Down? ==> parent == ParentRef(q))
      ensures Items(Plug(q, s)) == Items(Plug(p, t)) && Work(q, s) < Work(p, t) && mem.Keys == old(mem.Keys)
    {
      hide Rep, RepPath, Refs, PathRefs, Here, Fits, Balanced, Plug, Items, Unfinished, Lacking, Blacken, Work;
      UnfinishedParts(p, t);
      SiblingLinks(mem, root, p, t);
      var dir := node0 == mem[parent0].child0;
      var sibling := mem[parent0].Child(dir);
      if Red(sibling) {
        RedSiblingSound(p, t);
        RedSibling(sibling, parent0, dir, p, t);
        ghost var p' := AfterRedSibling(p);
        UnfinishedParts(p', t);
        SiblingLinks(mem, root, p', t);
        sibling := mem[parent0].Child(dir);
        node, parent, q, s := FillBlack(parent0, sibling, dir, p', t);
        WorkHere(p, t);
        WorkHere(p', t);
      } else {
        node, parent, q, s := FillBlack(parent0, sibling, dir, p, t);
        WorkHere(p, t);
      }
    }

    /** cc.h:4627-4648: the sibling is black. */
    method FillBlack(parent0: Ref, sibling0: Ref, dir: bool, ghost p: Path<K, V>, ghost t: Tree<K, V>)
      returns (node: Ref, parent: Ref, ghost q: Path<K, V>, ghost s: Tree<K, V>)
      requires Here(mem, root, p, t) && Unfinished(p, t) && SENTINEL !in mem && !IsRed(p.other)
      requires parent0 == ParentRef(p) && sibling0 == RefOf(p.other) && dir == !p.dir
      modifies `mem, `root
      ensures Here(mem, root, q, s) && Lacking(q, s) && node == RefOf(s) && (q.Down? ==> parent == ParentRef(q))
      ensures Items(Plug(q, s)) == Items(Plug(p, t)) && mem.Keys == old(mem.Keys)
      // It ends the loop or moves the place one step up.
      ensures q.Top? || (q == p.up && (p.red <==> IsRed(s)))
    {
      hide Rep, RepPath, Refs, PathRefs, Here, Fits, Balanced, Plug, Items, Unfinished, Lacking, Blacken;
      UnfinishedParts(p, t);
      SiblingLinks(mem, root, p, t);
      parent := parent0;
      if !Red(mem[sibling0].child0) && !Red(mem[sibling0].child1) {
        PaintSiblingSound(p, t);
        PaintSibling(sibling0, true, p, t);
        q, s := p.up, Make(p.red, p.item, p.dir, t, p.other.(red := true));
        GoUp(mem, root, p.(other := p.other.(red := true)), t);
        FamilyLinks(mem, root, q, s);
        node := parent0;
        parent := mem[node].parent;
        return;
      }
      if !Red(mem[sibling0].Child(dir)) {
        NearNephewSound(p, t);
        NearNephew(sibling0, dir, p, t);
        ghost var p' := AfterNearNephew(p);
        UnfinishedParts(p', t);
        SiblingLinks(mem, root, p', t);
        s := FillFar(parent0, mem[parent0].Child(dir), dir, p', t);
      } else {
        s := FillFar(parent0, sibling0, dir, p, t);
      }
      q, node := Top, root;
      RootAt(mem, root, q, s);
    }

    /** cc.h:4643-4647: the far child of the sibling is red. */
    method FillFar(parent: Ref, sibling: Ref, dir: bool, ghost p: Path<K, V>, ghost t: Tree<K, V>)
      returns (ghost w: Tree<K, V>)
      requires Here(mem, root, p, t) && Unfinished(p, t) && SENTINEL !in mem
      requires !IsRed(p.other) && IsRed(Kid(p.other, !p.dir))
      requires parent == ParentRef(p) && sibling == RefOf(p.other) && dir == !p.dir
      modifies `mem, `root
      ensures Here(mem, root, Top, w) && Lacking(Top, w)
      ensures Items(Plug(Top, w)) == Items(Plug(p, t)) && mem.Keys == old(mem.Keys)
    {
      hide Rep, RepPath, Refs, PathRefs, Here, Fits, Balanced, Plug, Items, Unfinished, Lacking, Blacken;
      UnfinishedParts(p, t);
      SiblingLinks(mem, root, p, t);
      FarNephewSound(p, t);
      FarNephew(sibling, parent, dir, p, t);
      GoToTop(mem, root, p.up, AfterFarNephew(p, t));
      w := Plug(p.up, AfterFarNephew(p, t));
    }

    /** cc_omap_post_erase_fixup, cc.h:4608-4653. */
    method PostEraseFixup(node0: Ref, parent0: Ref, ghost p0: Path<K, V>, ghost t0: Tree<K, V>)
      returns (ghost w: Tree<K, V>)
      requires Here(mem, root, p0, t0) && Lacking(p0, t0) && SENTINEL !in mem
      requires node0 == RefOf(t0) && parent0 == ParentRef(p0)
      modifies `mem, `root
      ensures Here(mem, root, Top, w) && RedBlack(w) && Items(w) == Items(Plug(p0, t0)) && mem.Keys == old(mem.Keys)
    {
      hide Rep, RepPath, Refs, PathRefs, Here, Fits, Balanced, Plug, Items, Lacking, Work, RedBlack, Unfinished;
      var node, parent := node0, parent0;
      ghost var p, t := p0, t0;
      PlaceLinks(mem, root, p, t);
      while node != root && !Red(node)
        invariant Here(mem, root, p, t) && Lacking(p, t) && node == RefOf(t) && (p.Down? ==> parent == ParentRef(p))
        invariant Items(Plug(p, t)) == Items(Plug(p0, t0)) && mem.Keys == old(mem.Keys)
        invariant node == root <==> p.Top?
        invariant node == SENTINEL <==> t.Leaf?
        invariant node != SENTINEL ==> node in mem && mem[node].red == t.red
        decreases Work(p, t)
      {
        StillUnfinished(p, t);
        node, parent, p, t := FillOnce(node, parent, p, t);
        PlaceLinks(mem, root, p, t);
      }
      Finished(p, t);
      if node != SENTINEL {
        SetRed(node, false, p, t);
      }
      GoToTop(mem, root, p, Blacken(t));
      w := Plug(p, Blacken(t));
    }

    /** cc.h:4666-4675: the node itself if it lacks a child, otherwise its in-order successor. */
    method FindDetached(node: Ref, ghost q: Path<K, V>, ghost x: Tree<K, V>)
      returns (d: Ref, ghost p: Path<K, V>, ghost t: Tree<K, V>)
      requires Here(mem, root, q, x) && x.Node? && node == x.item.ref
      ensures Here(mem, root, p, t) && Plug(p, t) == Plug(q, x) && t.Node? && d == t.item.ref
      ensures t.kid0.Leaf? || t.kid1.Leaf?
      ensures if d == node then p == q && t == x
              else t.kid0.Leaf? && Pre(p) == Pre(q) + Items(x.kid0) + [x.item]
    {
      hide Rep, RepPath, Refs, PathRefs, Here, Plug, Items;
      NodeLinks(mem, root, q, x);
      d, p, t := node, q, x;
      if mem[node].child0 == SENTINEL || mem[node].child1 == SENTINEL {
        return;
      }
      GoDown(mem, root, q, x, true);
      PlugDown(q, x, true);
      PathRefsDown(q, true, x.red, x.item, x.kid0);
      p, t := Down(q, true, x.red, x.item, x.kid0), x.kid1;
      d := mem[node].child1;
      NodeLinks(mem, root, p, t);
      while mem[d].child0 != SENTINEL
        invariant Here(mem, root, p, t) && Plug(p, t) == Plug(q, x) && t.Node? && d == t.item.ref
        invariant d in mem && mem[d].child0 == RefOf(t.kid0) && (RefOf(t.kid0) == SENTINEL <==> t.kid0.Leaf?)
        invariant Pre(p) == Pre(q) + Items(x.kid0) + [x.item]
        invariant node in PathRefs(p) && d !in PathRefs(p)
        decreases t
      {
        GoDown(mem, root, p, t, false);
        PlugDown(p, t, false);
        PathRefsDown(p, false, t.red, t.item, t.kid1);
        p, t := Down(p, false, t.red, t.item, t.kid1), t.kid0;
        d := mem[d].child0;
        NodeLinks(mem, root, p, t);
      }
    }

    /** cc.h:4677-4684: link the only child of d to the parent of d. */
    method Detach(d: Ref, ghost p: Path<K, V>, ghost t: Tree<K, V>) returns (child: Ref)
      requires Here(mem, root, p, t) && t.Node? && d == t.item.ref && (t.kid0.Leaf? || t.kid1.Leaf?)
      modifies `mem, `root
      ensures Here(mem, root, p, OnlyKid(t)) && child == RefOf(OnlyKid(t)) && mem.Keys == old(mem.Keys)
      ensures d in mem && mem[d].red == t.red && mem[d].parent == ParentRef(p) && d != SENTINEL
      ensures d !in Refs(OnlyKid(t)) + PathRefs(p)
      ensures PathRefs(p) + Refs(OnlyKid(t)) == PathRefs(p) + Refs(t) - {d}
    {
      hide Rep, RepPath, Refs, PathRefs, Here;
      NodeLinks(mem, root, p, t);
      ghost var m, r := mem, root;
      child := mem[d].Child(mem[d].child0 == SENTINEL);
      if child != SENTINEL {
        mem := mem[child := mem[child].(parent := mem[d].parent)];
      }
      if mem[d].parent != SENTINEL {
        mem := mem[mem[d].parent := mem[mem[d].parent].SetChild(d == mem[mem[d].parent].child1, child)];
      } else {
        root := child;
      }
      DetachedRep(m, r, p, t, mem);
      RootOfRotated(p, r, d, child);
    }

    /** cc.h:4677-4689: detach d and restore the balance. */
    method Remove(d: Ref, ghost p: Path<K, V>, ghost t: Tree<K, V>) returns (ghost w: Tree<K, V>)
      requires Here(mem, root, p, t) && t.Node? && d == t.item.ref && (t.kid0.Leaf? || t.kid1.Leaf?)
      requires RedBlack(Plug(p, t)) && SENTINEL !in mem
      modifies `mem, `root
      ensures Here(mem, root, Top, w) && RedBlack(w) && mem.Keys == old(mem.Keys)
      ensures Items(w) == Pre(p) + Items(OnlyKid(t)) + Post(p)
      ensures Refs(w) == Refs(Plug(p, t)) - {d} && d in mem && d != SENTINEL
    {
      hide Rep, RepPath, Refs, PathRefs, Here, Plug, Items, RedBlack, Lacking;
      var child := Detach(d, p, t);
      ghost var c := OnlyKid(t);
      DetachSound(p, t, c);
      RefsOfPlug(p, t);
      RefsOfPlug(p, c);
      if !mem[d].red {
        w := PostEraseFixup(child, mem[d].parent, p, c);
      } else {
        GoToTop(mem, root, p, c);
        w := Plug(p, c);
      }
      RefsAreItems(w);
      RefsAreItems(Plug(p, c));
    }

    /** cc.h:4695-4712: put the detached node d into the place of node. */
    method Supplant(node: Ref, d: Ref, ghost p: Path<K, V>, ghost x: Tree<K, V>, ghost item: Item<K, V>)
      requires Here(mem, root, p, x) && x.Node? && node == x.item.ref && d == item.ref && SENTINEL !in mem
      requires d in mem && d !in Refs(x) + PathRefs(p)
      modifies `mem, `root
      ensures Here(mem, root, p, x.(item := item)) && mem.Keys == old(mem.Keys)
      ensures node !in PathRefs(p) + Refs(x.(item := item))
      ensures PathRefs(p) + Refs(x.(item := item)) == PathRefs(p) + Refs(x) - {node} + {d}
    {
      hide Rep, RepPath, Refs, PathRefs, Here;
      NodeLinks(mem, root, p, x);
      ghost var m, r := mem, root;
      NotAmong(p, x, d);
      SupplantLinks(node, d, p, x);
      SupplantedRep(m, r, p, x, item, mem);
      RootOfRotated(p, r, node, d);
    }

    /** The assignments of cc.h:4697-4711. */
    method SupplantLinks(node: Ref, d: Ref, ghost p: Path<K, V>, ghost x: Tree<K, V>)
      requires SENTINEL !in mem && x.Node? && node == x.item.ref && node in mem && mem[node] == HeaderOf(x, ParentRef(p))
      requires d in mem && d !in {node, ParentRef(p), RefOf(x.kid0), RefOf(x.kid1)}
      requires RefOf(x.kid0) == SENTINEL <==> x.kid0.Leaf?
      requires RefOf(x.kid1) == SENTINEL <==> x.kid1.Leaf?
      requires x.kid0.Node? ==> x.kid0.item.ref in mem && x.kid0.item.ref !in {node, ParentRef(p)}
      requires x.kid1.Node? ==> x.kid1.item.ref in mem && x.kid1.item.ref !in {node, ParentRef(p)}
      requires x.kid0.Node? && x.kid1.Node? ==> x.kid0.item.ref != x.kid1.item.ref
      requires ParentRef(p) == SENTINEL <==> p.Top?
      requires p.Down? ==> p.item.ref in mem && p.item.ref != node && mem[p.item.ref].Child(p.dir) == node
                           && mem[p.item.ref].Child(!p.dir) != node
      modifies `mem, `root
      ensures Supplanted(old(mem), mem, p, x, d) && mem.Keys == old(mem.Keys)
      ensures root == if p.Down? then old(root) else d
    {
      mem := mem[d := mem[d].(parent := mem[node].parent, child0 := mem[node].child0, child1 := mem[node].child1)];
      if mem[node].parent != SENTINEL {
        mem := mem[mem[node].parent := mem[mem[node].parent].SetChild(mem[mem[node].parent].child1 == node, d)];
      } else {
        root := d;
      }
      if mem[node].child0 != SENTINEL {
        mem := mem[mem[node].child0 := mem[mem[node].child0].(parent := d)];
      }
      if mem[node].child1 != SENTINEL {
        mem := mem[mem[node].child1 := mem[mem[node].child1].(parent := d)];
      }
      mem := mem[d := mem[d].(red := mem[node].red)];
    }

    /** cc_omap_erase_raw, cc.h:4656-4722.  Every other node keeps its address, key and element. */
    method EraseRaw(node: Ref)
      requires Valid() && node in mem
      modifies this
      ensures Valid() && mem.Keys == old(mem.Keys) - {node}
      ensures node in old(data) && data == old(data) - {node}
      ensures Removed(old(Items(tree)), Items(tree), Item(node, old(data)[node].key, old(data)[node].el))
      ensures Contents() == old(Contents()) - {old(data)[node].key}
    {
      hide Rep, RepPath, Refs, PathRefs, Here, Plug, Items, RedBlack, TotalOrder, Sorted, ToMap, Removed, Stored;
      ghost var s := Items(tree);
      NoSentinel(mem, root, tree);
      PlugTop(tree);
      ghost var q, x := Locate(Top, tree, node);
      GoTo(mem, root, q, x);
      NodeIsStored(data, q, x);
      ghost var p, t;
      var d;
      d, p, t := FindDetached(node, q, x);
      ghost var w := Remove(d, p, t);
      if d != node {
        w := TakePlace(node, d, p, t, q, x, w);
      } else {
        RemovedAlone(p, t);
      }
      Freed(mem, root, w, node);
      RemovedFromMap(cmpr, s, Items(w), x.item);
      StoredPart(data, s, Items(w), node, w);
      mem := mem - {node};
      data := data - {node};
      size := size - 1;
      tree := w;
    }

    /** The last part of cc_omap_erase_raw, when the successor was detached in place of the node. */
    method TakePlace(node: Ref, d: Ref, ghost p: Path<K, V>, ghost t: Tree<K, V>,
                     ghost q: Path<K, V>, ghost x: Tree<K, V>, ghost w: Tree<K, V>) returns (ghost w': Tree<K, V>)
      requires Here(mem, root, Top, w) && RedBlack(w) && SENTINEL !in mem && TotalOrder(cmpr)
      requires Plug(p, t) == Plug(q, x) && t.Node? && x.Node? && t.item.ref == d != x.item.ref == node
      requires t.kid0.Leaf? && Pre(p) == Pre(q) + Items(x.kid0) + [x.item]
      requires Items(w) == Pre(p) + Items(OnlyKid(t)) + Post(p)
      requires Refs(w) == Refs(Plug(p, t)) - {d} && d in mem
      requires Sorted(cmpr, Items(Plug(p, t))) && Stored(data, Items(Plug(p, t)))
      modifies `mem, `root
      ensures Here(mem, root, Top, w') && RedBlack(w') && mem.Keys == old(mem.Keys)
      ensures Removed(Items(Plug(p, t)), Items(w'), x.item)
      ensures Refs(w') == Refs(Plug(p, t)) - {node}
    {
      hide Rep, RepPath, Refs, PathRefs, Here, Plug, Items, RedBlack, TotalOrder, Sorted, Removed, Stored;
      RefsOfPlug(q, x);
      RefsOfPlug(p, t);
      RootIsInTree(x);
      RootIsInTree(t);
      PlugTop(w);
      ghost var q', x' := Locate(Top, w, node);
      GoTo(mem, root, q', x');
      RefsOfPlug(q', x');
      Supplant(node, d, q', x', t.item);
      GoToTop(mem, root, q', x'.(item := t.item));
      w' := Plug(q', x'.(item := t.item));
      RefsOfPlug(q', x'.(item := t.item));
      SupplantedTree(cmpr, data, p, t, q, x, q', x');
    }

    /** cc_omap_erase, cc.h:4727-4745. */
    method Erase(k: K) returns (erased: bool)
      requires Valid()
      modifies this
      ensures Valid() && Contents() == old(Contents()) - {k}
      ensures erased <==> k in old(Contents())
    {
      hide Rep, RepPath, Refs, PathRefs, Here, Plug, Items, RedBlack, TotalOrder, Sorted, ToMap, Removed, Stored;
      var r := Get(k);
      if r.None? {
        return false;
      }
      EraseRaw(r.value);
      erased := true;
    }

    // ---------- iteration ----------

    /** cc_omap_first_or_last, cc.h:4289-4303. */
    method FirstOrLast(dir: bool) returns (itr: Iterator)
      requires Valid()
      ensures Stands(Items(tree), itr, if dir then 0 else |Items(tree)| - 1)
    {
      hide Rep, RepPath, Refs, PathRefs, Here, Plug, RedBlack, TotalOrder, Sorted, Stored;
      PlugTop(tree);
      RootAt(mem, root, Top, tree);
      if root == SENTINEL {
        return if dir then End else REnd;
      }
      NodeLinks(mem, root, Top, tree);
      var node := Extreme(root, !dir, Top, tree);
      itr := At(node);
    }

    /** The descents of cc.h:4299-4300 and 4337-4339: the outermost node on side dir of a subtree. */
    method Extreme(from: Ref, dir: bool, ghost p0: Path<K, V>, ghost t0: Tree<K, V>) returns (node: Ref)
      requires Here(mem, root, p0, t0) && t0.Node? && from == t0.item.ref
      ensures Stands(Items(Plug(p0, t0)), At(node), if dir then |Items(Plug(p0, t0))| - 1 - |Post(p0)| else |Pre(p0)|)
    {
      hide Rep, RepPath, Refs, PathRefs, Here, Plug, Items;
      node := from;
      ghost var p, t := p0, t0;
      NodeLinks(mem, root, p, t);
      while mem[node].Child(dir) != SENTINEL
        invariant Here(mem, root, p, t) && t.Node? && node == t.item.ref && Plug(p, t) == Plug(p0, t0)
        invariant node in mem && mem[node].Child(dir) == RefOf(Kid(t, dir))
        invariant RefOf(Kid(t, dir)) == SENTINEL <==> Kid(t, dir).Leaf?
        invariant if dir then |Post(p)| == |Post(p0)| else |Pre(p)| == |Pre(p0)|
        decreases t
      {
        GoDown(mem, root, p, t, dir);
        PlugDown(p, t, dir);
        p, t := Down(p, dir, t.red, t.item, Kid(t, !dir)), Kid(t, dir);
        node := mem[node].Child(dir);
        NodeLinks(mem, root, p, t);
      }
      StandsHere(p, t);
      LeafHasNoItems<K, V>();
    }

    /** cc_omap_iterate, cc.h:4323-4353: one step in direction dir, from before the first or after the last position
        as well. */
    method Iterate(itr: Iterator, dir: bool, ghost i: int) returns (next: Iterator)
      requires Valid() && Stands(Items(tree), itr, i) && itr != EndOf(dir)
      ensures Stands(Items(tree), next, if dir then i + 1 else i - 1)
    {
      hide Rep, RepPath, Refs, PathRefs, Here, Plug, Items, RedBlack, TotalOrder, Sorted, Stored;
      if itr == EndOf(!dir) {
        next := FirstOrLast(dir);
        return;
      }
      var node := itr.node;
      PlugTop(tree);
      RefOfPosition(tree, itr, i);
      ghost var p, t := Locate(Top, tree, node);
      GoTo(mem, root, p, t);
      NodeLinks(mem, root, p, t);
      StandsHere(p, t);
      OnePosition(cmpr, data, Items(tree), node, i, |Pre(p)| + |Items(t.kid0)|);
      if mem[node].Child(dir) != SENTINEL {
        GoDown(mem, root, p, t, dir);
        PlugDown(p, t, dir);
        node := Extreme(mem[node].Child(dir), !dir, Down(p, dir, t.red, t.item, Kid(t, !dir)), Kid(t, dir));
        next := At(node);
      } else {
        LeafHasNoItems<K, V>();
        next := Ascend(node, dir, p, t);
      }
    }

    /** A step in one direction and a step back return to the same position, outside the nodes as well. */
    method ThereAndBack(itr: Iterator, dir: bool, ghost i: int) returns (back: Iterator)
      requires Valid() && Stands(Items(tree), itr, i) && itr != EndOf(dir)
      ensures back == itr
    {
      hide Items, Valid;
      var next := Iterate(itr, dir, i);
      back := Iterate(next, !dir, if dir then i + 1 else i - 1);
    }

    /** The loop of cc.h:4344-4352: up to the nearest node that lies ahead. */
    method Ascend(from: Ref, dir: bool, ghost p0: Path<K, V>, ghost t0: Tree<K, V>) returns (next: Iterator)
      requires Here(mem, root, p0, t0) && t0.Node? && from == t0.item.ref
      ensures Stands(Items(Plug(p0, t0)), next, if dir then |Items(Plug(p0, t0))| - |Post(p0)| else |Pre(p0)| - 1)
    {
      hide Rep, RepPath, Refs, PathRefs, Here, Plug, Items;
      var node := from;
      ghost var p, t := p0, t0;
      NodeLinks(mem, root, p, t);
      while mem[node].parent != SENTINEL
        invariant Here(mem, root, p, t) && t.Node? && node == t.item.ref && Plug(p, t) == Plug(p0, t0)
        invariant node in mem && mem[node].parent == ParentRef(p) && (ParentRef(p) == SENTINEL <==> p.Top?)
        invariant if dir then |Post(p)| == |Post(p0)| else |Pre(p)| == |Pre(p0)|
        decreases p
      {
        FamilyLinks(mem, root, p, t);
        GoUp(mem, root, p, t);
        ghost var par := Make(p.red, p.item, p.dir, t, p.other);
        NodeLinks(mem, root, p.up, par);
        PlugUp(p, t);
        if mem[mem[node].parent].Child(!dir) == node {
          StandsHere(p.up, par);
          return At(mem[node].parent);
        }
        node := mem[node].parent;
        p, t := p.up, par;
      }
      next := EndOf(dir);
    }

    /** cc_omap_erase_itr, cc.h:4751-4765: the position after the erased node, still valid afterwards. */
    method EraseItr(node: Ref, ghost i: int) returns (next: Iterator)
      requires Valid() && Stands(Items(tree), At(node), i) && node in mem
      modifies this
      ensures Valid() && node in old(data) && data == old(data) - {node}
      ensures Items(tree) == old(Items(tree))[..i] + old(Items(tree))[i + 1..]
      ensures Stands(Items(tree), next, i)
    {
      hide Rep, RepPath, Refs, PathRefs, Here, Plug, Items, RedBlack, TotalOrder, Sorted, ToMap, Removed, Stored;
      ghost var s := Items(tree);
      next := Iterate(At(node), true, i);
      PositionIsStored(data, s, node, i);
      EraseRaw(node);
      RemovedAt(cmpr, s, Items(tree), i);
    }

    /** cc_for_each over an ordered map (cc.h:7481-7486): the nodes from first to end. */
    method Walk() returns (visited: seq<Ref>)
      requires Valid()
      ensures |visited| == |Items(tree)| && forall i :: 0 <= i < |visited| ==> visited[i] == Items(tree)[i].ref
    {
      hide Rep, RepPath, Refs, PathRefs, Here, Plug, Items, RedBlack, TotalOrder, Sorted, Stored;
      visited := [];
      var itr := FirstOrLast(true);
      while itr != End
        invariant Stands(Items(tree), itr, |visited|)
        invariant forall i :: 0 <= i < |visited| ==> visited[i] == Items(tree)[i].ref
        decreases |Items(tree)| - |visited|
      {
        var next := Iterate(itr, true, |visited|);
        visited := visited + [itr.node];
        itr := next;
      }
    }

    /** cc_omap_bounded_first_or_last, cc.h:4577-4602: the first position with a key not below k, or the last with a
        key not above k. */
    method BoundedFirstOrLast(k: K, dir: bool) returns (result: Iterator)
      requires Valid()
      ensures exists i :: -1 <= i <= |Items(tree)| && Stands(Items(tree), result, i)
                && forall j :: 0 <= j < |Items(tree)| ==>
                     if dir then cmpr(Items(tree)[j].key, k) < 0 <==> j < i else cmpr(Items(tree)[j].key, k) > 0 <==> j > i
    {
      hide Rep, RepPath, Refs, PathRefs, Here, Plug, Items, RedBlack, TotalOrder, Sorted, Stored;
      var node := root;
      ghost var p, t := Top, tree;
      PlugTop(tree);
      result := EndOf(dir);
      ghost var i := if dir then |Items(tree)| else -1;
      RootAt(mem, root, p, t);
      while node != SENTINEL
        invariant Here(mem, root, p, t) && Plug(p, t) == tree && node == RefOf(t) && (node == SENTINEL <==> t.Leaf?)
        invariant AllBelow(cmpr, Pre(p), k) && AllAbove(cmpr, Post(p), k)
        invariant i == if dir then |Pre(p)| + |Items(t)| else |Pre(p)| - 1
        invariant Stands(Items(tree), result, i)
        decreases t
      {
        FamilyLinks(mem, root, p, t);
        NodeIsStored(data, p, t);
        var order := cmpr(data[node].key, k);
        ItemsAround(p, t);
        ItemsCount(p, t);
        StandsHere(p, t);
        BeyondNode(cmpr, Pre(p) + Items(t.kid0), t.item, Items(t.kid1) + Post(p), k);
        if order == 0 {
          result, i := At(node), |Pre(p)| + |Items(t.kid0)|;
          BoundAtItem(cmpr, Pre(p) + Items(t.kid0), t.item, Items(t.kid1) + Post(p), k, dir);
          return;
        }
        if (order > 0) == dir {
          result, i := At(node), |Pre(p)| + |Items(t.kid0)|;
        }
        OtherSign(cmpr, t.item.key, k);
        GoDown(mem, root, p, t, order < 0);
        PlugDown(p, t, order < 0);
        node := mem[node].Child(order < 0);
        p, t := Down(p, order < 0, t.red, t.item, Kid(t, !(order < 0))), Kid(t, order < 0);
        RootAt(mem, root, p, t);
      }
      NoItemsAtLeaf(p);
      BoundInGap(cmpr, Pre(p), Post(p), k, dir);
    }

    // ---------- releasing and copying ----------

    /** The loop of cc_omap_clear (cc.h:4777-4807).  It releases every node exactly once, whatever the colours. */
    method Release(ghost t0: Tree<K, V>) returns (released: seq<Ref>)
      requires Here(mem, root, Top, t0) && mem.Keys == data.Keys == Refs(t0)
      modifies `mem, `data
      ensures mem == map[] && data == map[]
      ensures multiset(released) == multiset(old(mem.Keys))
    {
      hide Rep, RepCut, Refs, PathRefs, Clearing, Load, PathLoad;
      released := [];
      var node := root;
      ghost var p: Path<K, V>, t := Top, t0;
      StartClearing(mem, root, t0);
      while node != SENTINEL
        invariant node != SENTINEL ==> t.Node? && Clearing(mem, p, t) && node == t.item.ref
        invariant node == SENTINEL ==> mem.Keys == {}
        invariant data.Keys == mem.Keys
        invariant multiset(released) + multiset(mem.Keys) == multiset(old(mem.Keys))
        decreases if node == SENTINEL then 0 else 1 + PathLoad(p) + Load(t)
      {
        ClearingLinks(mem, p, t);
        if mem[node].child0 != SENTINEL {
          CutDown(mem, p, t, false);
          var next := mem[node].child0;
          mem := mem[node := mem[node].SetChild(false, SENTINEL)];
          p, t, node := Down(p, false, t.red, t.item, t.kid1), t.kid0, next;
          ClearingLinks(mem, p, t);
        } else if mem[node].child1 != SENTINEL {
          CutDown(mem, p, t, true);
          var next := mem[node].child1;
          mem := mem[node := mem[node].SetChild(true, SENTINEL)];
          p, t, node := Down(p, true, t.red, t.item, t.kid0), t.kid1, next;
          ClearingLinks(mem, p, t);
        } else {
          ReleaseUp(mem, p, t);
          var next := mem[node].parent;
          assert multiset(mem.Keys) == multiset(mem.Keys - {node}) + multiset{node};
          mem := mem - {node};
          data := data - {node};
          released := released + [node];
          node := next;
          if p.Down? {
            p, t := p.up, Make(p.red, p.item, p.dir, Leaf, p.other);
            ClearingLinks(mem, p, t);
          }
        }
      }
    }

    /** cc_omap_clear, cc.h:4768-4814. */
    method Clear() returns (released: seq<Ref>)
      requires Valid()
      modifies this
      ensures Valid() && Contents() == map[]
      ensures multiset(released) == multiset(old(mem.Keys))
    {
      released := Release(tree);
      size := 0;
      root := SENTINEL;
      tree := Leaf;
    }

    /** A map without nodes. */
    constructor (cmpr: (K, K) -> int)
      requires TotalOrder(cmpr)
      ensures Valid() && this.cmpr == cmpr && tree == Leaf && mem == map[] && data == map[] && root == SENTINEL
      ensures Growing(Top, Leaf)
    {
      this.cmpr := cmpr;
      size, root, mem, data, tree := 0, SENTINEL, map[], map[], Leaf;
    }

    /** What holds of a clone under construction. */
    ghost predicate Growing(q: Path<K, V>, t: Tree<K, V>)
      reads this
    {
      && Here(mem, root, q, t) && mem.Keys == data.Keys == Refs(Plug(q, t)) && Stored(data, Items(Plug(q, t)))
      && SENTINEL !in mem
    }

    /** cc.h:4866-4870 and 4906-4915: write a copied node and link it at an empty place. */
    method AttachCopy(node: Ref, parent: Ref, dir: bool, red: bool, e: Entry<K, V>, ghost q: Path<K, V>)
      requires Growing(q, Leaf) && node != SENTINEL && node !in mem
      requires parent == ParentRef(q) && (q.Down? ==> q.dir == dir)
      modifies `mem, `root, `data
      ensures Growing(q, Node(red, Item(node, e.key, e.el), Leaf, Leaf))
      ensures mem.Keys == old(mem.Keys) + {node}
      ensures node in mem && mem[node] == Header(red, parent, SENTINEL, SENTINEL)
    {
      hide Rep, RepPath, Refs, PathRefs, Plug, Items, Stored;
      ghost var item, m, r := Item(node, e.key, e.el), mem, root;
      RootAt(mem, root, q, Leaf);
      AboveInMemory(mem, q, SENTINEL);
      NewData(data, q, red, item);
      if parent != SENTINEL {
        mem := mem[parent := mem[parent].SetChild(dir, node)];
      } else {
        root := node;
      }
      mem := mem[node := Header(red, parent, SENTINEL, SENTINEL)];
      data := data[node := e];
      Attached(m, r, q, item, red, mem);
      RootOfRotated(q, r, SENTINEL, node);
      RefsOfCopy(q, red, item);
    }

    /** cc_omap_init_clone, cc.h:4835-4923.  alloc(i) is the outcome of the i-th allocation, None for a failure;
        addresses handed out are new. */
    method InitClone(alloc: nat -> Option<Ref>) returns (r: COMap?<K, V>)
      requires Valid()
      requires forall i :: alloc(i).Some? ==> alloc(i).value != SENTINEL && alloc(i).value !in mem
      requires forall i, j :: alloc(i).Some? && alloc(i) == alloc(j) ==> i == j
      // It asks for the header and for each node, and fails exactly if one of these is refused.
      ensures r == null <==> Items(tree) != [] && exists i :: 0 <= i <= |Items(tree)| && alloc(i).None?
      ensures r != null ==> fresh(r) && r.Valid() && r.cmpr == cmpr && CopyOf(tree, r.tree)
      ensures r != null ==> r.mem.Keys !! mem.Keys && r.Contents() == Contents()
    {
      hide Rep, RepPath, Refs, PathRefs, Here, Plug, Items, RedBlack, Sorted, Stored, CopyOf, ToMap;
      r := new COMap<K, V>(cmpr);
      if size == 0 {
        EmptyIsCopy(tree);
        return;
      }
      if alloc(0).None? || alloc(1).None? {
        return null;
      }
      PlugTop(tree);
      NonEmpty(tree);
      NodeLinks(mem, root, Top, tree);
      NodeIsStored(data, Top, tree);
      r.AttachCopy(alloc(1).value, SENTINEL, false, false, data[root], Top);
      ghost var w := Node(false, Item(alloc(1).value, tree.item.key, tree.item.el), Leaf, Leaf);
      StartedRoot(tree, w);
      RootAt(r.mem, r.root, Top, w);
      var ok;
      ok, w := CopyRest(r, alloc, w);
      PlugTop(w);
      if !ok {
        var _ := r.Release(w);
        return null;
      }
      r.size := size;
      r.tree := w;
      CopyIsValid(cmpr, tree, w);
    }

    ghost predicate CopyingAt(copy: COMap<K, V>, src: Ref, node: Ref, p: Path<K, V>, s: Tree<K, V>,
                              q: Path<K, V>, t: Tree<K, V>)
      reads this, copy
    {
      && Here(mem, root, p, s) && Plug(p, s) == tree && s.Node? && src == s.item.ref
      && copy.Growing(q, t) && t.Node? && node == t.item.ref
      && PathStarted(p, q) && Started(s, t)
    }

    /** cc.h:4894-4918: copy one child and go down to it. */
    method CopyChild(copy: COMap<K, V>, src: Ref, node: Ref, dir: bool, addr: Ref,
                     ghost p: Path<K, V>, ghost s: Tree<K, V>, ghost q: Path<K, V>, ghost t: Tree<K, V>)
      requires Valid() && copy != this && CopyingAt(copy, src, node, p, s, q, t)
      requires Kid(s, dir).Node? && Kid(t, dir).Leaf? && (dir ==> s.kid0.Leaf? || t.kid0.Node?)
      requires addr != SENTINEL && addr !in copy.mem
      modifies copy`mem, copy`root, copy`data
      ensures src in mem
      ensures CopyingAt(copy, mem[src].Child(dir), addr, Down(p, dir, s.red, s.item, Kid(s, !dir)), Kid(s, dir),
                        Down(q, dir, t.red, t.item, Kid(t, !dir)),
                        Node(Kid(s, dir).red, Item(addr, Kid(s, dir).item.key, Kid(s, dir).item.el), Leaf, Leaf))
      ensures copy.mem.Keys == old(copy.mem.Keys) + {addr}
    {
      hide Rep, RepPath, Refs, PathRefs, Plug, Items, RedBlack, Sorted, Stored, CopyOf, Started, PathStarted;
      CopiedChild(p, s, q, t, dir, addr);
      NodeLinks(mem, root, p, s);
      GoDown(mem, root, p, s, dir);
      PlugDown(p, s, dir);
      ghost var p', q' := Down(p, dir, s.red, s.item, Kid(s, !dir)), Down(q, dir, t.red, t.item, Kid(t, !dir));
      GoDown(copy.mem, copy.root, q, t, dir);
      PlugDown(q, t, dir);
      var child := mem[src].Child(dir);
      NodeLinks(mem, root, p', Kid(s, dir));
      NodeIsStored(data, p', Kid(s, dir));
      copy.AttachCopy(addr, node, dir, mem[child].red, data[child], q');
    }

    lemma ClimbCopying(copy: COMap<K, V>, p: Path<K, V>, s: Tree<K, V>, q: Path<K, V>, t: Tree<K, V>)
      requires Here(mem, root, p, s) && Plug(p, s) == tree && p.Down? && q.Down? && s.Node? && t.Node?
      requires copy.Growing(q, t)
      ensures var s', t' := Make(p.red, p.item, p.dir, s, p.other), Make(q.red, q.item, q.dir, t, q.other);
        Here(mem, root, p.up, s') && Plug(p.up, s') == tree && copy.Growing(q.up, t')
    {
      hide Rep, RepPath, Refs, PathRefs, Here, Items;
      GoUp(mem, root, p, s);
      GoUp(copy.mem, copy.root, q, t);
    }

    /** The loop of cc.h:4877-4919, up to an allocation failure. */
    method CopyRest(copy: COMap<K, V>, alloc: nat -> Option<Ref>, ghost t0: Tree<K, V>)
      returns (ok: bool, ghost t: Tree<K, V>)
      requires Valid() && copy != this && copy.Growing(Top, t0) && Started(tree, t0)
      requires t0.kid0.Leaf? && t0.kid1.Leaf? && copy.root == t0.item.ref
      requires forall i :: alloc(i).Some? ==> alloc(i).value != SENTINEL && alloc(i).value !in mem
      requires forall i, j :: alloc(i).Some? && alloc(i) == alloc(j) ==> i == j
      requires alloc(1).Some? && copy.mem.Keys == {alloc(1).value}
      modifies copy`mem, copy`root, copy`data
      ensures copy.Growing(Top, t) && copy.mem.Keys !! mem.Keys
      ensures ok ==> CopyOf(tree, t)
      ensures ok <==> forall i :: 2 <= i <= |Items(tree)| ==> alloc(i).Some?
    {
      hide Rep, RepPath, Refs, PathRefs, Plug, Items, RedBlack, Sorted, Stored, CopyOf, Started, PathStarted,
           Todo, PathTodo, Nodes, PathNodes;
      var src, node, n := root, copy.root, 2;
      ghost var p, s, q := Top, tree, Top;
      t := t0;
      PlugTop(tree);
      StartedNodes(tree, t0);
      OneNode(t0);
      NodesAreItems(tree);
      RootAt(mem, root, p, s);
      NodeLinks(mem, root, p, s);
      while src != SENTINEL
        invariant src != SENTINEL ==> CopyingAt(copy, src, node, p, s, q, t)
        invariant src == SENTINEL ==> copy.Growing(Top, t) && CopyOf(tree, t)
        invariant copy.mem.Keys !! mem.Keys
        invariant forall i :: i >= n && alloc(i).Some? ==> alloc(i).value !in copy.mem
        invariant n == 1 + Nodes(t) + if src == SENTINEL then 0 else PathNodes(q)
        invariant forall i :: 2 <= i < n ==> alloc(i).Some?
        decreases if src == SENTINEL then 0 else 1 + PathTodo(p) + Todo(s, t)
      {
        NodeLinks(mem, root, p, s);
        NodeLinks(copy.mem, copy.root, q, t);
        var dir := !(mem[src].child0 != SENTINEL && copy.mem[node].child0 == SENTINEL);
        if mem[src].Child(dir) != SENTINEL && copy.mem[node].Child(dir) == SENTINEL {
          if alloc(n).None? {
            FewerCopied(p, s, q, t);
            GoToTop(copy.mem, copy.root, q, t);
            PlugTop(Plug(q, t));
            t := Plug(q, t);
            return false, t;
          }
          CopiedChild(p, s, q, t, dir, alloc(n).value);
          NodesDown(q, t, dir, Kid(s, dir).red, Item(alloc(n).value, Kid(s, dir).item.key, Kid(s, dir).item.el));
          CopyChild(copy, src, node, dir, alloc(n).value, p, s, q, t);
          ghost var k := Kid(s, dir);
          p, q := Down(p, dir, s.red, s.item, Kid(s, !dir)), Down(q, dir, t.red, t.item, Kid(t, !dir));
          s, t := k, Node(k.red, Item(alloc(n).value, k.item.key, k.item.el), Leaf, Leaf);
          src, node, n := mem[src].Child(dir), alloc(n).value, n + 1;
        } else {
          CopiedTree(p, s, q, t);
          PlugTop(s);
          NodesGoUp(q, t);
          src, node := mem[src].parent, copy.mem[node].parent;
          if p.Down? {
            ClimbCopying(copy, p, s, q, t);
            p, s, q, t := p.up, Make(p.red, p.item, p.dir, s, p.other), q.up, Make(q.red, q.item, q.dir, t, q.other);
          }
        }
      }
      CopyHasNodes(tree, t);
      ok := true;
    }
  }

  lemma OneNode<K, V>(t: Tree<K, V>)
    requires t.Node? && t.kid0.Leaf? && t.kid1.Leaf?
    ensures Nodes(t) == 1 && PathNodes<K, V>(Top) == 0
  {}

  lemma NodesGoUp<K, V>(q: Path<K, V>, t: Tree<K, V>)
    ensures if q.Top? then PathNodes(q) == 0
            else Nodes(Make(q.red, q.item, q.dir, t, q.other)) + PathNodes(q.up) == Nodes(t) + PathNodes(q)
  {
    if q.Down? { NodesUp(q, t); }
  }

  /** While a child is left to copy, the copy has fewer nodes than the tree. */
  lemma FewerCopied<K, V>(p: Path<K, V>, s: Tree<K, V>, q: Path<K, V>, t: Tree<K, V>)
    requires PathStarted(p, q) && Started(s, t)
    requires (s.kid0.Node? && t.kid0.Leaf?) || (s.kid1.Node? && t.kid1.Leaf?)
    ensures Nodes(t) + PathNodes(q) < Nodes(Plug(p, s))
  {
    StartedHasFewer(s, t);
    PathHasFewer(p, q);
    NodesOfPlug(p, s);
  }

  lemma RootOfRotated<K, V>(p: Path<K, V>, root: Ref, x: Ref, y: Ref)
    requires root == RootRef(p, x)
    ensures RootRef(p, y) == if p.Down? then root else y
  {}

  lemma PlugTop<K, V>(t: Tree<K, V>)
    ensures Plug(Top, t) == t && Pre<K, V>(Top) == Post<K, V>(Top) == []
  {}

  lemma PlugDown<K, V>(p: Path<K, V>, t: Tree<K, V>, dir: bool)
    requires t.Node?
    ensures var q := Down(p, dir, t.red, t.item, Kid(t, !dir));
      && Plug(q, Kid(t, dir)) == Plug(p, t)
      && (dir ==> Pre(q) == Pre(p) + Items(t.kid0) + [t.item] && Post(q) == Post(p))
      && (!dir ==> Pre(q) == Pre(p) && Post(q) == [t.item] + (Items(t.kid1) + Post(p)))
  {
    assert Make(t.red, t.item, dir, Kid(t, dir), Kid(t, !dir)) == t;
    assert [t.item] + Items(t.kid1) + Post(p) == [t.item] + (Items(t.kid1) + Post(p));
  }

  lemma RootAt<K, V>(mem: Memory, root: Ref, p: Path<K, V>, t: Tree<K, V>)
    requires Here(mem, root, p, t)
    ensures RefOf(t) == SENTINEL <==> t.Leaf?
    ensures p.Top? ==> root == RefOf(t)
  {}

  lemma SameKey<K(!new)>(cmpr: (K, K) -> int, a: K, b: K)
    requires TotalOrder(cmpr) && cmpr(a, b) == 0
    ensures a == b
  {}

  lemma NotEqual<K(!new)>(cmpr: (K, K) -> int, a: K, b: K)
    requires TotalOrder(cmpr) && cmpr(a, b) != 0
    ensures cmpr(a, b) > 0 || cmpr(a, b) < 0
  {}

  /** The key searched for is not bound when the search ends at an empty place. */
  lemma AbsentKey<K(!new), V>(cmpr: (K, K) -> int, p: Path<K, V>, k: K)
    requires TotalOrder(cmpr) && AllBelow(cmpr, Pre(p), k) && AllAbove(cmpr, Post(p), k)
    ensures k !in ToMap(Items(Plug(p, Leaf)))
  {
    ItemsOfPlug(p, Leaf);
    assert Pre(p) + Items<K, V>(Leaf) + Post(p) == Pre(p) + Post(p);
    NotIn(cmpr, Pre(p), k);
    NotIn(cmpr, Post(p), k);
    ToMapConcat(Pre(p), Post(p));
  }

  lemma BoundKey<K(!new), V>(cmpr: (K, K) -> int, p: Path<K, V>, t: Tree<K, V>)
    requires TotalOrder(cmpr) && t.Node? && Sorted(cmpr, Items(Plug(p, t)))
    ensures var m := ToMap(Items(Plug(p, t))); t.item.key in m && m[t.item.key] == t.item.el
  {
    ItemsAround(p, t);
    ToMapHas(cmpr, Items(Plug(p, t)), |Pre(p) + Items(t.kid0)|);
  }

  /** The items when the one with key k gets the element v. */
  function Refill<K(==), V>(s: seq<Item<K, V>>, k: K, v: V): (r: seq<Item<K, V>>)
    ensures |r| == |s|
  {
    seq(|s|, i requires 0 <= i < |s| => if s[i].key == k then Item(s[i].ref, k, v) else s[i])
  }

  /** s' is s with x inserted somewhere. */
  ghost predicate InsertedAmong<K, V>(s: seq<Item<K, V>>, s': seq<Item<K, V>>, x: Item<K, V>) {
    exists i :: 0 <= i <= |s| && s' == s[..i] + [x] + s[i..]
  }

  lemma NodeIsStored<K, V>(data: map<Ref, Entry<K, V>>, p: Path<K, V>, t: Tree<K, V>)
    requires Stored(data, Items(Plug(p, t))) && t.Node?
    ensures t.item in Items(Plug(p, t)) && t.item.ref in data && data[t.item.ref] == Entry(t.item.key, t.item.el)
  {
    ItemsAround(p, t);
    assert Items(Plug(p, t))[|Pre(p) + Items(t.kid0)|] == t.item;
  }

  lemma NewData<K, V>(data: map<Ref, Entry<K, V>>, p: Path<K, V>, red: bool, item: Item<K, V>)
    requires Stored(data, Items(Plug(p, Leaf))) && item.ref !in Refs(Plug(p, Leaf))
    ensures Stored(data[item.ref := Entry(item.key, item.el)], Items(Plug(p, Node(red, item, Leaf, Leaf))))
  {
    NewLeafItems(p, red, item);
    RefsAreItems(Plug(p, Leaf));
  }

  lemma RefilledData<K(!new), V>(cmpr: (K, K) -> int, data: map<Ref, Entry<K, V>>, p: Path<K, V>, t: Tree<K, V>,
                                 k: K, v: V)
    requires TotalOrder(cmpr) && Sorted(cmpr, Items(Plug(p, t))) && Stored(data, Items(Plug(p, t))) && t.Node?
    requires t.item.key == k
    ensures Stored(data[t.item.ref := Entry(k, v)], Items(Plug(p, t.(item := Item(t.item.ref, k, v)))))
  {
    hide TotalOrder, Sorted, Plug, Items, Pre, Post;
    ItemsAround(p, t);
    ItemsAround(p, t.(item := Item(t.item.ref, k, v)));
    OtherKeys(cmpr, Pre(p) + Items(t.kid0), t.item, Items(t.kid1) + Post(p));
    MiddleData(data, Pre(p) + Items(t.kid0), t.item, Items(t.kid1) + Post(p), v);
  }

  lemma OtherKeys<K(!new), V>(cmpr: (K, K) -> int, a: seq<Item<K, V>>, x: Item<K, V>, b: seq<Item<K, V>>)
    requires TotalOrder(cmpr) && Sorted(cmpr, a + [x] + b)
    ensures forall y :: y in a || y in b ==> y.key != x.key
  {
    SortedParts(cmpr, a, x, b);
    assert cmpr(x.key, x.key) == 0;
  }

  lemma MiddleData<K, V>(data: map<Ref, Entry<K, V>>, a: seq<Item<K, V>>, x: Item<K, V>, b: seq<Item<K, V>>, v: V)
    requires Stored(data, a + [x] + b)
    requires forall y :: y in a || y in b ==> y.key != x.key
    ensures Stored(data[x.ref := Entry(x.key, v)], a + [x.(el := v)] + b)
  {
    assert x in a + [x] + b;
    forall y | y in a + [x.(el := v)] + b
      ensures y.ref in data && data[x.ref := Entry(x.key, v)][y.ref] == Entry(y.key, y.el)
    {
      if y != x.(el := v) {
        assert (y in a || y in b) && y in a + [x] + b;
      }
    }
  }

  /** The tree after an element has been overwritten. */
  lemma RefilledTree<K(!new), V>(cmpr: (K, K) -> int, p: Path<K, V>, t: Tree<K, V>, k: K, v: V)
    requires TotalOrder(cmpr) && Sorted(cmpr, Items(Plug(p, t))) && RedBlack(Plug(p, t)) && t.Node? && t.item.key == k
    ensures var s, s' := Items(Plug(p, t)), Items(Plug(p, t.(item := Item(t.item.ref, k, v))));
      s' == Refill(s, k, v) && Sorted(cmpr, s') && ToMap(s') == ToMap(s)[k := v]
    ensures RedBlack(Plug(p, t.(item := Item(t.item.ref, k, v))))
  {
    var x := Item(t.item.ref, k, v);
    var t' := t.(item := x);
    UnplugBalanced(p, t);
    PlugBalanced(p, t');
    ItemsAround(p, t);
    ItemsAround(p, t');
    hide RedBlack, Balanced, Fits, Plug, Items;
    RefilledItems(cmpr, Pre(p) + Items(t.kid0), t.item, Items(t.kid1) + Post(p), v);
  }

  lemma RefilledItems<K(!new), V>(cmpr: (K, K) -> int, a: seq<Item<K, V>>, x: Item<K, V>, b: seq<Item<K, V>>, v: V)
    requires TotalOrder(cmpr) && Sorted(cmpr, a + [x] + b)
    ensures var s, s' := a + [x] + b, a + [x.(el := v)] + b;
      s' == Refill(s, x.key, v) && Sorted(cmpr, s') && ToMap(s') == ToMap(s)[x.key := v]
  {
    hide TotalOrder, ToMap;
    SortedParts(cmpr, a, x, b);
    ToMapMiddle(a, x, b);
    ToMapMiddle(a, x.(el := v), b);
    NotIn(cmpr, b, x.key);
    RefillMiddle(cmpr, a, x, b, v);
    OverwriteFirst(ToMap(a), ToMap(b), x.key, x.el, v);
  }

  lemma RefillMiddle<K(!new), V>(cmpr: (K, K) -> int, a: seq<Item<K, V>>, x: Item<K, V>, b: seq<Item<K, V>>, v: V)
    requires TotalOrder(cmpr) && Sorted(cmpr, a + [x] + b)
    ensures a + [x.(el := v)] + b == Refill(a + [x] + b, x.key, v) && Sorted(cmpr, a + [x.(el := v)] + b)
  {
    var s, s' := a + [x] + b, a + [x.(el := v)] + b;
    assert s[|a|] == x && cmpr(x.key, x.key) == 0;
    forall i | 0 <= i < |s| ensures s'[i].key == s[i].key && (s[i].key == x.key ==> i == |a|) {
      assert i < |a| ==> cmpr(s[i].key, s[|a|].key) < 0;
      assert i > |a| ==> cmpr(s[|a|].key, s[i].key) < 0;
    }
    assert s' == Refill(s, x.key, v);
    hide TotalOrder;
    forall i, j | 0 <= i < j < |s| ensures cmpr(s'[i].key, s'[j].key) < 0 {
      assert cmpr(s[i].key, s[j].key) < 0;
    }
  }

  lemma OverwriteFirst<K, V>(m: map<K, V>, n: map<K, V>, k: K, u: V, v: V)
    requires k !in n
    ensures m[k := v] + n == (m[k := u] + n)[k := v]
  {}

  /** A red leaf at the place where a search for its key ended. */
  lemma NewLeaf<K(!new), V>(cmpr: (K, K) -> int, p: Path<K, V>, item: Item<K, V>)
    requires TotalOrder(cmpr) && Sorted(cmpr, Items(Plug(p, Leaf))) && RedBlack(Plug(p, Leaf))
    requires AllBelow(cmpr, Pre(p), item.key) && AllAbove(cmpr, Post(p), item.key)
    ensures Climbing(p, Node(true, item, Leaf, Leaf))
    ensures var s, s' := Items(Plug(p, Leaf)), Items(Plug(p, Node(true, item, Leaf, Leaf)));
      && Sorted(cmpr, s') && ToMap(s') == ToMap(s)[item.key := item.el] && |s'| == |s| + 1
      && InsertedAmong(s, s', item) && item in s'
  {
    hide TotalOrder, Sorted, AllBelow, AllAbove, ToMap, InsertedAmong;
    UnplugBalanced(p, Leaf);
    NewLeafItems(p, true, item);
    NewItem(cmpr, Pre(p), item, Post(p));
  }

  lemma NewLeafItems<K, V>(p: Path<K, V>, red: bool, item: Item<K, V>)
    ensures Items(Plug(p, Leaf)) == Pre(p) + Post(p)
    ensures Items(Plug(p, Node(red, item, Leaf, Leaf))) == Pre(p) + [item] + Post(p)
  {
    NoItemsAtLeaf(p);
    ItemsOfPlug(p, Node(red, item, Leaf, Leaf));
    assert Items(Node(red, item, Leaf, Leaf)) == [item];
  }

  lemma NewItem<K(!new), V>(cmpr: (K, K) -> int, a: seq<Item<K, V>>, x: Item<K, V>, b: seq<Item<K, V>>)
    requires TotalOrder(cmpr) && Sorted(cmpr, a + b) && AllBelow(cmpr, a, x.key) && AllAbove(cmpr, b, x.key)
    ensures Sorted(cmpr, a + [x] + b) && ToMap(a + [x] + b) == ToMap(a + b)[x.key := x.el]
    ensures InsertedAmong(a + b, a + [x] + b, x) && x in a + [x] + b
  {
    hide TotalOrder, AllBelow, AllAbove, Sorted, ToMap;
    SortedJoin(cmpr, a, x, b);
    ToMapInsert(cmpr, a, x, b);
    assert (a + b)[..|a|] == a && (a + b)[|a|..] == b;
    assert (a + [x] + b)[|a|] == x;
  }

  lemma RefsOfNewLeaf<K, V>(p: Path<K, V>, item: Item<K, V>, w: Tree<K, V>)
    requires Items(w) == Items(Plug(p, Node(true, item, Leaf, Leaf)))
    ensures Refs(w) == Refs(Plug(p, Leaf)) + {item.ref}
  {
    RefsAreItems(w);
    RefsAreItems(Plug(p, Node(true, item, Leaf, Leaf)));
    RefsOfPlug(p, Leaf);
    RefsOfPlug(p, Node(true, item, Leaf, Leaf));
  }

  /** The items after a node that lacks a child has been detached. */
  lemma RemovedAlone<K, V>(p: Path<K, V>, t: Tree<K, V>)
    requires t.Node? && (t.kid0.Leaf? || t.kid1.Leaf?)
    ensures Removed(Items(Plug(p, t)), Pre(p) + Items(OnlyKid(t)) + Post(p), t.item)
  {
    hide Removed, Plug;
    ItemsAround(p, t);
    RemovedMiddle(Pre(p) + Items(t.kid0), t.item, Items(t.kid1) + Post(p));
    assert Items<K, V>(Leaf) == [];
    assert (Pre(p) + Items(t.kid0)) + (Items(t.kid1) + Post(p)) == Pre(p) + Items(OnlyKid(t)) + Post(p);
  }

  /** The tree after the successor t.item has been detached and put into the place of x.item. */
  lemma SupplantedTree<K(!new), V>(cmpr: (K, K) -> int, data: map<Ref, Entry<K, V>>, p: Path<K, V>, t: Tree<K, V>,
                                   q: Path<K, V>, x: Tree<K, V>, q': Path<K, V>, x': Tree<K, V>)
    requires TotalOrder(cmpr) && Sorted(cmpr, Items(Plug(p, t))) && Stored(data, Items(Plug(p, t)))
    requires Plug(p, t) == Plug(q, x) && t.Node? && x.Node? && t.kid0.Leaf?
    requires Pre(p) == Pre(q) + Items(x.kid0) + [x.item]
    requires Items(Plug(q', x')) == Pre(p) + Items(OnlyKid(t)) + Post(p) && RedBlack(Plug(q', x'))
    requires x'.Node? && x'.item.ref == x.item.ref
    ensures RedBlack(Plug(q', x'.(item := t.item)))
    ensures Removed(Items(Plug(p, t)), Items(Plug(q', x'.(item := t.item))), x.item)
  {
    hide TotalOrder, Sorted, Removed, Plug, Fits, Balanced, Items, Pre, Post, Stored, RedBlack;
    SupplantedColours(q', x', t.item);
    NodeIsStored(data, q, x);
    ItemsAround(p, t);
    ItemsAround(q', x');
    ItemsAround(q', x'.(item := t.item));
    SuccessorItems(p, t);
    var a, c := Pre(q) + Items(x.kid0), Items(OnlyKid(t)) + Post(p);
    RegroupTail(a, x.item, Items(OnlyKid(t)), Post(p));
    SameItem(data, a, x.item, [t.item], c, q', x');
    RemovedByTakingNext(cmpr, a, x.item, t.item, c, Pre(q') + Items(x'.kid0), Items(x'.kid1) + Post(q'));
  }

  lemma RegroupTail<T>(a: seq<T>, x: T, b: seq<T>, c: seq<T>)
    ensures (a + [x]) + b + c == a + [x] + (b + c)
  {}

  lemma SupplantedColours<K, V>(p: Path<K, V>, x: Tree<K, V>, item: Item<K, V>)
    requires x.Node? && RedBlack(Plug(p, x))
    ensures RedBlack(Plug(p, x.(item := item)))
  {
    UnplugBalanced(p, x);
    PlugBalanced(p, x.(item := item));
  }

  lemma SuccessorItems<K, V>(p: Path<K, V>, t: Tree<K, V>)
    requires t.Node? && t.kid0.Leaf?
    ensures Items(Plug(p, t)) == Pre(p) + [t.item] + (Items(OnlyKid(t)) + Post(p))
  {
    ItemsAround(p, t);
    assert Items<K, V>(Leaf) == [];
    assert Pre(p) + [] == Pre(p);
  }

  /** A node found again by its address has the same item. */
  lemma SameItem<K, V>(data: map<Ref, Entry<K, V>>, a: seq<Item<K, V>>, x: Item<K, V>, d: seq<Item<K, V>>,
                       c: seq<Item<K, V>>, q: Path<K, V>, y: Tree<K, V>)
    requires Stored(data, a + [x] + d + c) && Items(Plug(q, y)) == a + [x] + c && y.Node? && y.item.ref == x.ref
    ensures y.item == x
  {
    ItemsAround(q, y);
    assert Items(Plug(q, y))[|Pre(q) + Items(y.kid0)|] == y.item;
    assert y.item in a + [x] + c;
    assert y.item in a + [x] + d + c && x in a + [x] + d + c;
  }

  lemma StoredPart<K, V>(data: map<Ref, Entry<K, V>>, s: seq<Item<K, V>>, s': seq<Item<K, V>>, node: Ref, w: Tree<K, V>)
    requires Stored(data, s) && (forall y :: y in s' ==> y in s) && Items(w) == s' && node !in Refs(w)
    ensures Stored(data - {node}, s')
  {
    RefsAreItems(w);
    forall y | y in s' ensures y.ref in data - {node} && (data - {node})[y.ref] == Entry(y.key, y.el) {
      assert y in s;
    }
  }

  lemma StandsHere<K, V>(p: Path<K, V>, t: Tree<K, V>)
    requires t.Node?
    ensures Stands(Items(Plug(p, t)), At(t.item.ref), |Pre(p)| + |Items(t.kid0)|)
    ensures |Items(Plug(p, t))| == |Pre(p)| + |Items(t.kid0)| + 1 + |Items(t.kid1)| + |Post(p)|
  {
    ItemsAround(p, t);
    assert Items(Plug(p, t))[|Pre(p) + Items(t.kid0)|] == t.item;
  }

  lemma LeafHasNoItems<K, V>()
    ensures Items<K, V>(Leaf) == []
  {}

  lemma PlugUp<K, V>(p: Path<K, V>, t: Tree<K, V>)
    requires p.Down? && t.Node?
    ensures var par := Make(p.red, p.item, p.dir, t, p.other);
      && Plug(p.up, par) == Plug(p, t) && par.item == p.item
      && (p.dir ==> Post(p) == Post(p.up))
      && (!p.dir ==> Pre(p) == Pre(p.up))
      && (p.dir ==> |Pre(p)| == |Pre(p.up)| + |Items(par.kid0)| + 1)
      && (!p.dir ==> |Post(p)| == 1 + |Items(par.kid1)| + |Post(p.up)|)
  {}

  lemma RefOfPosition<K, V>(t: Tree<K, V>, itr: Iterator, i: int)
    requires Stands(Items(t), itr, i) && itr.At?
    ensures itr.node in Refs(t)
  {
    RefsAreItems(t);
    assert Items(t)[i] in Items(t);
  }

  /** No node stands at two positions. */
  lemma OnePosition<K(!new), V>(cmpr: (K, K) -> int, data: map<Ref, Entry<K, V>>, s: seq<Item<K, V>>, r: Ref,
                                i: int, j: int)
    requires TotalOrder(cmpr) && Sorted(cmpr, s) && Stored(data, s)
    requires Stands(s, At(r), i) && Stands(s, At(r), j)
    ensures i == j
  {
    hide TotalOrder, Sorted;
    assert s[i] in s && s[j] in s;
    OnePlace(cmpr, s, i, j);
  }

  lemma PositionIsStored<K, V>(data: map<Ref, Entry<K, V>>, s: seq<Item<K, V>>, r: Ref, i: int)
    requires Stored(data, s) && Stands(s, At(r), i)
    ensures r in data && data[r] == Entry(s[i].key, s[i].el) && s[i] == Item(r, data[r].key, data[r].el)
  {
    assert s[i] in s;
  }

  /** Removing an item by value removes it at its one position. */
  lemma RemovedAt<K(!new), V>(cmpr: (K, K) -> int, s: seq<Item<K, V>>, s': seq<Item<K, V>>, i: int)
    requires TotalOrder(cmpr) && Sorted(cmpr, s) && 0 <= i < |s| && Removed(s, s', s[i])
    ensures s' == s[..i] + s[i + 1..]
  {
    hide TotalOrder, Sorted;
    var j :| 0 <= j < |s| && s[j] == s[i] && s' == s[..j] + s[j + 1..];
    OnePlace(cmpr, s, i, j);
  }

  lemma ItemsCount<K, V>(p: Path<K, V>, t: Tree<K, V>)
    ensures |Items(Plug(p, t))| == |Pre(p)| + |Items(t)| + |Post(p)|
  {
    ItemsOfPlug(p, t);
  }

  lemma OtherSign<K(!new)>(cmpr: (K, K) -> int, a: K, b: K)
    requires TotalOrder(cmpr)
    ensures cmpr(a, b) > 0 <==> cmpr(b, a) < 0
    ensures cmpr(a, b) < 0 <==> cmpr(b, a) > 0
  {
    assert cmpr(b, a) > 0 <==> cmpr(a, b) < 0;
  }

  lemma StartClearing<K, V>(mem: Memory, root: Ref, t: Tree<K, V>)
    requires Here(mem, root, Top, t) && mem.Keys == Refs(t)
    ensures root != SENTINEL ==> t.Node? && Clearing(mem, Top, t) && root == t.item.ref
    ensures root == SENTINEL ==> mem.Keys == {}
  {}

  lemma NoItemsAtLeaf<K, V>(p: Path<K, V>)
    ensures Items(Plug(p, Leaf)) == Pre(p) + Post(p) && Items<K, V>(Leaf) == []
  {
    ItemsOfPlug(p, Leaf);
    assert Pre(p) + Items<K, V>(Leaf) + Post(p) == Pre(p) + Post(p);
  }

  lemma RefsOfCopy<K, V>(q: Path<K, V>, red: bool, item: Item<K, V>)
    ensures Refs(Plug(q, Node(red, item, Leaf, Leaf))) == Refs(Plug(q, Leaf)) + {item.ref}
  {
    RefsOfPlug(q, Node(red, item, Leaf, Leaf));
    RefsOfPlug(q, Leaf);
  }

  lemma EmptyIsCopy<K, V>(t: Tree<K, V>)
    requires |Items(t)| == 0
    ensures t == Leaf && CopyOf(t, t)
  {}

  lemma NonEmpty<K, V>(t: Tree<K, V>)
    requires |Items(t)| != 0
    ensures t.Node?
  {}

  lemma StartedNodes<K, V>(s: Tree<K, V>, t: Tree<K, V>)
    requires Started(s, t)
    ensures s.Node? && t.Node? && PathStarted<K, V>(Top, Top)
  {}

  /** A finished copy of a valid tree is valid and stands for the same map. */
  lemma CopyIsValid<K(!new), V>(cmpr: (K, K) -> int, s: Tree<K, V>, t: Tree<K, V>)
    requires RedBlack(s) && Sorted(cmpr, Items(s)) && CopyOf(s, t)
    ensures RedBlack(t) && Sorted(cmpr, Items(t)) && |Items(t)| == |Items(s)| && ToMap(Items(t)) == ToMap(Items(s))
  {
    CopyKeeps(s, t);
    SameContentsSameMap(Items(s), Items(t));
  }

  lemma StartedRoot<K, V>(s: Tree<K, V>, t: Tree<K, V>)
    requires RedBlack(s) && s.Node? && t.Node? && t == Node(false, t.item, Leaf, Leaf)
    requires t.item.key == s.item.key && t.item.el == s.item.el
    ensures Started(s, t)
  {}
}
