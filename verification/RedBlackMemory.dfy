/** Node memory, and when it represents a tree with parent links. */
module RedBlackMemory {
  import opened RedBlackTree

  /** The header of a node as it lies in memory (cc.h:4183-4189); key and element follow it and are kept apart here. */
  datatype Header = Header(red: bool, parent: Ref, child0: Ref, child1: Ref) {
    function Child(dir: bool): Ref {
      if dir then child1 else child0
    }

    function SetChild(dir: bool, r: Ref): Header {
      if dir then this.(child1 := r) else this.(child0 := r)
    }
  }

  type Memory = map<Ref, Header>

  function HeaderOf<K, V>(t: Tree<K, V>, parent: Ref): Header
    requires t.Node?
  {
    Header(t.red, parent, RefOf(t.kid0), RefOf(t.kid1))
  }

  function HeaderWith(red: bool, parent: Ref, dir: bool, child: Ref, other: Ref): Header {
    Header(red, parent, if dir then other else child, if dir then child else other)
  }

  /** mem holds the tree t, each node at its own address, with consistent parent and child links; parent is what the
      root's parent link says. */
  ghost predicate Rep<K, V>(mem: Memory, t: Tree<K, V>, parent: Ref) {
    t.Node? ==>
      && t.item.ref != SENTINEL && t.item.ref in mem && mem[t.item.ref] == HeaderOf(t, parent)
      && t.item.ref !in Refs(t.kid0) + Refs(t.kid1) && Refs(t.kid0) !! Refs(t.kid1)
      && Rep(mem, t.kid0, t.item.ref) && Rep(mem, t.kid1, t.item.ref)
  }

  /** mem holds everything around the place p, with hole as the child link to the place. */
  ghost predicate RepPath<K, V>(mem: Memory, p: Path<K, V>, hole: Ref) {
    p.Down? ==>
      && p.item.ref != SENTINEL && p.item.ref in mem
      && mem[p.item.ref] == HeaderWith(p.red, ParentRef(p.up), p.dir, hole, RefOf(p.other))
      && p.item.ref !in PathRefs(p.up) + Refs(p.other) && PathRefs(p.up) !! Refs(p.other)
      && Rep(mem, p.other, p.item.ref) && RepPath(mem, p.up, p.item.ref)
  }

  /** Memory and root pointer hold Plug(p, t). */
  ghost predicate Here<K, V>(mem: Memory, root: Ref, p: Path<K, V>, t: Tree<K, V>) {
    && root == RootRef(p, RefOf(t))
    && Rep(mem, t, ParentRef(p)) && RepPath(mem, p, RefOf(t))
    && Refs(t) !! PathRefs(p)
  }

  ghost predicate Agree(mem: Memory, mem': Memory, s: set<Ref>) {
    forall r {:trigger r in s} :: r in s ==> r in mem && r in mem' && mem'[r] == mem[r]
  }

  lemma AgreeOnPart(mem: Memory, mem': Memory, s: set<Ref>, s': set<Ref>)
    requires Agree(mem, mem', s) && s' <= s
    ensures Agree(mem, mem', s')
  {
    forall r | r in s' ensures r in mem && r in mem' && mem'[r] == mem[r] {
      assert r in s;
    }
  }

  lemma {:induction false} RepInMemory<K, V>(mem: Memory, t: Tree<K, V>, parent: Ref)
    requires Rep(mem, t, parent)
    ensures Refs(t) <= mem.Keys && SENTINEL !in Refs(t)
  {
    if t.Node? {
      RepInMemory(mem, t.kid0, t.item.ref);
      RepInMemory(mem, t.kid1, t.item.ref);
    }
  }

  lemma {:induction false} PathInMemory<K, V>(mem: Memory, p: Path<K, V>, hole: Ref)
    requires RepPath(mem, p, hole)
    ensures PathRefs(p) <= mem.Keys && SENTINEL !in PathRefs(p)
  {
    if p.Down? {
      RepInMemory(mem, p.other, p.item.ref);
      PathInMemory(mem, p.up, p.item.ref);
    }
  }

  lemma {:induction false} RepFrame<K, V>(mem: Memory, mem': Memory, t: Tree<K, V>, parent: Ref)
    requires Rep(mem, t, parent) && Agree(mem, mem', Refs(t))
    ensures Rep(mem', t, parent)
  {
    if t.Node? {
      assert t.item.ref in Refs(t) && Refs(t.kid0) <= Refs(t) && Refs(t.kid1) <= Refs(t);
      RepFrame(mem, mem', t.kid0, t.item.ref);
      RepFrame(mem, mem', t.kid1, t.item.ref);
    }
  }

  lemma {:induction false} PathFrame<K, V>(mem: Memory, mem': Memory, p: Path<K, V>, hole: Ref)
    requires RepPath(mem, p, hole) && Agree(mem, mem', PathRefs(p))
    ensures RepPath(mem', p, hole)
  {
    if p.Down? {
      assert p.item.ref in PathRefs(p) && Refs(p.other) <= PathRefs(p) && PathRefs(p.up) <= PathRefs(p);
      RepFrame(mem, mem', p.other, p.item.ref);
      PathFrame(mem, mem', p.up, p.item.ref);
    }
  }

  /** Only the root of t may differ, in its parent link and its colour. */
  lemma Reroot<K, V>(mem: Memory, mem': Memory, t: Tree<K, V>, parent: Ref, red: bool, parent': Ref)
    requires t.Node? && Rep(mem, t, parent) && Agree(mem, mem', Refs(t) - {t.item.ref})
    requires t.item.ref in mem' && mem'[t.item.ref] == mem[t.item.ref].(parent := parent', red := red)
    ensures Rep(mem', t.(red := red), parent')
  {
    var t' := t.(red := red);
    assert Refs(t.kid0) <= Refs(t) - {t.item.ref} && Refs(t.kid1) <= Refs(t) - {t.item.ref};
    RepFrame(mem, mem', t.kid0, t.item.ref);
    RepFrame(mem, mem', t.kid1, t.item.ref);
  }

  lemma Reparent<K, V>(mem: Memory, mem': Memory, t: Tree<K, V>, parent: Ref, parent': Ref)
    requires Rep(mem, t, parent) && Agree(mem, mem', Refs(t) - {RefOf(t)})
    requires t.Node? ==> t.item.ref in mem && t.item.ref in mem'
                         && mem'[t.item.ref] == mem[t.item.ref].(parent := parent')
    ensures Rep(mem', t, parent')
  {
    if t.Node? {
      Reroot(mem, mem', t, parent, t.red, parent');
    }
  }

  /** Only the node just above the place may differ, in its link to the place. */
  lemma Rehole<K, V>(mem: Memory, mem': Memory, p: Path<K, V>, hole: Ref, hole': Ref)
    requires RepPath(mem, p, hole) && Agree(mem, mem', PathRefs(p) - {ParentRef(p)})
    requires p.Down? ==> p.item.ref in mem' && mem'[p.item.ref] == mem[p.item.ref].SetChild(p.dir, hole')
    ensures RepPath(mem', p, hole')
  {
    if p.Down? {
      assert Refs(p.other) <= PathRefs(p) - {p.item.ref} && PathRefs(p.up) <= PathRefs(p) - {p.item.ref};
      RepFrame(mem, mem', p.other, p.item.ref);
      PathFrame(mem, mem', p.up, p.item.ref);
    }
  }

  // ---------- moving the place ----------

  lemma GoUp<K, V>(mem: Memory, root: Ref, p: Path<K, V>, t: Tree<K, V>)
    requires Here(mem, root, p, t) && p.Down?
    ensures Here(mem, root, p.up, Make(p.red, p.item, p.dir, t, p.other))
  {}

  lemma GoDown<K, V>(mem: Memory, root: Ref, p: Path<K, V>, t: Tree<K, V>, dir: bool)
    requires Here(mem, root, p, t) && t.Node?
    ensures Here(mem, root, Down(p, dir, t.red, t.item, Kid(t, !dir)), Kid(t, dir))
    ensures Make(t.red, t.item, dir, Kid(t, dir), Kid(t, !dir)) == t
  {}

  lemma {:induction false} GoTo<K, V>(mem: Memory, root: Ref, p: Path<K, V>, t: Tree<K, V>)
    requires Here(mem, root, Top, Plug(p, t))
    ensures Here(mem, root, p, t)
  {
    if p.Down? {
      GoTo(mem, root, p.up, Make(p.red, p.item, p.dir, t, p.other));
      GoDown(mem, root, p.up, Make(p.red, p.item, p.dir, t, p.other), p.dir);
    }
  }

  lemma {:induction false} GoToTop<K, V>(mem: Memory, root: Ref, p: Path<K, V>, t: Tree<K, V>)
    requires Here(mem, root, p, t)
    ensures Here(mem, root, Top, Plug(p, t))
  {
    if p.Down? {
      GoUp(mem, root, p, t);
      GoToTop(mem, root, p.up, Make(p.red, p.item, p.dir, t, p.other));
    }
  }

  // ---------- writing ----------

  lemma Painted<K, V>(mem: Memory, root: Ref, p: Path<K, V>, t: Tree<K, V>, red: bool)
    requires Here(mem, root, p, t) && t.Node?
    ensures Here(mem[t.item.ref := mem[t.item.ref].(red := red)], root, p, t.(red := red))
  {
    var mem' := mem[t.item.ref := mem[t.item.ref].(red := red)];
    RepInMemory(mem, t, ParentRef(p));
    PathInMemory(mem, p, RefOf(t));
    assert t.item.ref in Refs(t);
    Reroot(mem, mem', t, ParentRef(p), red, ParentRef(p));
    PathFrame(mem, mem', p, RefOf(t));
  }

  /** The links a rotation towards dir writes (cc.h:4401-4417), when x is the node, y its child and b the subtree that
      changes sides. */
  ghost predicate Rotated<K, V>(mem: Memory, mem': Memory, p: Path<K, V>, x: Ref, y: Ref,
                                b: Tree<K, V>, dir: bool)
    requires x in mem && y in mem
  {
    && mem'.Keys == mem.Keys
    && mem'[x] == mem[x].SetChild(!dir, RefOf(b)).(parent := y)
    && mem'[y] == mem[y].SetChild(dir, x).(parent := ParentRef(p))
    && (b.Node? ==> b.item.ref in mem && mem'[b.item.ref] == mem[b.item.ref].(parent := x))
    && (p.Down? ==> p.item.ref in mem && mem'[p.item.ref] == mem[p.item.ref].SetChild(p.dir, y))
    && forall r :: r in mem && r != x && r != y && r != RefOf(b) && r != ParentRef(p) ==> mem'[r] == mem[r]
  }

  lemma RotatedRep<K, V>(mem: Memory, root: Ref, mem': Memory, p: Path<K, V>, dir: bool,
                         r1: bool, x: Item<K, V>, a: Tree<K, V>, r2: bool, y: Item<K, V>, b: Tree<K, V>, c: Tree<K, V>)
    requires Here(mem, root, p, Make(r1, x, dir, a, Make(r2, y, dir, b, c)))
    requires x.ref in mem && y.ref in mem && Rotated(mem, mem', p, x.ref, y.ref, b, dir)
    ensures Here(mem', RootRef(p, y.ref), p, Make(r2, y, dir, Make(r1, x, dir, a, b), c))
  {
    hide Rep, RepPath, Refs, PathRefs;
    RotationRefs(mem, ParentRef(p), dir, r1, x, a, r2, y, b, c);
    PathInMemory(mem, p, x.ref);
    RotatedParts(mem, mem', p, dir, x.ref, y.ref, a, b, c);
    assert mem'[x.ref] == HeaderWith(r1, y.ref, dir, RefOf(a), RefOf(b));
    assert mem'[y.ref] == HeaderWith(r2, ParentRef(p), dir, x.ref, RefOf(c));
    MakeRep(mem', y.ref, r1, x, dir, a, b);
    MakeRep(mem', ParentRef(p), r2, y, dir, Make(r1, x, dir, a, b), c);
  }

  lemma RotatedParts<K, V>(mem: Memory, mem': Memory, p: Path<K, V>, dir: bool, x: Ref, y: Ref,
                           a: Tree<K, V>, b: Tree<K, V>, c: Tree<K, V>)
    requires x in mem && y in mem && Rotated(mem, mem', p, x, y, b, dir)
    requires Rep(mem, a, x) && Rep(mem, b, y) && Rep(mem, c, y) && RepPath(mem, p, x)
    requires Refs(a) !! Refs(b) !! Refs(c) !! {x} !! {y} !! PathRefs(p)
    requires SENTINEL !in Refs(a) + Refs(b) + Refs(c) + PathRefs(p)
    requires Refs(a) + Refs(b) + Refs(c) + PathRefs(p) <= mem.Keys
    ensures Rep(mem', a, x) && Rep(mem', b, x) && Rep(mem', c, y) && RepPath(mem', p, y)
  {
    hide Rep, RepPath, Refs, PathRefs;
    ParentIsOnPath(p);
    RootIsInTree(b);
    var changed := {x, y, RefOf(b), ParentRef(p)};
    assert Agree(mem, mem', mem.Keys - changed);
    assert Refs(a) !! changed && Refs(c) !! changed;
    RepFrame(mem, mem', a, x);
    RepFrame(mem, mem', c, y);
    assert (Refs(b) - {RefOf(b)}) !! changed && (PathRefs(p) - {ParentRef(p)}) !! changed;
    Reparent(mem, mem', b, y, x);
    Rehole(mem, mem', p, x, y);
  }

  lemma ParentIsOnPath<K, V>(p: Path<K, V>)
    ensures if p.Down? then p.item.ref in PathRefs(p) else ParentRef(p) == SENTINEL
  {}

  lemma RootIsInTree<K, V>(t: Tree<K, V>)
    ensures if t.Node? then t.item.ref in Refs(t) else RefOf(t) == SENTINEL
  {}

  lemma MakeRep<K, V>(mem: Memory, parent: Ref, red: bool, x: Item<K, V>, dir: bool, a: Tree<K, V>, b: Tree<K, V>)
    requires Rep(mem, a, x.ref) && Rep(mem, b, x.ref)
    requires x.ref != SENTINEL && x.ref in mem && mem[x.ref] == HeaderWith(red, parent, dir, RefOf(a), RefOf(b))
    requires x.ref !in Refs(a) + Refs(b) && Refs(a) !! Refs(b)
    ensures Rep(mem, Make(red, x, dir, a, b), parent)
    ensures Refs(Make(red, x, dir, a, b)) == Refs(a) + Refs(b) + {x.ref}
  {}

  /** The parts of a tree about to be rotated. */
  lemma RotationRefs<K, V>(mem: Memory, parent: Ref, dir: bool,
                           r1: bool, x: Item<K, V>, a: Tree<K, V>, r2: bool, y: Item<K, V>, b: Tree<K, V>,
                           c: Tree<K, V>)
    requires Rep(mem, Make(r1, x, dir, a, Make(r2, y, dir, b, c)), parent)
    ensures Rep(mem, a, x.ref) && Rep(mem, b, y.ref) && Rep(mem, c, y.ref)
    ensures x.ref in mem && mem[x.ref] == HeaderWith(r1, parent, dir, RefOf(a), y.ref)
    ensures y.ref in mem && mem[y.ref] == HeaderWith(r2, x.ref, dir, RefOf(b), RefOf(c))
    ensures x.ref != SENTINEL && y.ref != SENTINEL && x.ref != y.ref && x.ref in mem && y.ref in mem
    ensures Refs(a) !! Refs(b) !! Refs(c) !! {x.ref} !! {y.ref}
    ensures Refs(Make(r1, x, dir, a, Make(r2, y, dir, b, c))) == Refs(a) + Refs(b) + Refs(c) + {x.ref, y.ref}
    ensures RefOf(Make(r1, x, dir, a, Make(r2, y, dir, b, c))) == x.ref
    ensures Refs(a) + Refs(b) + Refs(c) <= mem.Keys && SENTINEL !in Refs(a) + Refs(b) + Refs(c)
  {
    RepInMemory(mem, a, x.ref);
    RepInMemory(mem, b, y.ref);
    RepInMemory(mem, c, y.ref);
  }

  /** The links a rotation follows. */
  lemma RotationLinks<K, V>(mem: Memory, root: Ref, p: Path<K, V>, t: Tree<K, V>, y: Tree<K, V>, b: Tree<K, V>,
                            dir: bool)
    requires Here(mem, root, p, t) && t.Node? && y.Node? && Kid(t, !dir) == y && Kid(y, dir) == b
    ensures t.item.ref in mem && mem[t.item.ref].Child(!dir) == y.item.ref && mem[t.item.ref].parent == ParentRef(p)
    ensures y.item.ref in mem && mem[y.item.ref].Child(dir) == RefOf(b)
    ensures RefOf(b) == SENTINEL <==> b.Leaf?
    ensures b.Node? ==> b.item.ref in mem
    ensures b.Node? ==> b.item.ref !in {t.item.ref, y.item.ref, ParentRef(p)}
    ensures ParentRef(p) !in {t.item.ref, y.item.ref}
    ensures ParentRef(p) == SENTINEL <==> p.Top?
    ensures p.Down? ==> p.item.ref in mem && mem[p.item.ref].Child(p.dir) == t.item.ref
                        && mem[p.item.ref].Child(!p.dir) != t.item.ref
    ensures root == RootRef(p, t.item.ref)
  {
    var a, c := Kid(t, dir), Kid(y, !dir);
    assert t == Make(t.red, t.item, dir, a, Make(y.red, y.item, dir, b, c));
    RotationRefs(mem, ParentRef(p), dir, t.red, t.item, a, y.red, y.item, b, c);
    PathInMemory(mem, p, t.item.ref);
    ParentIsOnPath(p);
    RootIsInTree(b);
    if p.Down? {
      RootIsInTree(p.other);
    }
  }

  /** The links around a node, its parent and its grandparent. */
  lemma FamilyLinks<K, V>(mem: Memory, root: Ref, p: Path<K, V>, t: Tree<K, V>)
    requires Here(mem, root, p, t) && t.Node?
    ensures t.item.ref in mem && mem[t.item.ref] == HeaderOf(t, ParentRef(p)) && t.item.ref != SENTINEL
    ensures root == t.item.ref <==> p.Top?
    ensures p.Down? ==> p.item.ref in mem && mem[p.item.ref].red == p.red && mem[p.item.ref].parent == ParentRef(p.up)
                        && mem[p.item.ref].Child(p.dir) == t.item.ref
                        && mem[p.item.ref].Child(!p.dir) == RefOf(p.other) != t.item.ref && p.item.ref != SENTINEL
    ensures p.Down? && p.other.Node? ==> p.other.item.ref in mem && mem[p.other.item.ref].red == p.other.red
    ensures RefOf(t) == SENTINEL <==> t.Leaf?
    ensures p.Down? ==> (RefOf(p.other) == SENTINEL <==> p.other.Leaf?)
  {
    RootIsOnPath(p, t.item.ref);
    RootIsInTree(t);
    if p.Down? {
      RootIsInTree(p.other);
    }
  }

  lemma {:induction false} RootIsOnPath<K, V>(p: Path<K, V>, hole: Ref)
    ensures if p.Down? then RootRef(p, hole) in PathRefs(p) else RootRef(p, hole) == hole
  {
    if p.Down? {
      RootIsOnPath(p.up, p.item.ref);
    }
  }

  /** Linking a new leaf node at an empty place (cc.h:4530-4541). */
  lemma Attached<K, V>(mem: Memory, root: Ref, p: Path<K, V>, item: Item<K, V>, red: bool, mem': Memory)
    requires Here(mem, root, p, Leaf) && item.ref != SENTINEL && item.ref !in mem
    requires p.Down? ==> p.item.ref in mem
    requires mem' == (if p.Top? then mem else mem[p.item.ref := mem[p.item.ref].SetChild(p.dir, item.ref)])
                     [item.ref := Header(red, ParentRef(p), SENTINEL, SENTINEL)]
    ensures Here(mem', RootRef(p, item.ref), p, Node(red, item, Leaf, Leaf))
  {
    PathInMemory(mem, p, SENTINEL);
    ParentIsOnPath(p);
    Rehole(mem, mem', p, SENTINEL, item.ref);
  }

  /** Key and element are no part of the links. */
  lemma Refilled<K, V>(mem: Memory, root: Ref, p: Path<K, V>, t: Tree<K, V>, item: Item<K, V>)
    requires Here(mem, root, p, t) && t.Node? && item.ref == t.item.ref
    ensures Here(mem, root, p, t.(item := item)) && Refs(t.(item := item)) == Refs(t)
  {}

  lemma AboveInMemory<K, V>(mem: Memory, p: Path<K, V>, hole: Ref)
    requires RepPath(mem, p, hole)
    ensures p.Down? ==> p.item.ref in mem && p.item.ref != SENTINEL
  {}

  lemma NoSentinel<K, V>(mem: Memory, root: Ref, t: Tree<K, V>)
    requires Here(mem, root, Top, t) && mem.Keys == Refs(t)
    ensures SENTINEL !in mem
  {
    RepInMemory(mem, t, SENTINEL);
  }

  /** The links around a place below a node with a sibling, whether or not a node stands there. */
  lemma SiblingLinks<K, V>(mem: Memory, root: Ref, p: Path<K, V>, t: Tree<K, V>)
    requires Here(mem, root, p, t) && p.Down? && p.other.Node?
    ensures var parent, s := p.item.ref, p.other;
      && parent in mem && mem[parent].red == p.red && mem[parent].parent == ParentRef(p.up) && parent != SENTINEL
      && mem[parent].Child(p.dir) == RefOf(t) && mem[parent].Child(!p.dir) == s.item.ref != RefOf(t)
      && s.item.ref in mem && mem[s.item.ref].red == s.red && s.item.ref != SENTINEL
      && NephewLink(mem, s, false) && NephewLink(mem, s, true)
  {
    RootIsInTree(t);
    RootIsInTree(p.other);
    assert Rep(mem, p.other, p.item.ref);
    assert Rep(mem, p.other.kid0, p.other.item.ref) && Rep(mem, p.other.kid1, p.other.item.ref);
  }

  ghost predicate NephewLink<K, V>(mem: Memory, s: Tree<K, V>, dir: bool)
    requires s.Node? && s.item.ref in mem
  {
    && mem[s.item.ref].Child(dir) == RefOf(Kid(s, dir))
    && (RefOf(Kid(s, dir)) == SENTINEL <==> Kid(s, dir).Leaf?)
    && (Kid(s, dir).Node? ==> Kid(s, dir).item.ref in mem && mem[Kid(s, dir).item.ref].red == Kid(s, dir).red)
  }

  /** What node and root pointers say about a place. */
  lemma PlaceLinks<K, V>(mem: Memory, root: Ref, p: Path<K, V>, t: Tree<K, V>)
    requires Here(mem, root, p, t)
    ensures RefOf(t) == root <==> p.Top?
    ensures RefOf(t) == SENTINEL <==> t.Leaf?
    ensures t.Node? ==> t.item.ref in mem && mem[t.item.ref].red == t.red
  {
    RootIsOnPath(p, RefOf(t));
    RootIsInTree(t);
    PathInMemory(mem, p, RefOf(t));
  }

  // ---------- erasing ----------

  /** The only subtree of a node that lacks one. */
  function OnlyKid<K, V>(t: Tree<K, V>): Tree<K, V>
    requires t.Node?
  {
    if t.kid0.Leaf? then t.kid1 else t.kid0
  }

  /** The writes of cc.h:4677-4684: the only subtree of t takes its place. */
  lemma DetachedRep<K, V>(mem: Memory, root: Ref, p: Path<K, V>, t: Tree<K, V>, mem': Memory)
    requires Here(mem, root, p, t) && t.Node? && (t.kid0.Leaf? || t.kid1.Leaf?)
    requires var c := OnlyKid(t);
      && (c.Node? ==> c.item.ref in mem && c.item.ref in mem'
                      && mem'[c.item.ref] == mem[c.item.ref].(parent := ParentRef(p)))
      && (p.Down? ==> p.item.ref in mem && p.item.ref in mem'
                      && mem'[p.item.ref] == mem[p.item.ref].SetChild(p.dir, RefOf(c)))
      && Agree(mem, mem', mem.Keys - {RefOf(c), ParentRef(p)})
    ensures Here(mem', RootRef(p, RefOf(OnlyKid(t))), p, OnlyKid(t))
    ensures t.item.ref !in Refs(OnlyKid(t)) + PathRefs(p)
    ensures PathRefs(p) + Refs(OnlyKid(t)) == PathRefs(p) + Refs(t) - {t.item.ref}
  {
    var c := OnlyKid(t);
    RepInMemory(mem, t, ParentRef(p));
    PathInMemory(mem, p, RefOf(t));
    ParentIsOnPath(p);
    RootIsInTree(c);
    assert Refs(t) == Refs(c) + {t.item.ref} && Refs(c) !! PathRefs(p);
    AgreeOnPart(mem, mem', mem.Keys - {RefOf(c), ParentRef(p)}, Refs(c) - {RefOf(c)});
    AgreeOnPart(mem, mem', mem.Keys - {RefOf(c), ParentRef(p)}, PathRefs(p) - {ParentRef(p)});
    Reparent(mem, mem', c, t.item.ref, ParentRef(p));
    Rehole(mem, mem', p, t.item.ref, RefOf(c));
  }

  /** The links of cc.h:4695-4712: the node d, so far outside the tree, takes the place of node x. */
  ghost predicate Supplanted<K, V>(mem: Memory, mem': Memory, p: Path<K, V>, x: Tree<K, V>, d: Ref)
    requires x.Node?
  {
    && d in mem' && mem'[d] == HeaderOf(x, ParentRef(p))
    && (p.Down? ==> p.item.ref in mem && p.item.ref in mem'
                    && mem'[p.item.ref] == mem[p.item.ref].SetChild(p.dir, d))
    && (x.kid0.Node? ==> x.kid0.item.ref in mem && x.kid0.item.ref in mem'
                         && mem'[x.kid0.item.ref] == mem[x.kid0.item.ref].(parent := d))
    && (x.kid1.Node? ==> x.kid1.item.ref in mem && x.kid1.item.ref in mem'
                         && mem'[x.kid1.item.ref] == mem[x.kid1.item.ref].(parent := d))
    && Agree(mem, mem', mem.Keys - {d, ParentRef(p), RefOf(x.kid0), RefOf(x.kid1)})
  }

  lemma SupplantedRep<K, V>(mem: Memory, root: Ref, p: Path<K, V>, x: Tree<K, V>, item: Item<K, V>, mem': Memory)
    requires Here(mem, root, p, x) && x.Node? && Supplanted(mem, mem', p, x, item.ref)
    requires item.ref != SENTINEL && item.ref !in Refs(x) + PathRefs(p)
    ensures Here(mem', RootRef(p, item.ref), p, x.(item := item))
    ensures x.item.ref !in PathRefs(p) + Refs(x.(item := item))
    ensures PathRefs(p) + Refs(x.(item := item)) == PathRefs(p) + Refs(x) - {x.item.ref} + {item.ref}
  {
    RepInMemory(mem, x, ParentRef(p));
    PathInMemory(mem, p, x.item.ref);
    ParentIsOnPath(p);
    RootIsInTree(x.kid0);
    RootIsInTree(x.kid1);
    assert Refs(x) == Refs(x.kid0) + {x.item.ref} + Refs(x.kid1);
    assert Rep(mem, x.kid0, x.item.ref) && Rep(mem, x.kid1, x.item.ref);
    hide Rep, RepPath;
    SupplantedParts(mem, mem', p, x.kid0, x.kid1, x.item.ref, item.ref);
    assert mem'[item.ref] == HeaderWith(x.red, ParentRef(p), false, RefOf(x.kid0), RefOf(x.kid1));
    MakeRep(mem', ParentRef(p), x.red, item, false, x.kid0, x.kid1);
  }

  lemma SupplantedParts<K, V>(mem: Memory, mem': Memory, p: Path<K, V>, a: Tree<K, V>, b: Tree<K, V>, x: Ref, d: Ref)
    requires Rep(mem, a, x) && Rep(mem, b, x) && RepPath(mem, p, x)
    requires Refs(a) !! Refs(b) !! PathRefs(p) !! {d} && SENTINEL !in Refs(a) + Refs(b) + PathRefs(p)
    requires Refs(a) + Refs(b) + PathRefs(p) <= mem.Keys
    requires p.Down? ==> p.item.ref in mem && p.item.ref in mem'
                         && mem'[p.item.ref] == mem[p.item.ref].SetChild(p.dir, d)
    requires a.Node? ==> a.item.ref in mem && a.item.ref in mem' && mem'[a.item.ref] == mem[a.item.ref].(parent := d)
    requires b.Node? ==> b.item.ref in mem && b.item.ref in mem' && mem'[b.item.ref] == mem[b.item.ref].(parent := d)
    requires Agree(mem, mem', mem.Keys - {d, ParentRef(p), RefOf(a), RefOf(b)})
    ensures Rep(mem', a, d) && Rep(mem', b, d) && RepPath(mem', p, d)
  {
    hide Rep, RepPath, Refs, PathRefs;
    ParentIsOnPath(p);
    RootIsInTree(a);
    RootIsInTree(b);
    var changed := {d, ParentRef(p), RefOf(a), RefOf(b)};
    AgreeOnPart(mem, mem', mem.Keys - changed, Refs(a) - {RefOf(a)});
    AgreeOnPart(mem, mem', mem.Keys - changed, Refs(b) - {RefOf(b)});
    AgreeOnPart(mem, mem', mem.Keys - changed, PathRefs(p) - {ParentRef(p)});
    Reparent(mem, mem', a, x, d);
    Reparent(mem, mem', b, x, d);
    Rehole(mem, mem', p, x, d);
  }

  /** Freeing a node outside the tree. */
  lemma Freed<K, V>(mem: Memory, root: Ref, t: Tree<K, V>, r: Ref)
    requires Here(mem, root, Top, t) && r !in Refs(t)
    ensures Here(mem - {r}, root, Top, t)
  {
    RepInMemory(mem, t, SENTINEL);
    RepFrame(mem, mem - {r}, t, SENTINEL);
  }

  lemma NodeLinks<K, V>(mem: Memory, root: Ref, p: Path<K, V>, t: Tree<K, V>)
    requires Here(mem, root, p, t) && t.Node?
    ensures t.item.ref != SENTINEL && t.item.ref in mem && mem[t.item.ref] == HeaderOf(t, ParentRef(p))
    ensures RefOf(t.kid0) == SENTINEL <==> t.kid0.Leaf?
    ensures RefOf(t.kid1) == SENTINEL <==> t.kid1.Leaf?
    ensures t.item.ref !in PathRefs(p)
    ensures t.kid0.Node? ==> t.kid0.item.ref in mem && t.kid0.item.ref !in {t.item.ref, ParentRef(p)}
    ensures t.kid1.Node? ==> t.kid1.item.ref in mem && t.kid1.item.ref !in {t.item.ref, ParentRef(p)}
    ensures t.kid0.Node? && t.kid1.Node? ==> t.kid0.item.ref != t.kid1.item.ref
    ensures p.Down? ==> p.item.ref in mem && mem[p.item.ref].Child(p.dir) == t.item.ref
                        && mem[p.item.ref].Child(!p.dir) != t.item.ref && p.item.ref != t.item.ref
    ensures ParentRef(p) == SENTINEL <==> p.Top?
    ensures root == RootRef(p, t.item.ref)
  {
    RepInMemory(mem, t, ParentRef(p));
    PathInMemory(mem, p, t.item.ref);
    ParentIsOnPath(p);
    RootIsInTree(t.kid0);
    RootIsInTree(t.kid1);
    if p.Down? {
      RootIsInTree(p.other);
    }
  }

  lemma PathRefsDown<K, V>(p: Path<K, V>, dir: bool, red: bool, item: Item<K, V>, other: Tree<K, V>)
    ensures PathRefs(Down(p, dir, red, item, other)) == PathRefs(p) + {item.ref} + Refs(other)
  {}

  lemma NotAmong<K, V>(p: Path<K, V>, x: Tree<K, V>, d: Ref)
    requires x.Node? && d !in Refs(x) + PathRefs(p) && d != SENTINEL
    ensures d !in {x.item.ref, ParentRef(p), RefOf(x.kid0), RefOf(x.kid1)}
  {
    ParentIsOnPath(p);
    RootIsInTree(x.kid0);
    RootIsInTree(x.kid1);
  }

  // ---------- taking a tree apart ----------

  /** As RepPath, but every link along the path has been cut. */
  ghost predicate RepCut<K, V>(mem: Memory, p: Path<K, V>) {
    p.Down? ==>
      && p.item.ref != SENTINEL && p.item.ref in mem
      && mem[p.item.ref] == HeaderWith(p.red, ParentRef(p.up), p.dir, SENTINEL, RefOf(p.other))
      && p.item.ref !in PathRefs(p.up) + Refs(p.other) && PathRefs(p.up) !! Refs(p.other)
      && Rep(mem, p.other, p.item.ref) && RepCut(mem, p.up)
  }

  lemma {:induction false} CutFrame<K, V>(mem: Memory, mem': Memory, p: Path<K, V>)
    requires RepCut(mem, p) && Agree(mem, mem', PathRefs(p))
    ensures RepCut(mem', p)
  {
    if p.Down? {
      assert p.item.ref in PathRefs(p) && Refs(p.other) <= PathRefs(p) && PathRefs(p.up) <= PathRefs(p);
      RepFrame(mem, mem', p.other, p.item.ref);
      CutFrame(mem, mem', p.up);
    }
  }

  lemma {:induction false} CutInMemory<K, V>(mem: Memory, p: Path<K, V>)
    requires RepCut(mem, p)
    ensures PathRefs(p) <= mem.Keys && SENTINEL !in PathRefs(p)
  {
    if p.Down? {
      RepInMemory(mem, p.other, p.item.ref);
      CutInMemory(mem, p.up);
    }
  }

  /** The state of the loop of cc_omap_clear: exactly the tree t and the cut path above it are still allocated. */
  ghost predicate Clearing<K, V>(mem: Memory, p: Path<K, V>, t: Tree<K, V>) {
    && Rep(mem, t, ParentRef(p)) && RepCut(mem, p)
    && Refs(t) !! PathRefs(p) && mem.Keys == Refs(t) + PathRefs(p)
  }

  /** Steps left until everything is released. */
  function Load<K, V>(t: Tree<K, V>): nat {
    if t.Leaf? then 0 else 2 + Load(t.kid0) + Load(t.kid1)
  }

  function PathLoad<K, V>(p: Path<K, V>): nat {
    if p.Top? then 0 else 1 + Load(p.other) + PathLoad(p.up)
  }

  lemma ClearingLinks<K, V>(mem: Memory, p: Path<K, V>, t: Tree<K, V>)
    requires Clearing(mem, p, t) && t.Node?
    ensures t.item.ref in mem && mem[t.item.ref] == HeaderOf(t, ParentRef(p)) && t.item.ref != SENTINEL
    ensures RefOf(t.kid0) == SENTINEL <==> t.kid0.Leaf?
    ensures RefOf(t.kid1) == SENTINEL <==> t.kid1.Leaf?
    ensures ParentRef(p) == SENTINEL <==> p.Top?
  {
    RepInMemory(mem, t.kid0, t.item.ref);
    RepInMemory(mem, t.kid1, t.item.ref);
    RootIsInTree(t.kid0);
    RootIsInTree(t.kid1);
  }

  /** Going down cuts the link that is followed (cc.h:4781-4792). */
  lemma CutDown<K, V>(mem: Memory, p: Path<K, V>, t: Tree<K, V>, dir: bool)
    requires Clearing(mem, p, t) && t.Node? && t.item.ref in mem
    ensures Clearing(mem[t.item.ref := mem[t.item.ref].SetChild(dir, SENTINEL)],
                     Down(p, dir, t.red, t.item, Kid(t, !dir)), Kid(t, dir))
    ensures PathLoad(Down(p, dir, t.red, t.item, Kid(t, !dir))) + Load(Kid(t, dir)) == PathLoad(p) + Load(t) - 1
  {
    var mem' := mem[t.item.ref := mem[t.item.ref].SetChild(dir, SENTINEL)];
    RepFrame(mem, mem', t.kid0, t.item.ref);
    RepFrame(mem, mem', t.kid1, t.item.ref);
    CutFrame(mem, mem', p);
    assert Refs(Kid(t, !dir)) !! Refs(Kid(t, dir));
  }

  /** Releasing a node without children and going up (cc.h:4793-4804). */
  lemma ReleaseUp<K, V>(mem: Memory, p: Path<K, V>, t: Tree<K, V>)
    requires Clearing(mem, p, t) && t.Node? && t.kid0.Leaf? && t.kid1.Leaf?
    ensures p.Top? ==> (mem - {t.item.ref}).Keys == {}
    ensures p.Down? ==> var t' := Make(p.red, p.item, p.dir, Leaf, p.other);
      && Clearing(mem - {t.item.ref}, p.up, t') && PathLoad(p.up) + Load(t') == PathLoad(p) + Load(t) - 1
  {
    var mem' := mem - {t.item.ref};
    assert Refs(t) == {t.item.ref};
    CutInMemory(mem, p);
    if p.Down? {
      CutFrame(mem, mem', p);
      assert RepCut(mem', p.up);
      MakeRep(mem', ParentRef(p.up), p.red, p.item, p.dir, Leaf, p.other);
    }
  }
}
