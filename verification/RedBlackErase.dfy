/** What each step of the post-erase fix-up does to the tree as a value. */
module RedBlackErase {
  import opened RedBlackTree
  import opened RedBlackInsert

  function Blacken<K, V>(t: Tree<K, V>): Tree<K, V> {
    if t.Leaf? then t else t.(red := false)
  }

  /** The state of the fix-up loop: the subtree t at p lacks one black node; painting its root black, if that is red,
      makes up for it. */
  ghost predicate Lacking<K, V>(p: Path<K, V>, t: Tree<K, V>) {
    Balanced(Blacken(t)) && Fits(p, BlackHeight(t) + 1)
  }

  /** Where the loop goes on. */
  ghost predicate Unfinished<K, V>(p: Path<K, V>, t: Tree<K, V>) {
    Lacking(p, t) && p.Down? && !IsRed(t)
  }

  /** What the loop decreases: a red subtree ends it. */
  function Work<K, V>(p: Path<K, V>, t: Tree<K, V>): nat {
    if IsRed(t) then 0 else 1 + Depth(p)
  }

  lemma UnfinishedParts<K, V>(p: Path<K, V>, t: Tree<K, V>)
    requires Unfinished(p, t)
    ensures p.Down? && !IsRed(t)
    ensures Balanced(t) && p.other.Node? && Balanced(p.other) && BlackHeight(p.other) == BlackHeight(t) + 1
    ensures Fits(p.up, BlackHeight(t) + 1 + if p.red then 0 else 1)
    ensures p.red ==> !IsRed(p.other) && p.up.Down? && !p.up.red
  {
    assert t.Node? ==> Blacken(t) == t;
  }

  /** cc.h:4619-4625: the sibling is red. */
  function AfterRedSibling<K, V>(p: Path<K, V>): Path<K, V>
    requires p.Down? && p.other.Node?
  {
    Down(Down(p.up, p.dir, false, p.other.item, Kid(p.other, !p.dir)), p.dir, true, p.item, Kid(p.other, p.dir))
  }

  lemma RedSiblingSound<K, V>(p: Path<K, V>, t: Tree<K, V>)
    requires Unfinished(p, t) && IsRed(p.other)
    ensures var q := AfterRedSibling(p);
      Unfinished(q, t) && SameItems(p, t, q, t) && !IsRed(q.other) && q.red && Depth(q) == Depth(p) + 1
  {
    UnfinishedParts(p, t);
    var x := Make(true, p.item, p.dir, t, p.other.(red := false));
    var s := p.other.item;
    assert BlackHeight(Kid(p.other, p.dir)) == BlackHeight(Kid(p.other, !p.dir)) == BlackHeight(t) + 1;
    RotateTreeItems(x, p.dir);
    SameItemsHere(p.up, Make(p.red, p.item, p.dir, t, p.other), RotateTree(x, p.dir));
  }

  /** cc.h:4627-4632: both children of the sibling are black. */
  lemma PaintSiblingSound<K, V>(p: Path<K, V>, t: Tree<K, V>)
    requires Unfinished(p, t) && !IsRed(p.other) && !IsRed(p.other.kid0) && !IsRed(p.other.kid1)
    ensures var t' := Make(p.red, p.item, p.dir, t, p.other.(red := true));
      Lacking(p.up, t') && SameItems(p, t, p.up, t') && (p.red <==> IsRed(t'))
  {
    UnfinishedParts(p, t);
    var s' := p.other.(red := true);
    assert Balanced(s') && BlackHeight(s') == BlackHeight(t);
    BalancedMake(false, p.item, p.dir, t, s');
    SameItemsHere(p.up, Make(p.red, p.item, p.dir, t, p.other), Make(p.red, p.item, p.dir, t, s'));
  }

  /** cc.h:4635-4641: of the sibling's children only the near one is red. */
  function AfterNearNephew<K, V>(p: Path<K, V>): Path<K, V>
    requires p.Down? && p.other.Node? && Kid(p.other, p.dir).Node?
  {
    var near := Kid(p.other, p.dir);
    p.(other := Make(false, near.item, !p.dir,
                     Make(true, p.other.item, !p.dir, Kid(p.other, !p.dir), Kid(near, !p.dir)), Kid(near, p.dir)))
  }

  lemma NearNephewSound<K, V>(p: Path<K, V>, t: Tree<K, V>)
    requires Unfinished(p, t) && !IsRed(p.other) && IsRed(Kid(p.other, p.dir)) && !IsRed(Kid(p.other, !p.dir))
    ensures var q := AfterNearNephew(p);
      Unfinished(q, t) && SameItems(p, t, q, t) && !IsRed(q.other) && IsRed(Kid(q.other, !q.dir))
  {
    UnfinishedParts(p, t);
    var near, far := Kid(p.other, p.dir), Kid(p.other, !p.dir);
    var x := Make(true, p.other.item, p.dir, near.(red := false), far);
    var inner := Make(true, p.other.item, !p.dir, far, Kid(near, !p.dir));
    assert Balanced(near) && Balanced(far) && BlackHeight(near) == BlackHeight(far);
    BalancedMake(true, p.other.item, !p.dir, far, Kid(near, !p.dir));
    BalancedMake(false, near.item, !p.dir, inner, Kid(near, p.dir));
    RotateTreeItems(x, !p.dir);
    var m, m' := Make(p.red, p.item, p.dir, t, p.other), Make(p.red, p.item, p.dir, t, RotateTree(x, !p.dir));
    assert Items(x) == Items(p.other);
    SameItemsHere(p.up, m, m');
  }

  /** cc.h:4643-4646: the far child of the sibling is red. */
  function AfterFarNephew<K, V>(p: Path<K, V>, t: Tree<K, V>): Tree<K, V>
    requires p.Down? && p.other.Node?
  {
    Make(p.red, p.other.item, p.dir, Make(false, p.item, p.dir, t, Kid(p.other, p.dir)),
         Blacken(Kid(p.other, !p.dir)))
  }

  lemma FarNephewSound<K, V>(p: Path<K, V>, t: Tree<K, V>)
    requires Unfinished(p, t) && !IsRed(p.other) && IsRed(Kid(p.other, !p.dir))
    ensures var w := Plug(p.up, AfterFarNephew(p, t));
      RedBlack(w) && Lacking(Top, w) && SameItems(p, t, Top, w)
  {
    UnfinishedParts(p, t);
    var near, far := Kid(p.other, p.dir), Kid(p.other, !p.dir);
    var left := Make(false, p.item, p.dir, t, near);
    assert Balanced(near) && Balanced(Blacken(far)) && BlackHeight(near) == BlackHeight(far) == BlackHeight(t);
    BalancedMake(false, p.item, p.dir, t, near);
    BalancedMake(p.red, p.other.item, p.dir, left, Blacken(far));
    var x := Make(false, p.item, p.dir, t, Make(p.red, p.other.item, p.dir, near, Blacken(far)));
    assert Items(Make(p.red, p.other.item, p.dir, near, Blacken(far))) == Items(p.other) by {
      assert Items(Blacken(far)) == Items(far);
    }
    RotateTreeItems(x, p.dir);
    SameItemsHere(p.up, Make(p.red, p.item, p.dir, t, p.other), RotateTree(x, p.dir));
    PlugBalanced(p.up, AfterFarNephew(p, t));
  }

  /** The paint at the end (cc.h:4651-4652). */
  lemma Finished<K, V>(p: Path<K, V>, t: Tree<K, V>)
    requires Lacking(p, t) && (p.Down? ==> IsRed(t))
    ensures RedBlack(Plug(p, Blacken(t))) && SameItems(p, t, p, Blacken(t))
  {
    PlugBalanced(p, Blacken(t));
    SameItemsHere(p, t, Blacken(t));
  }

  lemma WorkHere<K, V>(p: Path<K, V>, t: Tree<K, V>)
    requires Unfinished(p, t)
    ensures Work(p, t) == 1 + Depth(p) >= 2 && Depth(p.up) == Depth(p) - 1
    ensures forall w: Tree<K, V> :: Work(Top, w) <= 1
    ensures forall w: Tree<K, V> :: Work(p.up, w) <= Depth(p) && (IsRed(w) ==> Work(p.up, w) == 0)
  {}

  lemma StillUnfinished<K, V>(p: Path<K, V>, t: Tree<K, V>)
    requires Lacking(p, t) && p.Down? && !IsRed(t)
    ensures Unfinished(p, t)
  {}

  /** Detaching a node that lacks a child: if it was red the tree is sound, otherwise it lacks one black node there. */
  lemma DetachSound<K, V>(p: Path<K, V>, t: Tree<K, V>, c: Tree<K, V>)
    requires RedBlack(Plug(p, t)) && t.Node? && (t.kid0.Leaf? || t.kid1.Leaf?)
    requires c == if t.kid0.Leaf? then t.kid1 else t.kid0
    ensures t.red ==> RedBlack(Plug(p, c))
    ensures !t.red ==> Lacking(p, c)
    ensures Items(Plug(p, c)) == Pre(p) + Items(c) + Post(p)
    ensures Items(Plug(p, t)) == Pre(p) + (if t.kid0.Leaf? then [t.item] + Items(c) else Items(c) + [t.item]) + Post(p)
  {
    UnplugBalanced(p, t);
    hide RedBlack, Plug;
    DetachItems(p, t, c);
    if t.red {
      PlugBalanced(p, c);
    }
  }

  lemma DetachItems<K, V>(p: Path<K, V>, t: Tree<K, V>, c: Tree<K, V>)
    requires t.Node? && (t.kid0.Leaf? || t.kid1.Leaf?)
    requires c == if t.kid0.Leaf? then t.kid1 else t.kid0
    ensures Items(Plug(p, c)) == Pre(p) + Items(c) + Post(p)
    ensures Items(Plug(p, t)) == Pre(p) + (if t.kid0.Leaf? then [t.item] + Items(c) else Items(c) + [t.item]) + Post(p)
  {
    ItemsOfPlug(p, t);
    ItemsOfPlug(p, c);
    assert Items<K, V>(Leaf) == [];
    assert Items(t) == if t.kid0.Leaf? then [t.item] + Items(c) else Items(c) + [t.item];
  }
}
