/** What each step of the post-insert fix-up does to the tree as a value. */
module RedBlackInsert {
  import opened RedBlackTree

  /** The state of the fix-up loop: the red tree t at p is sound but may have a red parent. */
  ghost predicate Climbing<K, V>(p: Path<K, V>, t: Tree<K, V>) {
    IsRed(t) && Balanced(t) && Fits(p, BlackHeight(t))
  }

  /** Two places in trees with the same contents. */
  ghost predicate SameItems<K, V>(p: Path<K, V>, t: Tree<K, V>, p': Path<K, V>, t': Tree<K, V>) {
    Items(Plug(p, t)) == Items(Plug(p', t'))
  }

  lemma SameItemsHere<K, V>(p: Path<K, V>, t: Tree<K, V>, t': Tree<K, V>)
    requires Items(t) == Items(t')
    ensures SameItems(p, t, p, t')
  {
    ItemsOfPlug(p, t);
    ItemsOfPlug(p, t');
  }

  lemma PaintFamilySound<K, V>(p: Path<K, V>, t: Tree<K, V>)
    requires Climbing(p, t) && RedPath(p) && IsRed(p.up.other)
    ensures var t' := Make(true, p.up.item, p.up.dir, Make(false, p.item, p.dir, t, p.other), p.up.other.(red := false));
      Climbing(p.up.up, t') && SameItems(p, t, p.up.up, t')
  {
    var uncle' := p.up.other.(red := false);
    var t' := Make(true, p.up.item, p.up.dir, Make(false, p.item, p.dir, t, p.other), uncle');
    assert Fits(p.up, BlackHeight(t));
    assert Balanced(uncle') && BlackHeight(uncle') == BlackHeight(t) + 1;
    BalancedMake(false, p.item, p.dir, t, p.other);
    BalancedMake(true, p.up.item, p.up.dir, Make(false, p.item, p.dir, t, p.other), uncle');
    SameItemsHere(p.up.up, Make(p.up.red, p.up.item, p.up.dir, Make(p.red, p.item, p.dir, t, p.other), p.up.other), t');
  }

  lemma RotateInnerSound<K, V>(p: Path<K, V>, t: Tree<K, V>)
    requires Climbing(p, t) && RedPath(p) && p.dir != p.up.dir
    ensures var p', t' := Down(p.up, p.up.dir, t.red, t.item, Kid(t, p.dir)),
                          Make(p.red, p.item, p.up.dir, p.other, Kid(t, p.up.dir));
      Climbing(p', t') && RedPath(p') && SameItems(p, t, p', t')
  {
    var par := Make(p.red, p.item, p.dir, t, p.other);
    RotateTreeItems(par, p.up.dir);
    SameItemsHere(p.up, par, RotateTree(par, p.up.dir));
  }

  lemma RotateTreeItems<K, V>(t: Tree<K, V>, dir: bool)
    requires t.Node? && Kid(t, !dir).Node?
    ensures Items(RotateTree(t, dir)) == Items(t)
  {
    var y := Kid(t, !dir);
    RotationKeepsItems(t.red, t.item, y.red, y.item, t.red, y.red, dir, Kid(t, dir), Kid(y, dir), Kid(y, !dir));
  }

  lemma RotateOuterSound<K, V>(p: Path<K, V>, t: Tree<K, V>)
    requires Climbing(p, t) && RedPath(p) && p.dir == p.up.dir && !IsRed(p.up.other)
    ensures var p' := Down(p.up.up, p.dir, false, p.item, Make(true, p.up.item, !p.dir, p.up.other, p.other));
      Climbing(p', t) && SameItems(p, t, p', t)
  {
    var par := Make(p.red, p.item, p.dir, t, p.other);
    var grand := Make(p.up.red, p.up.item, p.dir, par, p.up.other);
    var grand' := Make(true, p.up.item, p.dir, Make(false, p.item, p.dir, t, p.other), p.up.other);
    assert Items(grand) == Items(grand');
    assert Fits(p.up, BlackHeight(t));
    BalancedMake(true, p.up.item, !p.dir, p.up.other, p.other);
    RotateTreeItems(grand', !p.dir);
    SameItemsHere(p.up.up, grand, RotateTree(grand', !p.dir));
  }

  /** Once the loop has stopped, painting the root black gives a red-black tree. */
  lemma BlackenRoot<K, V>(p: Path<K, V>, t: Tree<K, V>) returns (w: Tree<K, V>)
    requires Climbing(p, t) && !RedPath(p)
    ensures w == if p.Top? then t.(red := false) else Plug(p, t)
    ensures RedBlack(w) && Items(w) == Items(Plug(p, t))
  {
    w := if p.Top? then t.(red := false) else Plug(p, t);
    if p.Down? {
      PlugBalanced(p, t);
    }
  }

  lemma ClimbingNode<K, V>(p: Path<K, V>, t: Tree<K, V>)
    requires Climbing(p, t)
    ensures t.Node? && t.red
    ensures RedPath(p) ==> p.up.Down? && Depth(p.up.up) < Depth(p) && Depth(p.up) < Depth(p)
  {}
}
