/** `singleRotate` and `doubleRotate` on the heap (lib/ring/rbtree.js:54-69). */
module RBRotate {
  import opened Points
  import opened RingNodes
  import opened RBModel

  lemma RotatedApart(t: Tree, dir: bool)
    requires t.Node? && Child(t, !dir).Node?
    ensures Objs(Rotated(t, dir)) == Objs(t)
    ensures Apart(t) ==> Apart(Rotated(t, dir))
  {
    assert Apart(t) ==> Apart(Child(t, !dir)) && Apart(Child(t, dir));
  }

  /** The two records a rotation rewrites lie outside the three subtrees it moves. */
  lemma TwoLevels(t: Tree, dir: bool)
    requires t.Node? && Child(t, !dir).Node? && InHeap(t) && Apart(t)
    ensures var s := Child(t, !dir);
            var x, y, z := Child(t, dir), Child(s, dir), Child(s, !dir);
            && t.at != s.at
            && t.at !in Objs(x) + Objs(y) + Objs(z) && s.at !in Objs(x) + Objs(y) + Objs(z)
            && InHeap(x) && InHeap(y) && InHeap(z)
            && t.at.GetChild(!dir) == s.at && t.at.GetChild(dir) == AtOf(x)
            && s.at.GetChild(dir) == AtOf(y) && s.at.GetChild(!dir) == AtOf(z)
            && t.at.key == t.key && t.at.value == t.value && s.at.key == s.key && s.at.value == s.value
            && allocated(Objs(x)) && allocated(Objs(y)) && allocated(Objs(z))
  {
    Parts(t, dir);
    Parts(Child(t, !dir), dir);
  }

  method SingleRotate(root: RingNode, dir: bool, ghost t: Tree) returns (save: RingNode)
    requires t.Node? && t.at == root && Child(t, !dir).Node? && InHeap(t) && Apart(t)
    modifies root, Child(t, !dir).at
    ensures save == old(root.GetChild(!dir)) == Rotated(t, dir).at
    ensures InHeap(Rotated(t, dir))
    ensures Objs(Rotated(t, dir)) == Objs(t) && Apart(Rotated(t, dir))
  {
    ghost var s := Child(t, !dir);
    ghost var x, y, z := Child(t, dir), Child(s, dir), Child(s, !dir);
    TwoLevels(t, dir);
    save := root.GetChild(!dir);
    root.SetChild(!dir, save.GetChild(dir));
    save.SetChild(dir, root);
    root.red := true;
    save.red := false;
    Kept(x);
    Kept(y);
    Kept(z);
    MkInHeap(!dir, y, root, x);
    MkInHeap(dir, Mk(!dir, y, root, t.key, t.value, true, x), save, z);
    RotatedApart(t, dir);
  }

  method DoubleRotate(root: RingNode, dir: bool, ghost t: Tree) returns (save: RingNode)
    requires CanDouble(t, dir) && t.at == root && InHeap(t) && Apart(t)
    modifies root, Child(t, !dir).at, Child(Child(t, !dir), dir).at
    ensures save == DoubleRotated(t, dir).at
    ensures InHeap(DoubleRotated(t, dir))
    ensures Objs(DoubleRotated(t, dir)) == Objs(t) && Apart(DoubleRotated(t, dir))
  {
    ghost var c, o := Child(t, !dir), Child(t, dir);
    ghost var t1 := WithChild(t, !dir, Rotated(c, !dir));
    Parts(t, dir);
    Parts(c, dir);
    var child := root.GetChild(!dir);
    var s := SingleRotate(child, !dir, c);
    label L:
    root.SetChild(!dir, s);
    Kept(o);
    Kept@L(Rotated(c, !dir));
    save := SingleRotate(root, dir, t1);
  }
}
