/** The heap steps of `RBTree.insert` (lib/ring/rbtree.js:90-113), each against its zipper step. */
module RBInsert {
  import opened Points
  import opened RingNodes
  import opened RBModel
  import opened RBRotate
  import opened RBInsertModel

  lemma VisitedApart(t: Tree)
    requires t.Node?
    ensures Objs(Visited(t)) == Objs(t) && (Apart(t) ==> Apart(Visited(t))) && AtOf(Visited(t)) == t.at
  {
    if Red(t.left) && Red(t.right) {
      assert Objs(t.left.(red := false)) == Objs(t.left) && Objs(t.right.(red := false)) == Objs(t.right);
      assert Apart(t) ==> Apart(t.left) && Apart(t.right);
    }
  }

  method FlipColors(node: RingNode, ghost t: Tree)
    requires t.Node? && Red(t.left) && Red(t.right) && t.at == node && InHeap(t) && Apart(t)
    modifies node, t.left.at, t.right.at
    ensures InHeap(Flipped(t))
  {
    ghost var l, r := t.left, t.right;
    FlipParts(t);
    node.red := true;
    node.left.red := false;
    node.right.red := false;
    Kept(l.left);
    Kept(l.right);
    Kept(r.left);
    Kept(r.right);
    RecolouredInHeap(l, l.(red := false));
    RecolouredInHeap(r, r.(red := false));
  }

  /** The subtree under the grandparent, before and after the rotation of a repair. */
  function Under(c: Ctx, t: Tree): Tree
    requires c.Frame? && c.up.Frame?
  {
    Fill(c.up, Fill(c, t))
  }

  function Turned(c: Ctx, t: Tree): Tree
    requires c.Frame? && c.up.Frame? && t.Node?
  {
    if c.dir == c.up.dir then Rotated(Under(c, t), !c.up.dir) else DoubleRotated(Under(c, t), !c.up.dir)
  }

  method Turn(gp: RingNode, p: RingNode, node: RingNode, last: bool, ghost c: Ctx, ghost t: Tree) returns (s: RingNode)
    requires t.Node? && t.at == node && c.Frame? && c.up.Frame?
    requires p == c.at && gp == c.up.at && last == c.up.dir
    requires InHeap(Under(c, t)) && Apart(Under(c, t))
    modifies gp, p, node
    ensures s == Turned(c, t).at && InHeap(Turned(c, t))
    ensures Apart(Turned(c, t)) && Objs(Turned(c, t)) == Objs(Under(c, t))
  {
    ghost var g := Under(c, t);
    Parts(g, c.up.dir);
    Parts(Fill(c, t), c.dir);
    if node == p.GetChild(last) {
      s := SingleRotate(gp, !last, g);
    } else {
      s := DoubleRotate(gp, !last, g);
    }
  }

  lemma UnderInHeap(head: RingNode, c: Ctx, t: Tree)
    requires t.Node? && c.Frame? && c.up.Frame?
    requires CtxInHeap(head, c, t.at) && InHeap(t) && AllApart(head, c, t)
    ensures CtxInHeap(head, c.up.up, c.up.at) && InHeap(Under(c, t)) && AllApart(head, c.up.up, Under(c, t))
    ensures {c.at, c.up.at, t.at} <= Objs(Under(c, t))
    ensures CtxObjs(c.up.up) + Objs(Under(c, t)) == CtxObjs(c) + Objs(t)
    ensures allocated(CtxObjs(c.up.up)) && allocated(Objs(Under(c, t)))
    ensures Holder(head, c.up.up).right == c.up.at <==> HoleDir(c.up.up)
  {
    FillInHeap(head, c, t);
    FillInHeap(head, c.up, Fill(c, t));
    HoleSide(head, c.up.up, c.up.at, Under(c, t));
  }

  /** The repair of a red node under a red parent, with grandparent and great-grandparent at hand. */
  method Repair(head: RingNode, ggp: RingNode, gp: RingNode, p: RingNode, node: RingNode, last: bool,
                ghost c: Ctx, ghost t: Tree)
    requires t.Node? && t.at == node && c.Frame? && c.up.Frame?
    requires p == c.at && gp == c.up.at && ggp == Holder(head, c.up.up) && last == c.up.dir
    requires CtxInHeap(head, c, node) && InHeap(t) && AllApart(head, c, t)
    modifies ggp, gp, p, node
    ensures var (c2, t2) := Repaired(c, t);
            && t2.Node? && t2.at == node && CtxInHeap(head, c2, node) && InHeap(t2) && AllApart(head, c2, t2)
            && CtxObjs(c2) + Objs(t2) == CtxObjs(c) + Objs(t)
  {
    ghost var up, r := c.up.up, Turned(c, t);
    UnderInHeap(head, c, t);
    var dir2 := ggp.right == gp;
    label L:
    var s := Turn(gp, p, node, last, c, t);
    KeptCtx@L(Hung(head, up, gp));
    label M:
    Rehang(head, ggp, dir2, s, gp, up);
    Kept@M(r);
    if c.dir == last {
      DownInHeap(head, up, r, last);
    }
  }
}
