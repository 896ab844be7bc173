/** The heap steps of `RBTree.remove` (lib/ring/rbtree.js:183-220), each against its zipper step. */
module RBRemove {
  import opened Points
  import opened RingNodes
  import opened RBModel
  import opened RBRotate
  import opened RBRemoveModel

  /** A red child on the other side: the node is rotated down, red (lib/ring/rbtree.js:185-188). */
  method RotateDown(head: RingNode, p: RingNode, node: RingNode, lastDir: bool, dir: bool,
                    ghost c: Ctx, ghost t: Tree, ghost objs: set<RingNode>) returns (sr: RingNode)
    requires t.Node? && Child(t, !dir).Node? && AtNode(head, c, t, node, objs)
    requires p == Holder(head, c) && lastDir == HoleDir(c)
    modifies head, objs
    ensures var r := Rotated(t, dir);
            sr == r.at && AtNode(head, Down(c, r, dir), Child(r, dir), node, objs)
  {
    ghost var r := Rotated(t, dir);
    assert Child(t, !dir).at in Objs(t) && Holder(head, c) in CtxObjs(c) + {head};
    label L:
    sr := SingleRotate(node, dir, t);
    KeptCtx@L(Hung(head, c, node));
    label M:
    Rehang(head, p, lastDir, sr, node, c);
    Kept@M(r);
    DownInHeap(head, c, r, dir);
  }

  method Redden(head: RingNode, node: RingNode, ghost c: Ctx, ghost t: Tree, ghost objs: set<RingNode>)
    requires t.Node? && AtNode(head, c, t, node, objs)
    modifies node
    ensures AtNode(head, c, Reddened(t), node, objs)
  {
    Parts(t, true);
    assert allocated(CtxObjs(c));
    node.red := true;
    Kept(t.left);
    Kept(t.right);
    KeptCtx(Hung(head, c, node));
    RecolouredInHeap(t, Reddened(t));
  }

  method FlipParent(head: RingNode, p: RingNode, sibling: RingNode, node: RingNode,
                    ghost c: Ctx, ghost t: Tree, ghost objs: set<RingNode>)
    requires t.Node? && c.Frame? && c.other.Node? && AtNode(head, c, t, node, objs)
    requires p == c.at && sibling == c.other.at
    modifies p, sibling
    ensures AtNode(head, FlippedCtx(c), t, node, objs)
  {
    ghost var o := c.other;
    Parts(o, true);
    FlippedApart(c);
    assert allocated(CtxObjs(c.up)) && allocated(Objs(t));
    p.red := false;
    sibling.red := true;
    Kept(t);
    Kept(o.left);
    Kept(o.right);
    KeptCtx(Hung(head, c.up, c.at));
    RecolouredInHeap(o, o.(red := true));
  }

  lemma FlippedApart(c: Ctx)
    requires c.Frame? && c.other.Node?
    ensures CtxObjs(FlippedCtx(c)) == CtxObjs(c) && (CtxApart(c) ==> CtxApart(FlippedCtx(c)))
  {
    assert Objs(c.other.(red := true)) == Objs(c.other);
    assert Apart(c.other) ==> Apart(c.other.(red := true));
  }

  /** A sibling without red children: colour flip (lib/ring/rbtree.js:193-197). */
  method FlipWithSibling(head: RingNode, p: RingNode, sibling: RingNode, node: RingNode,
                         ghost c: Ctx, ghost t: Tree, ghost objs: set<RingNode>)
    requires t.Node? && c.Frame? && c.other.Node? && AtNode(head, c, t, node, objs)
    requires p == c.at && sibling == c.other.at
    modifies objs
    ensures AtNode(head, FlippedCtx(c), Reddened(t), node, objs)
  {
    assert c.other.at in CtxObjs(c);
    FlipParent(head, p, sibling, node, c, t, objs);
    Redden(head, node, FlippedCtx(c), t, objs);
  }

  lemma CappedApart(r: Tree)
    requires r.Node? && r.left.Node? && r.right.Node?
    ensures Objs(Capped(r)) == Objs(r) && (Apart(r) ==> Apart(Capped(r)))
  {
    assert Objs(r.left.(red := false)) == Objs(r.left) && Objs(r.right.(red := false)) == Objs(r.right);
    assert Apart(r) ==> Apart(r.left) && Apart(r.right);
    assert Apart(r) ==> Apart(r.left.(red := false)) && Apart(r.right.(red := false));
  }

  method Cap(head: RingNode, gpc: RingNode, ghost c: Ctx, ghost r: Tree, ghost objs: set<RingNode>)
    requires r.Node? && r.left.Node? && r.right.Node? && AtNode(head, c, r, gpc, objs)
    modifies objs
    ensures AtNode(head, c, Capped(r), gpc, objs)
  {
    assert {r.left.at, r.right.at} <= Objs(r) && allocated(CtxObjs(c));
    CappedApart(r);
    CapColors(gpc, r);
    KeptCtx(Hung(head, c, gpc));
  }

  method CapColors(gpc: RingNode, ghost r: Tree)
    requires r.Node? && r.left.Node? && r.right.Node? && gpc == r.at && InHeap(r) && Apart(r)
    modifies gpc, r.left.at, r.right.at
    ensures InHeap(Capped(r))
  {
    ghost var x, y := r.left, r.right;
    FlipParts(r);
    gpc.red := true;
    gpc.left.red := false;
    gpc.right.red := false;
    Kept(x.left);
    Kept(x.right);
    Kept(y.left);
    Kept(y.right);
    RecolouredInHeap(x, x.(red := false));
    RecolouredInHeap(y, y.(red := false));
  }

  method TurnSibling(p: RingNode, sibling: RingNode, lastDir: bool, ghost c: Ctx, ghost t: Tree) returns (s: RingNode)
    requires t.Node? && Borrows(c) && p == c.at && sibling == c.other.at && lastDir == c.dir
    requires InHeap(Fill(c, t)) && Apart(Fill(c, t))
    modifies Objs(Fill(c, t))
    ensures var r := SiblingTurned(c, t);
            s == r.at && InHeap(r) && Apart(r) && Objs(r) == Objs(Fill(c, t))
  {
    ghost var g := Fill(c, t);
    Parts(g, lastDir);
    Parts(c.other, lastDir);
    assert InHeap(Child(c.other, lastDir));
    if IsRed(sibling.GetChild(lastDir)) {
      s := DoubleRotate(p, lastDir, g);
    } else {
      s := SingleRotate(p, lastDir, g);
    }
  }

  method TurnAndHang(head: RingNode, gp: RingNode, p: RingNode, sibling: RingNode, lastDir: bool, dir2: bool,
                     ghost c: Ctx, ghost t: Tree, ghost objs: set<RingNode>) returns (s: RingNode)
    requires t.Node? && Borrows(c) && AtNode(head, c, t, t.at, objs)
    requires gp == Holder(head, c.up) && p == c.at && sibling == c.other.at && lastDir == c.dir
    requires dir2 == HoleDir(c.up)
    modifies head, objs
    ensures AtNode(head, c.up, SiblingTurned(c, t), s, objs) && s == gp.GetChild(dir2)
  {
    ghost var r := SiblingTurned(c, t);
    FillInHeap(head, c, t);
    assert gp in CtxObjs(c.up) + {head};
    label L:
    s := TurnSibling(p, sibling, lastDir, c, t);
    KeptCtx@L(Hung(head, c.up, p));
    label M:
    Rehang(head, gp, dir2, s, p, c.up);
    Kept@M(r);
  }

  /** A sibling with a red child: rotation at the parent, then recolouring (lib/ring/rbtree.js:198-213). */
  method Borrow(head: RingNode, gp: RingNode, p: RingNode, sibling: RingNode, node: RingNode, lastDir: bool,
                ghost c: Ctx, ghost t: Tree, ghost objs: set<RingNode>)
    requires t.Node? && Borrows(c) && AtNode(head, c, t, node, objs)
    requires gp == Holder(head, c.up) && p == c.at && sibling == c.other.at && lastDir == c.dir
    modifies head, objs
    ensures var r := Borrowed(c, t);
            AtNode(head, Down(Down(c.up, r, c.dir), Child(r, c.dir), c.dir), Reddened(t), node, objs)
  {
    ghost var capped := Borrowed(c, t);
    FillInHeap(head, c, t);
    HoleSide(head, c.up, p, Fill(c, t));
    var dir2 := gp.right == p;
    var gpc := TurnAndHang(head, gp, p, sibling, lastDir, dir2, c, t, objs);
    Cap(head, gpc, c.up, SiblingTurned(c, t), objs);
    Descended(head, c.up, capped, objs, c.dir);
    Descended(head, Down(c.up, capped, c.dir), Child(capped, c.dir), objs, c.dir);
    Redden(head, node, Down(Down(c.up, capped, c.dir), Child(capped, c.dir), c.dir), t, objs);
  }

  lemma HolderChild(head: RingNode, c: Ctx, n: RingNode?)
    requires CtxInHeap(head, c, n)
    ensures Holder(head, c).GetChild(HoleDir(c)) == n && Holder(head, c) in CtxObjs(c) + {head}
    ensures c.Top? ==> head.GetChild(false) == null
    ensures c.Frame? ==> c.at.GetChild(!c.dir) == AtOf(c.other) && InHeap(c.other) && c.at.red == c.red
  {
  }

  lemma NodeFields(t: Tree, dir: bool)
    requires t.Node? && InHeap(t)
    ensures t.at.key == t.key && t.at.red == t.red
    ensures t.at.GetChild(dir) == AtOf(Child(t, dir)) && t.at.GetChild(!dir) == AtOf(Child(t, !dir))
    ensures IsRed(t.at.GetChild(dir)) == Red(Child(t, dir)) && IsRed(t.at.GetChild(!dir)) == Red(Child(t, !dir))
  {
  }

  /** The rebalancing of one iteration of the loop; returns the node's parent. */
  method Rebalance(head: RingNode, gp: RingNode?, parent: RingNode, node: RingNode, lastDir: bool, dir: bool,
                   ghost c: Ctx, ghost t: Tree, ghost objs: set<RingNode>) returns (p: RingNode)
    requires t.Node? && AtNode(head, c, t, node, objs)
    requires parent == Holder(head, c) && lastDir == HoleDir(c) && (c.Frame? ==> gp == Holder(head, c.up))
    modifies head, objs
    ensures var (c1, t1) := PushDown(c, t, dir);
            AtNode(head, c1, t1, node, objs) && p == Holder(head, c1)
  {
    p := parent;
    HolderChild(head, c, node);
    NodeFields(t, dir);
    if !IsRed(node) && !IsRed(node.GetChild(dir)) {
      if IsRed(node.GetChild(!dir)) {
        p := RotateDown(head, p, node, lastDir, dir, c, t, objs);
      } else {
        var sibling := p.GetChild(!lastDir);
        if sibling != null {
          NodeFields(c.other, lastDir);
          if !IsRed(sibling.GetChild(!lastDir)) && !IsRed(sibling.GetChild(lastDir)) {
            FlipWithSibling(head, p, sibling, node, c, t, objs);
          } else {
            Borrow(head, gp, p, sibling, node, lastDir, c, t, objs);
          }
        }
      }
    }
  }

  lemma SplicedInHeap(c: Ctx)
    requires c.Frame? && CtxApart(c)
    ensures CtxApart(Spliced(c)) && CtxObjs(Spliced(c)) == CtxObjs(c.up)
    ensures Holder2(Spliced(c)) == Holder2(c.up)
  {
    SetSuccKeeps(c.up, c.key, c.value, 0);
  }

  /** Copying the payload over the found node and unlinking the bottom one (lib/ring/rbtree.js:219-225). */
  method Splice(head: RingNode, p: RingNode, node: RingNode, found: RingNode, ghost c: Ctx, ghost objs: set<RingNode>)
    requires c.Frame? && c.other.Leaf? && AtNode(head, c, Leaf, null, objs)
    requires node == c.at && p == Holder(head, c.up) && Succ(c) == found
    modifies head, objs
    ensures AtNode(head, Spliced(c), Leaf, null, objs - {node})
  {
    SplicedInHeap(c);
    HolderChild(head, c, null);
    HolderChild(head, c.up, node);
    FillInHeap(head, c, Leaf);
    HoleSide(head, c.up, node, Fill(c, Leaf));
    SuccInCtx(c);
    CopyPayload(head, node, found, c);
    var child := node.GetChild(node.left == null);
    Rehang(head, p, p.right == node, child, node, Spliced(c));
  }

  method CopyPayload(head: RingNode, node: RingNode, found: RingNode, ghost c: Ctx)
    requires c.Frame? && CtxInHeap(head, c, null) && CtxApart(c) && head !in CtxObjs(c)
    requires node == c.at && Succ(c) == found
    modifies found
    ensures CtxInHeap(head, Spliced(c), node)
    ensures node.GetChild(false) == old(node.GetChild(false)) && node.GetChild(true) == old(node.GetChild(true))
    ensures found.left == old(found.left) && found.right == old(found.right)
  {
    assert allocated(CtxObjs(c.up)) && CtxInHeap(head, c.up, node);
    SuccInCtx(c.up);
    found.key := node.key;
    found.value := node.value;
    if c.dir {
      SetSuccInHeap(Hung(head, c.up, node));
    } else {
      KeptCtx(Hung(head, c.up, node));
    }
  }
}
