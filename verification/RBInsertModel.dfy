/** One iteration of the insertion loop (lib/ring/rbtree.js:90-129) on zippers: colour flip,
    repair of a red-red edge, and what the loop relies on before the next iteration. */
module RBInsertModel {
  import opened Points
  import opened RBModel

  function Flipped(t: Tree): Tree
    requires t.Node? && Red(t.left) && Red(t.right)
  {
    Node(t.left.(red := false), t.at, t.key, t.value, true, t.right.(red := false))
  }

  /** The node after the colour-flip test of the loop. */
  function Visited(t: Tree): Tree
    requires t.Node?
  {
    if Red(t.left) && Red(t.right) then Flipped(t) else t
  }

  /** The repair of a red node under a red parent: the node with its new surroundings. */
  function Repaired(c: Ctx, t: Tree): (Ctx, Tree)
    requires c.Frame? && c.up.Frame? && t.Node?
  {
    var last := c.up.dir;
    var g := Fill(c.up, Fill(c, t));
    if c.dir == last then
      var r := Rotated(g, !last);
      (Down(c.up.up, r, last), Child(r, last))
    else
      (c.up.up, DoubleRotated(g, !last))
  }

  predicate Violates(c: Ctx, t: Tree) {
    TopRed(c) && Red(t)
  }

  /** A black node without red children: it is neither flipped nor in violation when visited. */
  predicate Cool(t: Tree) {
    t.Node? && !t.red && !Red(t.left) && !Red(t.right)
  }

  /** After a double rotation the loop goes on from a node that had been an ancestor. */
  predicate Turning(c: Ctx, t: Tree, key: Point) {
    !TopRed(c) && Red(t) && Cool(Child(t, Less(t.key, key)))
  }

  /** A repair is possible: there is a grandparent, and the uncle is not red. */
  predicate Repairable(c: Ctx) {
    TopRed(c) ==> c.up.Frame? && !SiblingRed(c.up)
  }

  predicate Shape(c: Ctx, t: Tree) {
    && Balanced(t) && CtxBalanced(c, BH(t)) && NoRedRed(t) && CtxNoRedRed(c)
  }

  /** The loop invariant about colours, heights and the search path. */
  ghost predicate Searching(c: Ctx, t: Tree, key: Point) {
    && Leads(c, key) && Shape(c, t) && !Violates(c, t)
    && (c.Top? ==> t.Node? && !Red(t))
    && (Turning(c, t, key) || Cool(t) || (!(Red(t) && SiblingRed(c)) && Repairable(c)))
  }

  /** After the repair: same contents, a red-black tree up to the root's colour. */
  ghost predicate Settled(c: Ctx, t: Tree, key: Point, s: seq<Entry>) {
    && t.Node? && Leads(c, key) && Shape(c, t) && !Violates(c, t)
    && InOrder(Plug(c, t)) == s
  }

  lemma VisitedShape(c: Ctx, t: Tree)
    requires t.Node? && Shape(c, t)
    ensures Shape(c, Visited(t)) && InOrder(Visited(t)) == InOrder(t)
  {
    if Red(t.left) && Red(t.right) {
      assert Balanced(t.left) && Balanced(t.right) && NoRedRed(t.left) && NoRedRed(t.right);
      assert InOrder(t.left.(red := false)) == InOrder(t.left);
      assert InOrder(t.right.(red := false)) == InOrder(t.right);
    }
  }

  lemma RepairedShape(c: Ctx, t: Tree)
    requires t.Node? && Shape(c, t) && Violates(c, t) && Repairable(c)
    ensures Shape(Repaired(c, t).0, Repaired(c, t).1) && !Violates(Repaired(c, t).0, Repaired(c, t).1)
    ensures Repaired(c, t).1.Node?
  {
    assert CtxBalanced(c.up, BH(t)) && CtxNoRedRed(c.up);
    assert Balanced(t.left) && Balanced(t.right) && NoRedRed(t.left) && NoRedRed(t.right);
  }

  lemma RepairedInOrder(c: Ctx, t: Tree)
    requires t.Node? && c.Frame? && c.up.Frame?
    ensures InOrder(Plug(Repaired(c, t).0, Repaired(c, t).1)) == InOrder(Plug(c, t))
  {
    var last := c.up.dir;
    var g := Fill(c.up, Fill(c, t));
    assert Plug(c, t) == Plug(c.up.up, g);
    if c.dir == last {
      RotatedInOrder(g, !last);
      PlugSameInOrder(c.up.up, g, Rotated(g, !last));
    } else {
      DoubleRotatedInOrder(g, !last);
      PlugSameInOrder(c.up.up, g, DoubleRotated(g, !last));
    }
  }

  lemma RepairedLeads(c: Ctx, t: Tree, key: Point)
    requires t.Node? && c.Frame? && c.up.Frame? && Leads(c, key)
    ensures Leads(Repaired(c, t).0, key)
  {
    var c2 := Repaired(c, t).0;
    var up, g, p := c.up.up, Entry(c.up.key, c.up.value), Entry(c.key, c.value);
    assert if c.up.dir then After(c.up) == After(up) else Before(c.up) == Before(up);
    if c.dir == c.up.dir {
      if c.dir {
        SameRun(Before(up), InOrder(c.up.other), g, InOrder(c.other), p);
        assert Before(c2) == Before(c);
      } else {
        SameRunBack(p, InOrder(c.other), g, InOrder(c.up.other), After(up));
        assert After(c2) == After(c);
      }
    } else {
      if c.dir {
        assert Before(c) == Before(up) + (InOrder(c.other) + [p]);
        PartBelow(Before(up), InOrder(c.other) + [p], key);
        assert After(c.up) == ([g] + InOrder(c.up.other)) + After(up);
        PartAbove([g] + InOrder(c.up.other), After(up), key);
      } else {
        assert Before(c) == Before(up) + (InOrder(c.up.other) + [g]);
        PartBelow(Before(up), InOrder(c.up.other) + [g], key);
        assert After(c) == ([p] + InOrder(c.other)) + After(up);
        PartAbove([p] + InOrder(c.other), After(up), key);
      }
    }
  }

  lemma PartBelow(x: seq<Entry>, y: seq<Entry>, key: Point)
    requires AllBelow(x + y, key)
    ensures AllBelow(x, key)
  {
    assert forall i :: 0 <= i < |x| ==> x[i] == (x + y)[i];
  }

  lemma PartAbove(x: seq<Entry>, y: seq<Entry>, key: Point)
    requires AllAbove(x + y, key)
    ensures AllAbove(y, key)
  {
    assert forall i :: 0 <= i < |y| ==> y[i] == (x + y)[|x| + i];
  }

  /** After a repair that follows a colour flip, the next node is cool, or turns back towards a
      cool one: so the stale grandparents are not used before they are refreshed. */
  lemma RepairedNext(c: Ctx, t: Tree, key: Point)
    requires t.Node? && Red(t.left) && Red(t.right) && Shape(c, t) && Repairable(c) && TopRed(c)
    requires Leads(c, key)
    ensures var (c2, t2) := Repaired(c, Visited(t));
            var d := Less(t2.key, key);
            if c.dir == c.up.dir then
              Cool(Child(t2, d)) && Child(t2, d) == Child(Visited(t), d)
            else
              Turning(Down(c2, t2, d), Child(t2, d), key)
              && Child(Child(t2, d), Less(Child(t2, d).key, key)) == Child(Visited(t), d)
  {
    var t1 := Visited(t);
    var (c2, t2) := Repaired(c, t1);
    var d := Less(t2.key, key);
    assert NoRedRed(t.left) && NoRedRed(t.right);
    if c.dir != c.up.dir {
      ParentSides(c, key);
    }
  }

  /** The comparisons with the parent and grandparent agree with the directions taken. */
  lemma ParentSides(c: Ctx, key: Point)
    requires c.Frame? && c.up.Frame? && Leads(c, key)
    ensures c.dir == Less(c.key, key) && c.up.dir == Less(c.up.key, key)
  {
    CompareTotal(c.key, key);
    CompareTotal(c.up.key, key);
    var up := c.up.up;
    if c.dir {
      assert Before(c)[|Before(c)| - 1] == Entry(c.key, c.value);
    } else {
      assert After(c)[0] == Entry(c.key, c.value);
    }
    if c.up.dir {
      assert Before(c.up)[|Before(c.up)| - 1] == Entry(c.up.key, c.up.value);
      assert Before(c)[|Before(c.up)| - 1] == Entry(c.up.key, c.up.value);
    } else {
      assert After(c.up)[0] == Entry(c.up.key, c.up.value);
      assert After(c)[|After(c)| - |After(c.up)|] == Entry(c.up.key, c.up.value);
    }
  }

  /** One iteration up to the comparison, from the node the colour-flip test left. */
  function Settle(c: Ctx, t: Tree): (Ctx, Tree)
    requires t.Node? && (Violates(c, t) ==> Repairable(c))
  {
    if Violates(c, t) then Repaired(c, t) else (c, t)
  }

  /** Only a plain, fully refreshed position can need a repair. */
  lemma ViolationIsPlain(c: Ctx, t: Tree, key: Point)
    requires Searching(c, t, key) && t.Node?
    ensures Violates(c, Visited(t)) ==> !Turning(c, t, key) && !Cool(t) && Repairable(c)
    ensures Violates(c, Visited(t)) ==> Red(t.left) && Red(t.right)
  {
    if Turning(c, t, key) {
      assert !Violates(c, Visited(t));
    }
  }

  lemma StepSettles(c: Ctx, t: Tree, key: Point, s: seq<Entry>)
    requires Searching(c, t, key) && t.Node? && InOrder(Plug(c, t)) == s
    ensures Violates(c, Visited(t)) ==> Repairable(c)
    ensures var (c2, t2) := Settle(c, Visited(t));
            Settled(c2, t2, key, s)
  {
    var t1 := Visited(t);
    VisitedShape(c, t);
    PlugSameInOrder(c, t, t1);
    ViolationIsPlain(c, t, key);
    if Violates(c, t1) {
      RepairedShape(c, t1);
      RepairedInOrder(c, t1);
      RepairedLeads(c, t1, key);
    }
  }

  lemma StepContinues(c: Ctx, t: Tree, key: Point, s: seq<Entry>)
    requires Searching(c, t, key) && t.Node? && InOrder(Plug(c, t)) == s && Sorted(s)
    requires Violates(c, Visited(t)) ==> Repairable(c)
    ensures var (c2, t2) := Settle(c, Visited(t));
            t2.Node? &&
            var d := Less(t2.key, key);
            (t2.key != key ==>
               Searching(Down(c2, t2, d), Child(t2, d), key) && InOrder(Plug(Down(c2, t2, d), Child(t2, d))) == s)
  {
    StepSettles(c, t, key, s);
    var t1 := Visited(t);
    var (c2, t2) := Settle(c, t1);
    var d := Less(t2.key, key);
    if t2.key != key {
      DownLeads(c2, t2, key);
      DownShape(c2, t2, d);
      ViolationIsPlain(c, t, key);
      if Violates(c, t1) {
        RepairedNext(c, t, key);
      } else {
        assert NoRedRed(t.left) && NoRedRed(t.right);
      }
    }
  }

  lemma DownShape(c: Ctx, t: Tree, d: bool)
    requires t.Node? && Shape(c, t) && !Violates(c, t)
    ensures Shape(Down(c, t, d), Child(t, d)) && !Violates(Down(c, t, d), Child(t, d))
    ensures Plug(Down(c, t, d), Child(t, d)) == Plug(c, t)
  {
  }

  lemma NewLeafInOrder(c: Ctx, n: Tree)
    requires n.Node? && n.left.Leaf? && n.right.Leaf?
    ensures InOrder(Plug(c, n)) == Before(c) + [Entry(n.key, n.value)] + After(c)
    ensures InOrder(Plug(c, Leaf)) == Before(c) + After(c)
  {
    PlugInOrder(c, n);
    PlugInOrder(c, Leaf);
    assert InOrder(n) == [Entry(n.key, n.value)];
    var b: seq<Entry> := Before(c);
    assert b + [] == b;
  }

  /** Hanging a new red leaf into the hole reached by the search. */
  lemma NewLeaf(c: Ctx, key: Point, n: Tree, s: seq<Entry>)
    requires Searching(c, Leaf, key) && InOrder(Plug(c, Leaf)) == s
    requires n.Node? && n.red && n.left.Leaf? && n.right.Leaf? && n.key == key
    ensures c.Frame? && Shape(c, n)
    ensures InOrder(Plug(c, n)) == Before(c) + [Entry(key, n.value)] + After(c)
    ensures s == Before(c) + After(c)
    ensures Violates(c, n) ==> Repairable(c)
    ensures var (c2, t2) := Settle(c, n);
            Settled(c2, t2, key, InOrder(Plug(c, n))) && t2.key == key
  {
    NewLeafInOrder(c, n);
    if Violates(c, n) {
      RepairedShape(c, n);
      RepairedInOrder(c, n);
      RepairedLeads(c, n, key);
    }
  }
}
