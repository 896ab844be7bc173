/** The ring's red-black tree (lib/ring/rbtree.js). */
module RBTrees {
  import opened Points
  import opened RingNodes
  import opened RBModel
  import opened RBContents
  import opened RBInsertModel
  import opened RBInsert
  import opened RBRemove
  import Push = RBRemoveModel

  predicate Deep(c: Ctx) {
    c.Frame? && c.up.Frame?
  }

  /** The helper variables of the insertion loop: `p` is always right; the grandparent is right except
      just after a double rotation, the great-grandparent except then or at a cool node. */
  ghost predicate Helpers(head: RingNode, c: Ctx, t: Tree, key: Point,
                          ggp: RingNode, gp: RingNode?, p: RingNode?, dir: bool, last: bool) {
    && p == (if c.Top? then null else c.at)
    && (c.Frame? ==> dir == c.dir)
    && (!Turning(c, t, key) ==>
          && gp == (if Deep(c) then c.up.at else null)
          && (if Deep(c) then last == c.up.dir && (Cool(t) || ggp == Holder(head, c.up.up)) else ggp == head))
  }

  function Size(t: Tree): nat {
    if t.Leaf? then 0 else Size(t.left) + 1 + Size(t.right)
  }

  /** What decreases in the insertion loop, across the step back that follows a double rotation. */
  function Remaining(c: Ctx, t: Tree, key: Point): nat {
    if t.Leaf? then 0
    else if Turning(c, t, key) then 2 * Size(Child(t, Less(t.key, key))) + 1
    else 2 * Size(t)
  }

  lemma HelpersNext(head: RingNode, c: Ctx, t: Tree, key: Point,
                    ggp: RingNode, gp: RingNode?, p: RingNode?, dir: bool, last: bool)
    requires t.Node? && Searching(c, t, key) && Helpers(head, c, t, key, ggp, gp, p, dir, last)
    requires Violates(c, Visited(t)) ==> Repairable(c)
    requires Settle(c, Visited(t)).1.Node? && Settle(c, Visited(t)).1.key != key
    ensures var (c2, t2) := Settle(c, Visited(t));
            var d := Less(t2.key, key);
            Helpers(head, Down(c2, t2, d), Child(t2, d), key, if gp != null then gp else ggp, p, t2.at, d, dir)
  {
    ViolationIsPlain(c, t, key);
    assert NoRedRed(t.left) && NoRedRed(t.right);
    if Violates(c, Visited(t)) {
      RepairedNext(c, t, key);
    }
  }

  lemma RemainingDecreases(c: Ctx, t: Tree, key: Point)
    requires t.Node? && Searching(c, t, key)
    requires Violates(c, Visited(t)) ==> Repairable(c)
    requires Settle(c, Visited(t)).1.Node? && Settle(c, Visited(t)).1.key != key
    ensures var (c2, t2) := Settle(c, Visited(t));
            var d := Less(t2.key, key);
            Remaining(Down(c2, t2, d), Child(t2, d), key) < Remaining(c, t, key)
  {
    var (c2, t2) := Settle(c, Visited(t));
    var d := Less(t2.key, key);
    ViolationIsPlain(c, t, key);
    assert Size(Child(Visited(t), d)) == Size(Child(t, d)) < Size(t);
    if Violates(c, Visited(t)) {
      RepairedNext(c, t, key);
    } else {
      SizeChild(Child(t2, d), key);
      assert Turning(c, t, key) ==> Cool(Child(t2, d));
    }
  }

  lemma SizeChild(t: Tree, key: Point)
    ensures t.Node? ==> Size(Child(t, Less(t.key, key))) < Size(t)
  {
  }

  /** The colour flip and the repair at an existing node (lib/ring/rbtree.js:96-113). */
  method VisitNode(head: RingNode, ggp: RingNode, gp: RingNode?, p: RingNode?, node: RingNode, dir: bool, last: bool,
                   ghost c: Ctx, ghost t: Tree, key: Point, ghost objs: set<RingNode>)
    requires t.Node? && Searching(c, t, key) && AtNode(head, c, t, node, objs)
    requires Helpers(head, c, t, key, ggp, gp, p, dir, last)
    modifies head, objs
    ensures Violates(c, Visited(t)) ==> Repairable(c)
    ensures var (c2, t2) := Settle(c, Visited(t)); AtNode(head, c2, t2, node, objs)
  {
    ViolationIsPlain(c, t, key);
    VisitedApart(t);
    FlipIfNeeded(head, node, c, t, objs);
    if node.red && IsRed(p) {
      HelperObjs(head, c);
      Repair(head, ggp, gp, p, node, last, c, Visited(t));
    }
  }

  method FlipIfNeeded(head: RingNode, node: RingNode, ghost c: Ctx, ghost t: Tree, ghost objs: set<RingNode>)
    requires t.Node? && AtNode(head, c, t, node, objs)
    modifies Objs(t)
    ensures AtNode(head, c, Visited(t), node, objs)
  {
    VisitedApart(t);
    assert InHeap(t.left) && InHeap(t.right) && allocated(CtxObjs(c));
    assert t.left.Node? ==> t.left.at in Objs(t);
    assert t.right.Node? ==> t.right.at in Objs(t);
    if IsRed(node.left) && IsRed(node.right) {
      FlipColors(node, t);
    }
    KeptCtx(Hung(head, c, node));
  }

  ghost function LeafFor(node: RingNode, key: Point, value: string): Tree {
    Node(Leaf, node, key, value, true, Leaf)
  }

  /** Hanging a new node at the bottom (lib/ring/rbtree.js:91-95, 103-113). */
  method HangNode(head: RingNode, ggp: RingNode, gp: RingNode?, p: RingNode?, dir: bool, last: bool,
                  ghost c: Ctx, key: Point, value: string, ghost objs: set<RingNode>) returns (node: RingNode)
    requires Searching(c, Leaf, key) && AtNode(head, c, Leaf, null, objs)
    requires Helpers(head, c, Leaf, key, ggp, gp, p, dir, last)
    modifies head, objs
    ensures fresh(node)
    ensures var n := LeafFor(node, key, value);
            (Violates(c, n) ==> Repairable(c)) &&
            var (c2, t2) := Settle(c, n); AtNode(head, c2, t2, node, objs + {node})
  {
    assert c.Frame? && p == c.at && p in objs;
    node := new RingNode(key, value);
    ghost var n := LeafFor(node, key, value);
    label L:
    Rehang(head, p, dir, node, null, c);
    assert InHeap(n);
    if IsRed(p) {
      HelperObjs(head, c);
      Repair(head, ggp, gp, p, node, last, c, n);
    }
  }

  lemma HelperObjs(head: RingNode, c: Ctx)
    requires Deep(c)
    ensures {c.at, c.up.at, Holder(head, c.up.up)} <= CtxObjs(c) + {head}
  {
    assert CtxObjs(c.up) <= CtxObjs(c) && CtxObjs(c.up.up) <= CtxObjs(c.up);
  }

  predicate RedBlackBelow(t: Tree) {
    Balanced(t) && NoRedRed(t)
  }

  /** The tree after the loop, seen from the fake root. */
  lemma LoopResult(head: RingNode, c: Ctx, t: Tree, node: RingNode?, objs: set<RingNode>)
    requires Shape(c, t) && !Violates(c, t) && AtNode(head, c, t, node, objs)
    ensures var m := Plug(c, t);
            RedBlackBelow(m) && InHeap(m) && Apart(m) && Objs(m) == objs && head.right == AtOf(m)
  {
    PlugBalanced(c, t);
    PlugNoRedRed(c, t);
    PlugObjs(c, t);
    PlugInHeap(head, c, t);
  }

  lemma Present(s: seq<Entry>, c: Ctx, t: Tree, e: Entry)
    requires s == InOrder(Plug(c, t)) && Sorted(s) && t.Node? && t.key == e.key
    ensures HasKey(s, e.key) && Put(s, e) == s
  {
    PlugInOrder(c, t);
    var l := Before(c) + InOrder(t.left);
    Regroup(Before(c), InOrder(t.left), Entry(t.key, t.value), InOrder(t.right), After(c));
    assert s[|l|] == Entry(t.key, t.value);
    PutPresent(s, e);
  }

  /** A described tree that is red-black below its root and hangs off the fake root. */
  ghost predicate Result(head: RingNode, m: Tree, objs: set<RingNode>, s: seq<Entry>)
    reads head, Objs(m)
  {
    && RedBlackBelow(m) && InHeap(m) && Apart(m) && Objs(m) == objs && head.right == AtOf(m)
    && InOrder(m) == s && Sorted(s)
  }

  /** Everything the loop needs from one iteration at an existing node. */
  lemma Iterated(head: RingNode, c: Ctx, t: Tree, key: Point, s: seq<Entry>,
                 ggp: RingNode, gp: RingNode?, p: RingNode?, dir: bool, last: bool)
    requires t.Node? && Searching(c, t, key) && InOrder(Plug(c, t)) == s && Sorted(s)
    requires Helpers(head, c, t, key, ggp, gp, p, dir, last)
    ensures Violates(c, Visited(t)) ==> Repairable(c)
    ensures var (c2, t2) := Settle(c, Visited(t));
            Settled(c2, t2, key, s) &&
            (t2.key != key ==>
               var d := Less(t2.key, key);
               var c3, t3 := Down(c2, t2, d), Child(t2, d);
               && Searching(c3, t3, key) && InOrder(Plug(c3, t3)) == s
               && Helpers(head, c3, t3, key, if gp != null then gp else ggp, p, t2.at, d, dir)
               && Remaining(c3, t3, key) < Remaining(c, t, key))
  {
    StepSettles(c, t, key, s);
    StepContinues(c, t, key, s);
    if Settle(c, Visited(t)).1.key != key {
      HelpersNext(head, c, t, key, ggp, gp, p, dir, last);
      RemainingDecreases(c, t, key);
    }
  }

  lemma FoundResult(head: RingNode, c: Ctx, t: Tree, node: RingNode?, objs: set<RingNode>, e: Entry, s: seq<Entry>)
    requires Settled(c, t, e.key, s) && Sorted(s) && AtNode(head, c, t, node, objs) && t.key == e.key
    ensures Result(head, Plug(c, t), objs, s) && HasKey(s, e.key) && Put(s, e) == s
  {
    LoopResult(head, c, t, node, objs);
    Present(s, c, t, e);
  }

  /** The last iteration of an insertion that finds its place: the new node ends the loop, since its
      key compares equal to the key searched for. */
  method PlaceNew(head: RingNode, ggp: RingNode, gp: RingNode?, p: RingNode?, dir: bool, last: bool,
                  ghost c: Ctx, key: Point, value: string, ghost objs: set<RingNode>, ghost s: seq<Entry>)
    returns (node: RingNode, ghost m: Tree)
    requires Searching(c, Leaf, key) && InOrder(Plug(c, Leaf)) == s && Sorted(s)
    requires AtNode(head, c, Leaf, null, objs) && Helpers(head, c, Leaf, key, ggp, gp, p, dir, last)
    modifies head, objs
    ensures fresh(node)
    ensures Result(head, m, objs + {node}, Put(s, Entry(key, value))) && m.Node?
    ensures !HasKey(s, key) && |Put(s, Entry(key, value))| == |s| + 1
  {
    node := HangNode(head, ggp, gp, p, dir, last, c, key, value, objs);
    ghost var n := LeafFor(node, key, value);
    NewLeaf(c, key, n, s);
    PutBetween(Before(c), Entry(key, value), After(c));
    PutSorted(Before(c), Entry(key, value), After(c));
    ghost var (c2, t2) := Settle(c, n);
    LoopResult(head, c2, t2, node, objs + {node});
    m := Plug(c2, t2);
  }

  /** The loop's starting point: everything hangs off the fake root. */
  lemma AtRoot(head: RingNode, t: Tree, key: Point)
    requires t.Node? && RedBlack(t) && InHeap(t) && Apart(t) && head !in Objs(t)
    requires head.right == t.at && head.left == null
    ensures AtNode(head, Top, t, t.at, Objs(t)) && Searching(Top, t, key) && Plug(Top, t) == t
  {
  }

  /** The descent of `insert` below a fake root (lib/ring/rbtree.js:76-132). */
  method InsertBelow(root: RingNode, key: Point, value: string, ghost model: Tree)
    returns (ret: bool, newRoot: RingNode?, ghost m: Tree)
    requires root == AtOf(model) && InHeap(model) && Apart(model) && RedBlack(model) && Sorted(InOrder(model))
    modifies Objs(model)
    ensures newRoot == AtOf(m) && newRoot != null && InHeap(m) && Apart(m) && RedBlackBelow(m)
    ensures fresh(Objs(m) - Objs(model))
    ensures ret <==> !HasKey(InOrder(model), key)
    ensures InOrder(m) == Put(InOrder(model), Entry(key, value)) && Sorted(InOrder(m))
    ensures |InOrder(m)| == |InOrder(model)| + if ret then 1 else 0
  {
    ghost var s := InOrder(model);
    ghost var objs, c, t := Objs(model), Top, model;
    var head := new RingNode(Point(0, ""), "");
    var dir, last := false, false;
    var gp: RingNode?, p: RingNode?, node: RingNode?, ggp: RingNode := null, null, root, head;
    ggp.right := root;
    Kept(model);
    AtRoot(head, model, key);
    while true
      invariant Searching(c, t, key) && InOrder(Plug(c, t)) == s
      invariant AtNode(head, c, t, node, objs) && Helpers(head, c, t, key, ggp, gp, p, dir, last)
      decreases Remaining(c, t, key)
    {
      if node == null {
        ret := true;
        node, m := PlaceNew(head, ggp, gp, p, dir, last, c, key, value, objs, s);
        break;
      }
      Iterated(head, c, t, key, s, ggp, gp, p, dir, last);
      VisitNode(head, ggp, gp, p, node, dir, last, c, t, key, objs);
      c, t := Settle(c, Visited(t)).0, Settle(c, Visited(t)).1;
      var cmp := Compare(node.key, key);
      CompareTotal(node.key, key);
      if cmp == 0 {
        ret := false;
        m := Plug(c, t);
        FoundResult(head, c, t, node, objs, Entry(key, value), s);
        break;
      }
      last := dir;
      dir := cmp < 0;
      if gp != null {
        ggp := gp;
      }
      gp := p;
      p := node;
      node := node.GetChild(dir);
      Descended(head, c, t, objs, dir);
      c, t := Down(c, t, dir), Child(t, dir);
    }
    newRoot := head.right;
  }

  /** What the removal loop keeps (lib/ring/rbtree.js:166-221). */
  ghost predicate Removing(c: Ctx, t: Tree, key: Point, found: RingNode?, s: seq<Entry>) {
    && Push.SoundShape(c, t) && Push.Pushed(c, t) && InOrder(Plug(c, t)) == s && Sorted(s) && Push.Tracks(c, key, found)
  }

  ghost predicate Cursor(head: RingNode, c: Ctx, node: RingNode, p: RingNode?, dir: bool) {
    && node == Holder(head, c) && dir == HoleDir(c) && (c.Frame? ==> p == Holder(head, c.up))
  }

  /** The cut that ends a removal: with or without a hit, the tree hanging off the fake root is
      red-black below its root and holds what it should. */
  method Finish(head: RingNode, p: RingNode?, node: RingNode, found: RingNode?, ghost c: Ctx, key: Point,
                ghost s: seq<Entry>, ghost objs: set<RingNode>) returns (ghost m: Tree)
    requires c.Frame? && Removing(c, Leaf, key, found, s) && AtNode(head, c, Leaf, null, objs)
    requires Cursor(head, c, node, p, HoleDir(c))
    modifies head, objs
    ensures Result(head, m, Objs(m), Without(s, key)) && Objs(m) <= objs
    ensures found != null <==> HasKey(s, key)
    ensures |Without(s, key)| == |s| - if found != null then 1 else 0
  {
    if found != null {
      Push.BottomIsLeaf(c);
      Splice(head, p, node, found, c, objs);
      Push.SplicedShape(c);
      Push.SplicedContents(c, key, found, s);
      LoopResult(head, Push.Spliced(c), Leaf, null, objs - {node});
      m := Plug(Push.Spliced(c), Leaf);
    } else {
      Push.AbsentContents(c, key, s);
      LoopResult(head, c, Leaf, null, objs);
      m := Plug(c, Leaf);
    }
  }

  lemma PushedOn(head: RingNode, c: Ctx, t: Tree, key: Point, found: RingNode?, s: seq<Entry>)
    requires t.Node? && Removing(c, t, key, found, s)
    ensures var dir := Less(t.key, key);
            var (c1, t1) := Push.PushDown(c, t, dir);
            && t1.Node? && t1.at == t.at && Child(t1, dir) == Child(t, dir) && (t.key == key ==> !dir)
            && Removing(Down(c1, t1, dir), Child(t1, dir), key, if t.key == key then t.at else found, s)
  {
    var dir := Less(t.key, key);
    Push.PushDownShape(c, t, dir);
    Push.TracksOn(c, t, key, found, s);
  }

  /** `remove` below a fake root (lib/ring/rbtree.js:154-234). */
  method RemoveBelow(root: RingNode, key: Point, ghost model: Tree)
    returns (removed: bool, newRoot: RingNode?, ghost m: Tree)
    requires root == AtOf(model) && InHeap(model) && Apart(model) && RedBlack(model) && Sorted(InOrder(model))
    modifies Objs(model)
    ensures newRoot == AtOf(m) && InHeap(m) && Apart(m) && RedBlackBelow(m) && Objs(m) <= Objs(model)
    ensures removed <==> HasKey(InOrder(model), key)
    ensures InOrder(m) == Without(InOrder(model), key) && Sorted(InOrder(m))
    ensures |InOrder(m)| == |InOrder(model)| - if removed then 1 else 0
  {
    ghost var s := InOrder(model);
    ghost var objs, c, t := Objs(model), Top, model;
    var head := new RingNode(Point(0, ""), "");
    var node: RingNode, p: RingNode?, gp: RingNode?, found: RingNode?, dir := head, null, null, null, true;
    head.right := root;
    Kept(model);
    AtRoot(head, model, key);
    HolderChild(head, c, root);
    while node.GetChild(dir) != null
      invariant Removing(c, t, key, found, s) && AtNode(head, c, t, AtOf(t), objs) && Cursor(head, c, node, p, dir)
      invariant node.GetChild(dir) == AtOf(t) && (c.Top? ==> t.Node?)
      decreases Size(t)
    {
      var lastDir := dir;
      gp := p;
      p := node;
      node := node.GetChild(dir);
      var cmp := Compare(key, node.key);
      CompareTotal(key, node.key);
      CompareTotal(node.key, key);
      dir := cmp > 0;
      PushedOn(head, c, t, key, found, s);
      if cmp == 0 {
        found := node;
      }
      p := Rebalance(head, gp, p, node, lastDir, dir, c, t, objs);
      ghost var (c1, t1) := Push.PushDown(c, t, dir);
      Descended(head, c1, t1, objs, dir);
      c, t := Down(c1, t1, dir), Child(t1, dir);
    }
    m := Finish(head, p, node, found, c, key, s, objs);
    removed := found != null;
    newRoot := head.right;
  }

  method Blacken(root: RingNode, ghost m: Tree)
    requires m.Node? && root == m.at && InHeap(m) && Apart(m) && RedBlackBelow(m)
    modifies root
    ensures InHeap(m.(red := false)) && Apart(m.(red := false)) && RedBlack(m.(red := false))
    ensures Objs(m.(red := false)) == Objs(m) && InOrder(m.(red := false)) == InOrder(m)
  {
    Parts(m, true);
    root.red := false;
    Kept(m.left);
    Kept(m.right);
    RecolouredInHeap(m, m.(red := false));
  }

  class RBTree {
    var root: RingNode?
    var size: nat
    ghost var model: Tree

    ghost predicate Valid()
      reads this, Objs(model)
    {
      && root == AtOf(model) && InHeap(model) && Apart(model)
      && RedBlack(model) && Sorted(InOrder(model))
      && size == |InOrder(model)|
    }

    /** The (key, value) pairs in key order. */
    ghost function Contents(): seq<Entry>
      reads this
    {
      InOrder(model)
    }

    constructor ()
      ensures Valid() && Contents() == [] && Objs(model) == {}
    {
      root, size, model := null, 0, Leaf;
    }

    /** `insert`: true if the pair was added, false on a duplicate key. */
    method Insert(key: Point, value: string) returns (ret: bool)
      requires Valid()
      modifies this, Objs(model)
      ensures Valid() && fresh(Objs(model) - old(Objs(model)))
      ensures ret <==> !HasKey(old(Contents()), key)
      ensures Contents() == Put(old(Contents()), Entry(key, value))
      ensures size == old(size) + if ret then 1 else 0
    {
      ghost var m: Tree;
      if root == null {
        root := new RingNode(key, value);
        m := LeafFor(root, key, value);
        ret := true;
        assert model.Leaf? && InOrder(m) == [Entry(key, value)] && Objs(m) == {root};
      } else {
        var r: RingNode? := root;
        ret, r, m := InsertBelow(r, key, value, model);
        root := r;
      }
      Blacken(root, m);
      model := m.(red := false);
      if ret {
        size := size + 1;
      }
    }

    /** `remove`: true if the key was found and its pair removed. */
    method Remove(key: Point) returns (removed: bool)
      requires Valid()
      modifies this, Objs(model)
      ensures Valid() && Objs(model) <= old(Objs(model))
      ensures removed <==> HasKey(old(Contents()), key)
      ensures Contents() == Without(old(Contents()), key)
      ensures size == old(size) - if removed then 1 else 0
    {
      if root == null {
        assert model.Leaf?;
        return false;
      }
      ghost var m: Tree;
      var r: RingNode? := root;
      removed, r, m := RemoveBelow(r, key, model);
      if removed {
        size := size - 1;
      }
      root := r;
      if root != null {
        Blacken(root, m);
        m := m.(red := false);
      }
      model := m;
    }
  }
}
