/** Iterators and searches over the ring's tree (lib/ring/rbtree.js:241-344). */
module RBIterators {
  import opened Wrappers
  import opened Points
  import opened RingNodes
  import opened RBModel
  import opened RBContents
  import opened RBTrees

  /** The records from the root down to the hole. */
  function Path(c: Ctx): seq<RingNode> {
    if c.Top? then [] else Path(c.up) + [c.at]
  }

  lemma {:induction false} PathLength(c: Ctx)
    ensures |Path(c)| == Depth(c)
  {
    if c.Frame? { PathLength(c.up); }
  }

  lemma {:induction false} SubInHeap(c: Ctx, t: Tree)
    requires InHeap(Plug(c, t)) && Apart(Plug(c, t))
    ensures InHeap(t) && Apart(t) && Objs(t) <= Objs(Plug(c, t))
    ensures c.Frame? ==> c.at !in Objs(t) && c.at.key == c.key && c.at.value == c.value
  {
    if c.Top? {
    } else {
      SubInHeap(c.up, Fill(c, t));
      Parts(Fill(c, t), c.dir);
    }
  }

  lemma LeadsUp(c: Ctx, key: Point)
    requires c.Frame? && Leads(c, key)
    ensures Leads(c.up, key) && (if c.dir then Compare(key, c.key) > 0 else Compare(key, c.key) < 0)
  {
    CompareTotal(c.key, key);
    CompareTotal(key, c.key);
    if c.dir {
      assert Before(c)[|Before(c)| - 1] == Entry(c.key, c.value);
      assert forall i :: 0 <= i < |Before(c.up)| ==> Before(c.up)[i] == Before(c)[i];
    } else {
      var k := |After(c)| - |After(c.up)|;
      assert After(c)[0] == Entry(c.key, c.value);
      assert forall i :: 0 <= i < |After(c.up)| ==> After(c.up)[i] == After(c)[k + i];
    }
  }

  // ---- the depth of the search ----

  function Pow2(n: nat): nat {
    if n == 0 then 1 else 2 * Pow2(n - 1)
  }

  function Height(t: Tree): nat {
    if t.Leaf? then 0
    else 1 + if Height(t.left) > Height(t.right) then Height(t.left) else Height(t.right)
  }

  lemma {:induction false} HeightByBlack(t: Tree)
    requires Balanced(t) && NoRedRed(t)
    ensures Height(t) <= 2 * BH(t) + if Red(t) then 1 else 0
    ensures Pow2(BH(t)) <= |InOrder(t)| + 1
  {
    if t.Leaf? {
    } else {
      HeightByBlack(t.left);
      HeightByBlack(t.right);
    }
  }

  lemma {:induction false} Pow2Mono(a: nat, b: nat)
    requires a <= b
    ensures Pow2(a) <= Pow2(b)
    decreases b
  {
    if a < b { Pow2Mono(a, b - 1); }
  }

  lemma {:induction false} Pow2Double(n: nat)
    ensures Pow2(2 * n) == Pow2(n) * Pow2(n)
  {
    if n == 0 {
    } else {
      Pow2Double(n - 1);
      var x := Pow2(n - 1);
      assert Pow2(2 * n) == 2 * Pow2(2 * n - 1) == 4 * Pow2(2 * (n - 1));
      assert (2 * x) * (2 * x) == 4 * (x * x);
    }
  }

  /** A red-black tree of n entries is at most 2 * log2(n + 1) high. */
  lemma HeightBound(t: Tree, h: nat)
    requires RedBlack(t) && h <= Height(t)
    ensures Pow2(h) <= (|InOrder(t)| + 1) * (|InOrder(t)| + 1)
  {
    HeightByBlack(t);
    Pow2Mono(h, 2 * BH(t));
    Pow2Double(BH(t));
    var a, b := Pow2(BH(t)), |InOrder(t)| + 1;
    MulMono(a, b);
  }

  lemma MulMono(a: nat, b: nat)
    requires a <= b
    ensures a * a <= b * b
  {
    assert a * a <= a * b;
    assert a * b <= b * b;
  }

  /** The nodes compared down to a place are few. */
  lemma DepthBound(c: Ctx, t: Tree, visited: nat)
    requires RedBlack(Plug(c, t)) && visited <= Depth(c) + Height(t)
    ensures var n := |InOrder(Plug(c, t))|;
            Pow2(visited) <= (n + 1) * (n + 1)
  {
    HeightPlug(c, t);
    HeightBound(Plug(c, t), visited);
  }

  lemma {:induction false} HeightPlug(c: Ctx, t: Tree)
    ensures Depth(c) + Height(t) <= Height(Plug(c, t))
  {
    if c.Frame? { HeightPlug(c.up, Fill(c, t)); }
  }

  /** One step up: the parent, how it holds the subtree, and the positions on either side. */
  lemma Climbed(c: Ctx, t: Tree)
    requires t.Node? && InHeap(Plug(c, t)) && Apart(Plug(c, t))
    ensures |InOrder(Plug(c, t))| == |Before(c)| + |InOrder(t)| + |After(c)|
    ensures c.Frame? ==>
              && c.at.key == c.key && (c.at.right == t.at <==> c.dir)
              && Plug(c.up, Fill(c, t)) == Plug(c, t)
              && |Before(c.up)| + |InOrder(Fill(c, t).left)| ==
                 (if c.dir then |Before(c)| - 1 else |Before(c)| + |InOrder(t)|)
              && (c.dir ==> |Before(c.up)| + |InOrder(Fill(c, t))| == |Before(c)| + |InOrder(t)|)
  {
    PlugInOrder(c, t);
    if c.Frame? {
      SubInHeap(c.up, Fill(c, t));
      Parts(Fill(c, t), c.dir);
    }
  }

  // ---- the iterator ----

  class RBIterator {
    const tree: RBTree
    var ancestors: seq<RingNode>
    var cursor: RingNode?
    ghost var ctx: Ctx
    ghost var sub: Tree

    constructor (tree: RBTree)
      ensures this.tree == tree && ancestors == [] && cursor == null
    {
      this.tree, ancestors, cursor := tree, [], null;
      ctx, sub := Top, Leaf;
    }

    /** The ancestors are exactly the path from the root to the cursor. */
    ghost predicate Valid()
      reads this, tree, Objs(tree.model)
    {
      && tree.Valid()
      && (cursor == null ==> ancestors == [])
      && (cursor != null ==>
            Plug(ctx, sub) == tree.model && sub.Node? && sub.at == cursor && ancestors == Path(ctx))
    }

    /** The position of the cursor in key order; a null cursor is at the end. */
    ghost function Index(): (i: nat)
      reads this, tree, Objs(tree.model)
      requires Valid()
      ensures i <= |tree.Contents()|
    {
      PlugInOrder(ctx, sub);
      if cursor == null then |tree.Contents()| else |Before(ctx)| + |InOrder(sub.left)|
    }

    function Key(): Option<Point>
      reads this, cursor
    {
      if cursor == null then None else Some(cursor.key)
    }

    function Value(): Option<string>
      reads this, cursor
    {
      if cursor == null then None else Some(cursor.value)
    }

    /** What the iterator shows is the entry at its position. */
    lemma AtIndex()
      requires Valid()
      ensures var s := tree.Contents();
              && Key() == (if Index() < |s| then Some(s[Index()].key) else None)
              && Value() == (if Index() < |s| then Some(s[Index()].value) else None)
              && Index() <= |s| && (cursor == null <==> Index() == |s|)
    {
      if cursor != null {
        PlugInOrder(ctx, sub);
        SubInHeap(ctx, sub);
        assert tree.Contents()[Index()] == Entry(sub.key, sub.value);
      }
    }

    /** `minNode`: down the left spine of the subtree at `start`. */
    method MinNode(start: RingNode, ghost c: Ctx, ghost t: Tree)
      requires tree.Valid() && Plug(c, t) == tree.model && t.Node? && t.at == start && ancestors == Path(c)
      modifies this
      ensures Valid() && cursor != null && Index() == |Before(c)|
    {
      var node := start;
      ctx, sub := c, t;
      while node.left != null
        invariant Plug(ctx, sub) == tree.model && sub.Node? && sub.at == node && ancestors == Path(ctx)
        invariant Before(ctx) == Before(c)
        invariant tree.Valid() && tree.model == old(tree.model)
        decreases sub
      {
        SubInHeap(ctx, sub);
        ancestors := ancestors + [node];
        node := node.left;
        ctx, sub := Down(ctx, sub, false), sub.left;
      }
      SubInHeap(ctx, sub);
      assert sub.left.Leaf?;
      cursor := node;
    }

    /** `next`: the following entry in key order, null after the last one, the first one after null. */
    method Next()
      requires Valid()
      modifies this
      ensures Valid()
      ensures Index() == if old(cursor) == null then 0 else old(Index()) + 1
    {
      if cursor == null {
        var root := tree.root;
        if root != null {
          MinNode(root, Top, tree.model);
        } else {
          assert tree.model.Leaf?;
        }
      } else {
        SubInHeap(ctx, sub);
        PlugInOrder(ctx, sub);
        if cursor.right == null {
          Climb();
        } else {
          ghost var i := Index();
          ancestors := ancestors + [cursor];
          MinNode(cursor.right, Down(ctx, sub, true), sub.right);
        }
      }
    }

    /** No greater node below: up the stack while coming from a right child. */
    method Climb()
      requires Valid() && cursor != null && sub.right.Leaf?
      modifies this
      ensures Valid() && Index() == old(Index()) + 1
    {
      ghost var end := |Before(ctx)| + |InOrder(sub)|;
      while true
        invariant Valid() && cursor != null && |Before(ctx)| + |InOrder(sub)| == end
        decreases |ancestors|
      {
        var save := cursor;
        ghost var c, t := ctx, sub;
        Climbed(c, t);
        if ancestors != [] {
          cursor := ancestors[|ancestors| - 1];
          ancestors := ancestors[..|ancestors| - 1];
          ctx, sub := c.up, Fill(c, t);
        } else {
          cursor := null;
          break;
        }
        if cursor.right != save {
          break;
        }
      }
    }
  }

  // ---- searches ----

  /** `i` is where the first entry at or after `key` stands. */
  ghost predicate IsLowerBound(s: seq<Entry>, key: Point, i: nat) {
    && i <= |s| && (forall k :: 0 <= k < i ==> Less(s[k].key, key))
    && (i < |s| ==> !Less(s[i].key, key))
  }

  lemma LowerBoundUnique(s: seq<Entry>, key: Point, i: nat, j: nat)
    requires IsLowerBound(s, key, i) && IsLowerBound(s, key, j)
    ensures i == j
  {
  }

  lemma LeadsToBound(c: Ctx, key: Point)
    requires Leads(c, key)
    ensures IsLowerBound(InOrder(Plug(c, Leaf)), key, |Before(c)|)
  {
    PlugInOrder(c, Leaf);
    var b, a := Before(c), After(c);
    var s := InOrder(Plug(c, Leaf));
    assert s == b + a;
    assert forall k :: 0 <= k < |b| ==> s[k] == b[k];
    if |b| < |s| {
      assert s[|b|] == a[0];
      CompareTotal(key, a[0].key);
    }
  }

  lemma HitIsBound(c: Ctx, t: Tree, key: Point)
    requires t.Node? && t.key == key && Sorted(InOrder(Plug(c, t)))
    ensures IsLowerBound(InOrder(Plug(c, t)), key, |Before(c)| + |InOrder(t.left)|)
  {
    var e := Entry(t.key, t.value);
    PlugInOrder(c, t);
    var l, r := Before(c) + InOrder(t.left), InOrder(t.right) + After(c);
    Regroup(Before(c), InOrder(t.left), e, InOrder(t.right), After(c));
    SortedParts(l, e, r);
    var s := InOrder(Plug(c, t));
    assert s[|l|] == e && forall k :: 0 <= k < |l| ==> s[k] == l[k];
    CompareTotal(key, key);
  }

  lemma SearchStep(c: Ctx, t: Tree, key: Point)
    requires t.Node? && InHeap(Plug(c, t)) && Apart(Plug(c, t)) && Sorted(InOrder(Plug(c, t))) && Leads(c, key)
    ensures t.at.key == t.key && forall d :: t.at.GetChild(d) == AtOf(Child(t, d))
    ensures var cmp := Compare(key, t.key);
            && (cmp == 0 <==> t.key == key)
            && (cmp != 0 ==> Leads(Down(c, t, cmp > 0), key))
            && Plug(Down(c, t, cmp > 0), Child(t, cmp > 0)) == Plug(c, t)
  {
    SubInHeap(c, t);
    CompareTotal(key, t.key);
    CompareTotal(t.key, key);
    if t.key != key {
      DownLeads(c, t, key);
    }
  }

  /** `lowerBound`: the entry at or immediately after `key`; `visited` counts the nodes compared on the way down. */
  method LowerBound(tree: RBTree, key: Point) returns (iter: RBIterator, ghost visited: nat)
    requires tree.Valid()
    ensures fresh(iter) && iter.tree == tree && iter.Valid()
    ensures IsLowerBound(tree.Contents(), key, iter.Index())
    ensures Pow2(visited) <= (tree.size + 1) * (tree.size + 1)
  {
    assert allocated(Objs(tree.model));
    iter := new RBIterator(tree);
    visited := Descend(iter, key);
  }

  /** A hit: the cursor stops at the node that holds the key. */
  method Land(iter: RBIterator, cur: RingNode, key: Point, ghost c: Ctx, ghost t: Tree)
    requires iter.tree.Valid() && iter.ancestors == Path(c) && Plug(c, t) == iter.tree.model
    requires t.Node? && cur == t.at && t.key == key
    modifies iter
    ensures iter.Valid() && IsLowerBound(iter.tree.Contents(), key, iter.Index())
  {
    HitIsBound(c, t, key);
    iter.cursor := cur;
    iter.ctx, iter.sub := c, t;
  }

  /** The descent of `lowerBound`, remembering the ancestors. */
  method Descend(iter: RBIterator, key: Point) returns (ghost visited: nat)
    requires iter.tree.Valid() && iter.cursor == null && iter.ancestors == []
    modifies iter
    ensures iter.Valid() && IsLowerBound(iter.tree.Contents(), key, iter.Index())
    ensures Pow2(visited) <= (iter.tree.size + 1) * (iter.tree.size + 1)
  {
    var cur := iter.tree.root;
    visited := 0;
    ghost var c, t := Top, iter.tree.model;
    while cur != null
      invariant iter.tree.Valid() && iter.cursor == null && iter.ancestors == Path(c)
      invariant Plug(c, t) == iter.tree.model && cur == AtOf(t)
      invariant Leads(c, key) && visited == Depth(c)
      decreases t
    {
      SearchStep(c, t, key);
      visited := visited + 1;
      var cmp := Compare(key, cur.key);
      if cmp == 0 {
        DepthBound(c, t, visited);
        Land(iter, cur, key, c, t);
        return;
      }
      iter.ancestors := iter.ancestors + [cur];
      cur := cur.GetChild(cmp > 0);
      c, t := Down(c, t, cmp > 0), Child(t, cmp > 0);
    }
    DepthBound(c, t, visited);
    LeadsToBound(c, key);
    ClimbToBound(iter, key, c);
  }

  lemma StepUp(d: Ctx, st: Tree, key: Point)
    requires d.Frame? && InHeap(Plug(d, st)) && Apart(Plug(d, st)) && Leads(d, key)
    ensures d.at.key == d.key && Leads(d.up, key)
    ensures if d.dir then Compare(key, d.key) > 0 else Compare(key, d.key) < 0
    ensures Plug(d.up, Fill(d, st)) == Plug(d, st) && Path(d) == Path(d.up) + [d.at]
    ensures if d.dir then |Before(d.up)| + |InOrder(Fill(d, st))| == |Before(d)| + |InOrder(st)|
            else |Before(d.up)| + |InOrder(Fill(d, st).left)| == |Before(d)| + |InOrder(st)|
  {
    SubInHeap(d, st);
    LeadsUp(d, key);
  }

  /** From the empty place where the search ended, back to the last ancestor above `key`. */
  method ClimbToBound(iter: RBIterator, key: Point, ghost c: Ctx)
    requires iter.tree.Valid() && iter.cursor == null && iter.ancestors == Path(c)
    requires Plug(c, Leaf) == iter.tree.model && Leads(c, key)
    modifies iter
    ensures iter.Valid() && iter.Index() == |Before(c)|
  {
    PathLength(c);
    PlugInOrder(c, Leaf);
    ghost var d, st := c, Leaf;
    var i := |iter.ancestors| - 1;
    while i >= 0
      invariant iter.tree.Valid() && iter.tree.model == Plug(c, Leaf)
      invariant iter.cursor == null && iter.ancestors == Path(c)
      invariant -1 <= i && |Path(d)| == i + 1 && Path(d) <= Path(c)
      invariant Plug(d, st) == iter.tree.model && Leads(d, key)
      invariant |Before(d)| + |InOrder(st)| == |Before(c)|
    {
      var cur := iter.ancestors[i];
      assert cur == d.at;
      StepUp(d, st, key);
      if Compare(key, cur.key) < 0 {
        iter.cursor := cur;
        iter.ancestors := iter.ancestors[..i];
        iter.ctx, iter.sub := d.up, Fill(d, st);
        return;
      }
      d, st := d.up, Fill(d, st);
      i := i - 1;
    }
    PathLength(d);
    iter.ancestors := [];
  }

  /** The first entry at or after a key lies strictly after it exactly if the key is absent. */
  lemma AfterIff(s: seq<Entry>, key: Point, i: nat)
    requires Sorted(s) && IsLowerBound(s, key, i)
    ensures (i < |s| ==> Less(key, s[i].key)) <==> !HasKey(s, key)
  {
    if i < |s| {
      CompareTotal(s[i].key, key);
      forall k | i < k < |s| ensures s[k].key != key {
        CompareTotal(s[i].key, s[k].key);
      }
    }
    forall k | 0 <= k < i ensures s[k].key != key {
      CompareTotal(s[k].key, key);
    }
  }

  /** On a present key the comment on `upperBound`, "immediately after", does not hold: it returns that key. */
  lemma BoundOfPresentKey(e: Entry, i: nat)
    requires IsLowerBound([e], e.key, i)
    ensures i == 0 && [e][i].key == e.key && !Less(e.key, [e][i].key)
  {
    CompareTotal(e.key, e.key);
    var s := [e];
    assert s[0] == e;
  }

  /** `upperBound`: its loop moves on only while the cursor is below `key`. That guard is already false
      when `lowerBound` has returned, so the loop never runs and this, too, is the entry at or after `key`:
      the one after it exactly if `key` is absent. */
  method UpperBound(tree: RBTree, key: Point) returns (iter: RBIterator)
    requires tree.Valid()
    ensures fresh(iter) && iter.tree == tree && iter.Valid()
    ensures IsLowerBound(tree.Contents(), key, iter.Index())
    ensures (iter.Key().None? || Less(key, iter.Key().value)) <==> !HasKey(tree.Contents(), key)
  {
    ghost var visited;
    iter, visited := LowerBound(tree, key);
    iter.AtIndex();
    assert !(iter.Key().Some? && Compare(iter.Key().value, key) < 0);
    AfterIff(tree.Contents(), key, iter.Index());
  }

  /** `min`: the leftmost record, or null for the empty tree. */
  method Min(tree: RBTree) returns (res: RingNode?)
    requires tree.Valid()
    ensures if tree.Contents() == [] then res == null
            else res != null && tree.Contents()[0] == Entry(res.key, res.value)
  {
    res := tree.root;
    if res == null {
      assert tree.model.Leaf?;
      return;
    }
    ghost var c, t := Top, tree.model;
    while res.left != null
      invariant res != null && t.Node? && res == t.at && Plug(c, t) == tree.model && Before(c) == []
      invariant InHeap(t)
      decreases t
    {
      res := res.left;
      c, t := Down(c, t, false), t.left;
    }
    SubInHeap(c, t);
    PlugInOrder(c, t);
    assert t.left.Leaf?;
  }
}
