/** One iteration of the removal loop (lib/ring/rbtree.js:166-221) on zippers: pushing a red node
    down the search path, and what is left to splice out at the bottom. */
module RBRemoveModel {
  import opened Points
  import opened RingNodes
  import opened RBModel
  import opened RBContents

  predicate SoundShape(c: Ctx, t: Tree) {
    && Balanced(t) && CtxBalanced(c, BH(t)) && NoRedRed(t) && CtxNoRedRed(c) && !(TopRed(c) && Red(t))
  }

  /** The red node has been pushed down to the node above the hole or to the hole itself; at the root
      its colour may be taken for red. */
  predicate Pushed(c: Ctx, t: Tree) {
    c.Top? || TopRed(c) || Red(t) || (c.up.Top? && !SiblingRed(c))
  }

  /** No rebalancing is needed, or none is possible at the root. */
  predicate Passes(c: Ctx, t: Tree, dir: bool)
    requires t.Node?
  {
    Red(t) || Red(Child(t, dir)) || (!Red(Child(t, !dir)) && (c.Top? || c.other.Leaf?))
  }

  predicate RotatesDown(t: Tree, dir: bool)
    requires t.Node?
  {
    !Red(t) && !Red(Child(t, dir)) && Red(Child(t, !dir))
  }

  predicate FlipsWithSibling(c: Ctx)
  {
    c.Frame? && c.other.Node? && !Red(c.other.left) && !Red(c.other.right)
  }

  function FlippedCtx(c: Ctx): Ctx
    requires c.Frame? && c.other.Node?
  {
    c.(red := false, other := c.other.(red := true))
  }

  function Reddened(t: Tree): Tree
    requires t.Node?
  {
    t.(red := true)
  }

  /** The rotation of the parent towards the node when the sibling has a red child. */
  function SiblingTurned(c: Ctx, t: Tree): Tree
    requires c.Frame? && c.other.Node? && (Red(Child(c.other, c.dir)) || Red(Child(c.other, !c.dir)))
  {
    if Red(Child(c.other, c.dir)) then DoubleRotated(Fill(c, t), c.dir) else Rotated(Fill(c, t), c.dir)
  }

  /** The recolouring that follows: top red, its children black. */
  function Capped(r: Tree): Tree
    requires r.Node? && r.left.Node? && r.right.Node?
  {
    Node(r.left.(red := false), r.at, r.key, r.value, true, r.right.(red := false))
  }

  predicate Borrows(c: Ctx) {
    c.Frame? && c.other.Node? && (Red(c.other.left) || Red(c.other.right))
  }

  function Borrowed(c: Ctx, t: Tree): Tree
    requires Borrows(c) && t.Node?
  {
    Capped(SiblingTurned(c, t))
  }

  /** Where the node stands after the rebalancing of one iteration. */
  function PushDown(c: Ctx, t: Tree, dir: bool): (Ctx, Tree)
    requires t.Node?
  {
    if Passes(c, t, dir) then (c, t)
    else if RotatesDown(t, dir) then
      var r := Rotated(t, dir);
      (Down(c, r, dir), Child(r, dir))
    else if FlipsWithSibling(c) then (FlippedCtx(c), Reddened(t))
    else
      var r := Borrowed(c, t);
      (Down(Down(c.up, r, c.dir), Child(r, c.dir), c.dir), Reddened(t))
  }

  // ---- shape ----

  lemma PushDownShape(c: Ctx, t: Tree, dir: bool)
    requires t.Node? && SoundShape(c, t) && Pushed(c, t)
    ensures var (c1, t1) := PushDown(c, t, dir);
            && t1.Node? && t1.at == t.at && t1.key == t.key && t1.value == t.value
            && Child(t1, dir) == Child(t, dir)
            && SoundShape(Down(c1, t1, dir), Child(t1, dir)) && Pushed(Down(c1, t1, dir), Child(t1, dir))
  {
    assert Balanced(t.left) && Balanced(t.right) && NoRedRed(t.left) && NoRedRed(t.right);
    if Passes(c, t, dir) {
    } else if RotatesDown(t, dir) {
    } else if FlipsWithSibling(c) {
      FlipShape(c, t, dir);
    } else {
      BorrowShape(c, t, dir);
    }
  }

  lemma FlipShape(c: Ctx, t: Tree, dir: bool)
    requires t.Node? && SoundShape(c, t) && Pushed(c, t)
    requires !Red(t) && !Red(t.left) && !Red(t.right) && FlipsWithSibling(c)
    ensures var c1, t1 := FlippedCtx(c), Reddened(t);
            && SoundShape(Down(c1, t1, dir), Child(t1, dir)) && Pushed(Down(c1, t1, dir), Child(t1, dir))
  {
    assert Balanced(c.other.left) && Balanced(c.other.right) && NoRedRed(c.other.left) && NoRedRed(c.other.right);
    assert BH(c.other) == BH(t) && BH(FlippedCtx(c).other) == BH(Reddened(t));
    assert Balanced(FlippedCtx(c).other) && NoRedRed(FlippedCtx(c).other);
    assert CtxNoRedRed(c.up);
    assert CtxNoRedRed(FlippedCtx(c)) && CtxBalanced(FlippedCtx(c), BH(Reddened(t)));
  }

  lemma BorrowShape(c: Ctx, t: Tree, dir: bool)
    requires t.Node? && SoundShape(c, t) && Pushed(c, t)
    requires !Red(t) && !Red(t.left) && !Red(t.right) && Borrows(c)
    ensures var r := Borrowed(c, t);
            var c1, t1 := Down(Down(c.up, r, c.dir), Child(r, c.dir), c.dir), Reddened(t);
            && SoundShape(Down(c1, t1, dir), Child(t1, dir)) && Pushed(Down(c1, t1, dir), Child(t1, dir))
            && Child(Child(r, c.dir), c.dir) == t
  {
    assert Balanced(c.other.left) && Balanced(c.other.right) && NoRedRed(c.other.left) && NoRedRed(c.other.right);
    assert CtxNoRedRed(c.up);
    var r := Borrowed(c, t);
    var i := Child(c.other, c.dir);
    assert Red(i) ==> Balanced(i.left) && Balanced(i.right) && NoRedRed(i.left) && NoRedRed(i.right);
    var below := Child(r, !c.dir);
    var p1 := Child(r, c.dir);
    assert Balanced(below) && NoRedRed(below) && BH(below) == BH(t);
    assert Balanced(Child(p1, !c.dir)) && NoRedRed(Child(p1, !c.dir)) && BH(Child(p1, !c.dir)) == BH(Reddened(t));
    assert CtxBalanced(c.up, BH(t));
    var c1 := Down(Down(c.up, r, c.dir), p1, c.dir);
    assert CtxNoRedRed(Down(c.up, r, c.dir)) && CtxBalanced(Down(c.up, r, c.dir), BH(t));
    assert CtxNoRedRed(c1) && CtxBalanced(c1, BH(Reddened(t)));
  }

  // ---- contents and the search path ----

  /** Rebalancing leaves the entries to the left and to the right of the next hole as they were. */
  lemma PushDownSplit(c: Ctx, t: Tree, dir: bool)
    requires t.Node?
    ensures var (c1, t1) := PushDown(c, t, dir);
            t1.Node? &&
            Before(Down(c1, t1, dir)) == Before(Down(c, t, dir)) && After(Down(c1, t1, dir)) == After(Down(c, t, dir))
  {
    if Passes(c, t, dir) {
    } else if RotatesDown(t, dir) {
      RotateDownSplit(c, t, dir);
    } else if FlipsWithSibling(c) {
      assert InOrder(c.other.(red := true)) == InOrder(c.other);
    } else {
      BorrowSplit(c, t, dir);
    }
  }

  lemma RotateDownSplit(c: Ctx, t: Tree, dir: bool)
    requires t.Node? && Child(t, !dir).Node?
    ensures var r := Rotated(t, dir);
            var c3 := Down(Down(c, r, dir), Child(r, dir), dir);
            Before(c3) == Before(Down(c, t, dir)) && After(c3) == After(Down(c, t, dir))
  {
    var s := Child(t, !dir);
    var e, f := Entry(t.key, t.value), Entry(s.key, s.value);
    var c2 := Down(c, Rotated(t, dir), dir);
    if dir {
      assert Before(c2) == Before(c) + InOrder(s.left) + [f];
      SameRun(Before(c), InOrder(s.left), f, InOrder(s.right), e);
    } else {
      assert After(c2) == [f] + InOrder(s.right) + After(c);
      SameRunBack(e, InOrder(s.left), f, InOrder(s.right), After(c));
    }
  }

  lemma BorrowSplit(c: Ctx, t: Tree, dir: bool)
    requires t.Node? && Borrows(c)
    ensures var r := Borrowed(c, t);
            var c1 := Down(Down(c.up, r, c.dir), Child(r, c.dir), c.dir);
            Before(c1) == Before(c) && After(c1) == After(c)
  {
    if Red(Child(c.other, c.dir)) {
      BorrowSplitInner(c, t);
    } else {
      BorrowSplitOuter(c, t);
    }
  }

  lemma BorrowSplitOuter(c: Ctx, t: Tree)
    requires t.Node? && Borrows(c) && !Red(Child(c.other, c.dir))
    ensures var r := Borrowed(c, t);
            var c1 := Down(Down(c.up, r, c.dir), Child(r, c.dir), c.dir);
            Before(c1) == Before(c) && After(c1) == After(c)
  {
    var r := Borrowed(c, t);
    var c0 := Down(c.up, r, c.dir);
    var sib, p := c.other, Entry(c.key, c.value);
    var e := Entry(sib.key, sib.value);
    var b, a := Before(c.up), After(c.up);
    if c.dir {
      assert Before(c0) == b + InOrder(sib.left) + [e];
      SameRun(b, InOrder(sib.left), e, InOrder(sib.right), p);
    } else {
      assert After(c0) == [e] + InOrder(sib.right) + a;
      SameRunBack(p, InOrder(sib.left), e, InOrder(sib.right), a);
    }
  }

  lemma BorrowSplitInner(c: Ctx, t: Tree)
    requires t.Node? && Borrows(c) && Red(Child(c.other, c.dir))
    ensures var r := Borrowed(c, t);
            var c1 := Down(Down(c.up, r, c.dir), Child(r, c.dir), c.dir);
            Before(c1) == Before(c) && After(c1) == After(c)
  {
    var r := Borrowed(c, t);
    var c0 := Down(c.up, r, c.dir);
    var sib, p := c.other, Entry(c.key, c.value);
    var e := Entry(sib.key, sib.value);
    var i := Child(sib, c.dir);
    var f := Entry(i.key, i.value);
    var b, a := Before(c.up), After(c.up);
    if c.dir {
      assert InOrder(Child(r, false)) == InOrder(sib.left) + [e] + InOrder(i.left);
      assert Before(c0) == b + (InOrder(sib.left) + [e] + InOrder(i.left)) + [f];
      assert InOrder(sib.right) == InOrder(i.left) + [f] + InOrder(i.right);
      RegroupDeep(b, InOrder(sib.left), e, InOrder(i.left), f, InOrder(i.right), p);
    } else {
      assert InOrder(Child(r, true)) == InOrder(i.right) + [e] + InOrder(sib.right);
      assert After(c0) == [f] + (InOrder(i.right) + [e] + InOrder(sib.right)) + a;
      assert InOrder(sib.left) == InOrder(i.left) + [f] + InOrder(i.right);
      RegroupDeepBack(p, InOrder(i.left), f, InOrder(i.right), e, InOrder(sib.right), a);
    }
  }

  lemma RegroupDeep(b: seq<Entry>, x: seq<Entry>, e: Entry, y: seq<Entry>, f: Entry, z: seq<Entry>, p: Entry)
    ensures (b + (x + [e] + y) + [f]) + z + [p] == b + (x + [e] + (y + [f] + z)) + [p]
  {
  }

  lemma RegroupDeepBack(p: Entry, x: seq<Entry>, f: Entry, y: seq<Entry>, e: Entry, z: seq<Entry>, a: seq<Entry>)
    ensures [p] + x + ([f] + (y + [e] + z) + a) == [p] + ((x + [f] + y) + [e] + z) + a
  {
  }

  /** The record just after the hole in key order. */
  function Succ(c: Ctx): RingNode? {
    if c.Top? then null else if c.dir then Succ(c.up) else c.at
  }

  lemma PushDownSucc(c: Ctx, t: Tree, dir: bool)
    requires t.Node?
    ensures var (c1, t1) := PushDown(c, t, dir);
            t1.Node? && (t1.at == t.at ==> Succ(Down(c1, t1, dir)) == if dir then Succ(c) else t.at)
  {
    if !Passes(c, t, dir) && !RotatesDown(t, dir) && !FlipsWithSibling(c) {
      var r := Borrowed(c, t);
      assert Child(r, c.dir).at == c.at;
      assert Succ(Down(c.up, r, true)) == Succ(c.up);
      assert Succ(Down(Down(c.up, r, c.dir), Child(r, c.dir), c.dir)) == Succ(c);
    }
  }

  /** What the loop knows about the key it removes. */
  ghost predicate Tracks(c: Ctx, key: Point, found: RingNode?) {
    if found == null then Leads(c, key)
    else Succ(c) == found && After(c) != [] && After(c)[0].key == key
  }

  lemma TracksOn(c: Ctx, t: Tree, key: Point, found: RingNode?, s: seq<Entry>)
    requires t.Node? && SoundShape(c, t) && Pushed(c, t) && Sorted(s) && InOrder(Plug(c, t)) == s
    requires Tracks(c, key, found)
    ensures var dir := Less(t.key, key);
            var (c1, t1) := PushDown(c, t, dir);
            && t1.Node?
            && (t.key == key ==> !dir)
            && InOrder(Plug(Down(c1, t1, dir), Child(t1, dir))) == s
            && Tracks(Down(c1, t1, dir), key, if t.key == key then t.at else found)
  {
    var dir := Less(t.key, key);
    var (c1, t1) := PushDown(c, t, dir);
    PushDownShape(c, t, dir);
    PushDownSplit(c, t, dir);
    PushDownSucc(c, t, dir);
    CompareTotal(t.key, key);
    PlugInOrder(Down(c1, t1, dir), Child(t1, dir));
    PlugInOrder(Down(c, t, dir), Child(t, dir));
    if found != null {
      PlugInOrder(c, t);
      assert s[|Before(c)| + |InOrder(t.left)|] == Entry(t.key, t.value);
      assert s[|Before(c)| + |InOrder(t)|] == After(c)[0];
    } else if t.key != key {
      DownLeads(c, t, key);
    }
  }

  // ---- the bottom ----

  /** Overwriting the payload of the record just after the hole. */
  function SetSucc(c: Ctx, key: Point, value: string): Ctx {
    if c.Top? then c
    else if c.dir then c.(up := SetSucc(c.up, key, value))
    else c.(key := key, value := value)
  }

  lemma {:induction false} SetSuccKeeps(c: Ctx, key: Point, value: string, h: nat)
    ensures var d := SetSucc(c, key, value);
            && (CtxBalanced(d, h) <==> CtxBalanced(c, h)) && (CtxNoRedRed(d) <==> CtxNoRedRed(c))
            && TopRed(d) == TopRed(c) && CtxObjs(d) == CtxObjs(c) && (CtxApart(d) <==> CtxApart(c))
            && Holder2(d) == Holder2(c) && Before(d) == Before(c)
    ensures Succ(c) != null ==>
              After(c) != [] && After(SetSucc(c, key, value)) == [Entry(key, value)] + After(c)[1..]
  {
    if c.Frame? && c.dir {
      SetSuccKeeps(c.up, key, value, h + if c.red then 0 else 1);
    }
  }

  function Holder2(c: Ctx): (RingNode?, bool) {
    if c.Top? then (null, true) else (c.at, c.dir)
  }

  /** At the bottom the node above the hole has no other child either. */
  lemma BottomIsLeaf(c: Ctx)
    requires c.Frame? && SoundShape(c, Leaf) && Pushed(c, Leaf)
    ensures c.other.Leaf? && SoundShape(c.up, Leaf)
    ensures CtxBalanced(c.up, 0)
  {
  }

  /** The context of the spliced tree's empty hole. */
  function Spliced(c: Ctx): Ctx
    requires c.Frame?
  {
    if c.dir then SetSucc(c.up, c.key, c.value) else c.up
  }

  lemma SplicedShape(c: Ctx)
    requires c.Frame? && SoundShape(c, Leaf) && Pushed(c, Leaf)
    ensures SoundShape(Spliced(c), Leaf)
  {
    BottomIsLeaf(c);
    SetSuccKeeps(c.up, c.key, c.value, 0);
  }

  lemma SplicedSides(c: Ctx)
    requires c.Frame? && c.other.Leaf? && Succ(c) != null
    ensures After(c) != [] && InOrder(Plug(Spliced(c), Leaf)) == Before(c) + After(c)[1..]
  {
    PlugInOrder(Spliced(c), Leaf);
    var e := Entry(c.key, c.value);
    if c.dir {
      SetSuccKeeps(c.up, c.key, c.value, 0);
      assert Before(c) == Before(c.up) + [] + [e];
      assert After(c) == After(c.up);
      MovePivot(Before(c.up), e, After(c.up)[1..]);
    } else {
      assert After(c) == [e] + [] + After(c.up);
      assert After(c)[1..] == After(c.up);
      MovePivot(Before(c.up), e, After(c.up));
    }
  }

  lemma MovePivot(b: seq<Entry>, e: Entry, a: seq<Entry>)
    ensures b + [] + ([e] + a) == (b + [] + [e]) + a
    ensures b + [] + a == b + a
  {
  }

  lemma SplicedContents(c: Ctx, key: Point, found: RingNode, s: seq<Entry>)
    requires c.Frame? && SoundShape(c, Leaf) && Pushed(c, Leaf)
    requires s == InOrder(Plug(c, Leaf)) && Sorted(s) && Tracks(c, key, found)
    ensures InOrder(Plug(Spliced(c), Leaf)) == Without(s, key) && HasKey(s, key)
    ensures |Without(s, key)| == |s| - 1 && Sorted(Without(s, key))
  {
    BottomIsLeaf(c);
    PlugInOrder(c, Leaf);
    SplicedSides(c);
    DropOne(s, Before(c), After(c));
  }

  lemma DropOne(s: seq<Entry>, b: seq<Entry>, a: seq<Entry>)
    requires a != [] && s == b + [] + a && Sorted(s)
    ensures Without(s, a[0].key) == b + a[1..] && HasKey(s, a[0].key) && Sorted(b + a[1..])
    ensures |Without(s, a[0].key)| == |s| - 1
  {
    assert s == b + [a[0]] + a[1..];
    SortedParts(b, a[0], a[1..]);
    WithoutBetween(b, a[0], a[1..]);
    WithoutSorted(b, a[0], a[1..]);
  }

  lemma AbsentContents(c: Ctx, key: Point, s: seq<Entry>)
    requires s == InOrder(Plug(c, Leaf)) && Leads(c, key)
    ensures Without(s, key) == s && !HasKey(s, key)
  {
    PlugInOrder(c, Leaf);
    var b, a := Before(c), After(c);
    forall i | 0 <= i < |s| ensures s[i].key != key {
      if i < |b| {
        CompareTotal(b[i].key, key);
      } else {
        CompareTotal(a[i - |b|].key, key);
      }
    }
    WithoutAbsent(s, key);
  }

  twostate lemma {:induction false} SetSuccInHeap(h: Hung)
    requires Succ(h.c) != null && CtxApart(h.c) && h.head !in CtxObjs(h.c)
    requires old(allocated(CtxObjs(h.c)))
    requires old(CtxInHeap(h.head, h.c, h.n))
    requires unchanged(CtxObjs(h.c) - {Succ(h.c)}) && unchanged(h.head)
    requires var f: RingNode := Succ(h.c); unchanged(f`left) && unchanged(f`right) && unchanged(f`red)
    ensures var f: RingNode := Succ(h.c); CtxInHeap(h.head, SetSucc(h.c, f.key, f.value), h.n)
    decreases h.c
  {
    var c := h.c;
    if c.dir {
      assert old(CtxInHeap(h.head, c.up, c.at));
      SuccInCtx(c.up);
      Kept(c.other);
      SetSuccInHeap(Hung(h.head, c.up, c.at));
    } else {
      Kept(c.other);
      KeptCtx(Hung(h.head, c.up, c.at));
    }
  }

  lemma SuccInCtx(c: Ctx)
    ensures Succ(c) != null ==> Succ(c) in CtxObjs(c)
  {
  }
}
