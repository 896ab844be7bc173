/** The node record of the ring's red-black tree (lib/ring/rbtree.js:24-42). */
module RingNodes {
  import opened Points

  class RingNode {
    var key: Point
    var value: string
    var left: RingNode?
    var right: RingNode?
    var red: bool

    constructor (key: Point, value: string)
      ensures this.key == key && this.value == value
      ensures left == null && right == null && red
    {
      this.key, this.value := key, value;
      left, right, red := null, null, true;
    }

    function GetChild(dir: bool): RingNode?
      reads this
    {
      if dir then right else left
    }

    method SetChild(dir: bool, child: RingNode?)
      modifies this
      ensures GetChild(dir) == child && GetChild(!dir) == old(GetChild(!dir))
      ensures key == old(key) && value == old(value) && red == old(red)
    {
      if dir {
        right := child;
      } else {
        left := child;
      }
    }
  }
}

/** Mathematical trees whose nodes remember the heap record they describe, and zippers
    into them. The tree operations are proved against these. */
module RBModel {
  import opened Points
  import opened RingNodes

  datatype Entry = Entry(key: Point, value: string)

  datatype Tree = Leaf | Node(left: Tree, at: RingNode, key: Point, value: string, red: bool, right: Tree)

  /** A path from the root down to a hole; `dir` is true when the hole is on the right. */
  datatype Ctx = Top | Frame(up: Ctx, dir: bool, at: RingNode, key: Point, value: string, red: bool, other: Tree)

  predicate Red(t: Tree) {
    t.Node? && t.red
  }

  function Child(t: Tree, dir: bool): Tree
    requires t.Node?
  {
    if dir then t.right else t.left
  }

  function Mk(dir: bool, hole: Tree, at: RingNode, key: Point, value: string, red: bool, other: Tree): Tree {
    if dir then Node(other, at, key, value, red, hole) else Node(hole, at, key, value, red, other)
  }

  function Fill(c: Ctx, t: Tree): Tree
    requires c.Frame?
  {
    Mk(c.dir, t, c.at, c.key, c.value, c.red, c.other)
  }

  function Plug(c: Ctx, t: Tree): Tree {
    if c.Top? then t else Plug(c.up, Fill(c, t))
  }

  function Down(c: Ctx, t: Tree, dir: bool): Ctx
    requires t.Node?
  {
    Frame(c, dir, t.at, t.key, t.value, t.red, Child(t, !dir))
  }

  function Depth(c: Ctx): nat {
    if c.Top? then 0 else 1 + Depth(c.up)
  }

  // ---- contents ----

  function InOrder(t: Tree): seq<Entry> {
    if t.Leaf? then [] else InOrder(t.left) + [Entry(t.key, t.value)] + InOrder(t.right)
  }

  function Before(c: Ctx): seq<Entry> {
    if c.Top? then []
    else if c.dir then Before(c.up) + InOrder(c.other) + [Entry(c.key, c.value)]
    else Before(c.up)
  }

  function After(c: Ctx): seq<Entry> {
    if c.Top? then []
    else if c.dir then After(c.up)
    else [Entry(c.key, c.value)] + InOrder(c.other) + After(c.up)
  }

  ghost predicate Sorted(s: seq<Entry>) {
    forall i, j :: 0 <= i < j < |s| ==> Less(s[i].key, s[j].key)
  }

  ghost predicate AllBelow(s: seq<Entry>, key: Point) {
    forall i :: 0 <= i < |s| ==> Less(s[i].key, key)
  }

  ghost predicate AllAbove(s: seq<Entry>, key: Point) {
    forall i :: 0 <= i < |s| ==> Less(key, s[i].key)
  }

  /** The hole of `c` is where a search for `key` continues. */
  ghost predicate Leads(c: Ctx, key: Point) {
    AllBelow(Before(c), key) && AllAbove(After(c), key)
  }

  lemma Regroup(b: seq<Entry>, x: seq<Entry>, e: Entry, y: seq<Entry>, a: seq<Entry>)
    ensures b + (x + [e] + y) + a == (b + x + [e]) + y + a
    ensures b + (x + [e] + y) + a == b + x + ([e] + y + a)
    ensures b + (x + [e] + y) + a == (b + x) + [e] + (y + a)
  {
  }

  lemma SameRun(b: seq<Entry>, x: seq<Entry>, f: Entry, y: seq<Entry>, e: Entry)
    ensures (b + x + [f]) + y + [e] == b + (x + [f] + y) + [e]
  {
  }

  lemma SameRunBack(e: Entry, x: seq<Entry>, f: Entry, y: seq<Entry>, a: seq<Entry>)
    ensures [e] + x + ([f] + y + a) == [e] + (x + [f] + y) + a
  {
  }

  lemma {:induction false} PlugInOrder(c: Ctx, t: Tree)
    ensures InOrder(Plug(c, t)) == Before(c) + InOrder(t) + After(c)
  {
    if c.Top? {
    } else {
      PlugInOrder(c.up, Fill(c, t));
      var b, a, e := Before(c.up), After(c.up), Entry(c.key, c.value);
      if c.dir {
        Regroup(b, InOrder(c.other), e, InOrder(t), a);
      } else {
        Regroup(b, InOrder(t), e, InOrder(c.other), a);
      }
    }
  }

  lemma SortedParts(b: seq<Entry>, e: Entry, a: seq<Entry>)
    requires Sorted(b + [e] + a)
    ensures Sorted(b) && Sorted(a) && AllBelow(b, e.key) && AllAbove(a, e.key)
  {
    var s := b + [e] + a;
    forall i, j | 0 <= i < j < |b| ensures Less(b[i].key, b[j].key) {
      assert b[i] == s[i] && b[j] == s[j];
    }
    forall i, j | 0 <= i < j < |a| ensures Less(a[i].key, a[j].key) {
      assert a[i] == s[|b| + 1 + i] && a[j] == s[|b| + 1 + j];
    }
    assert s[|b|] == e;
    forall i | 0 <= i < |b| ensures Less(b[i].key, e.key) {
      assert b[i] == s[i];
    }
    forall i | 0 <= i < |a| ensures Less(e.key, a[i].key) {
      assert a[i] == s[|b| + 1 + i];
    }
  }

  lemma AllBelowTrans(s: seq<Entry>, k: Point, key: Point)
    requires AllBelow(s, k) && Less(k, key)
    ensures AllBelow(s, key)
  {
    forall i | 0 <= i < |s| ensures Less(s[i].key, key) {
      LessTrans(s[i].key, k, key);
    }
  }

  lemma AllAboveTrans(s: seq<Entry>, k: Point, key: Point)
    requires AllAbove(s, k) && Less(key, k)
    ensures AllAbove(s, key)
  {
    forall i | 0 <= i < |s| ensures Less(key, s[i].key) {
      LessTrans(key, k, s[i].key);
    }
  }

  /** Following the comparator one level down keeps the hole on the search path. */
  lemma DownLeads(c: Ctx, t: Tree, key: Point)
    requires t.Node? && Leads(c, key) && Sorted(InOrder(Plug(c, t))) && t.key != key
    ensures Leads(Down(c, t, Less(t.key, key)), key)
  {
    var e := Entry(t.key, t.value);
    PlugInOrder(c, t);
    CompareTotal(t.key, key);
    var l, r := Before(c) + InOrder(t.left), InOrder(t.right) + After(c);
    Regroup(Before(c), InOrder(t.left), e, InOrder(t.right), After(c));
    SortedParts(l, e, r);
    if Less(t.key, key) {
      AllBelowTrans(l, t.key, key);
      assert Before(Down(c, t, true)) == l + [e];
    } else {
      AllAboveTrans(r, t.key, key);
      assert After(Down(c, t, false)) == [e] + r;
    }
  }

  // ---- red-black shape ----

  /** Black height along the left spine. */
  function BH(t: Tree): nat {
    if t.Leaf? then 0 else BH(t.left) + (if t.red then 0 else 1)
  }

  predicate Balanced(t: Tree) {
    t.Leaf? || (Balanced(t.left) && Balanced(t.right) && BH(t.left) == BH(t.right))
  }

  predicate NoRedRed(t: Tree) {
    t.Leaf? || ((t.red ==> !Red(t.left) && !Red(t.right)) && NoRedRed(t.left) && NoRedRed(t.right))
  }

  predicate RedBlack(t: Tree) {
    !Red(t) && Balanced(t) && NoRedRed(t)
  }

  predicate TopRed(c: Ctx) {
    c.Frame? && c.red
  }

  predicate SiblingRed(c: Ctx) {
    c.Frame? && Red(c.other)
  }

  /** Plugging a balanced tree of black height `h` into `c` gives a balanced tree. */
  predicate CtxBalanced(c: Ctx, h: nat) {
    c.Top? || (Balanced(c.other) && BH(c.other) == h && CtxBalanced(c.up, h + if c.red then 0 else 1))
  }

  predicate CtxNoRedRed(c: Ctx) {
    c.Top? || ((c.red ==> !Red(c.other) && !TopRed(c.up)) && NoRedRed(c.other) && CtxNoRedRed(c.up))
  }

  lemma {:induction false} PlugBalanced(c: Ctx, t: Tree)
    ensures Balanced(Plug(c, t)) <==> Balanced(t) && CtxBalanced(c, BH(t))
  {
    if c.Top? {
    } else {
      PlugBalanced(c.up, Fill(c, t));
    }
  }

  lemma {:induction false} PlugNoRedRed(c: Ctx, t: Tree)
    ensures NoRedRed(Plug(c, t)) <==> NoRedRed(t) && CtxNoRedRed(c) && !(TopRed(c) && Red(t))
  {
    if c.Top? {
    } else {
      PlugNoRedRed(c.up, Fill(c, t));
    }
  }

  // ---- rotations (lib/ring/rbtree.js:54-69) ----

  /** `singleRotate`: the child opposite `dir` comes up, black, and the old root goes down, red. */
  function Rotated(t: Tree, dir: bool): Tree
    requires t.Node? && Child(t, !dir).Node?
  {
    var save := Child(t, !dir);
    Mk(dir, Mk(!dir, Child(save, dir), t.at, t.key, t.value, true, Child(t, dir)),
       save.at, save.key, save.value, false, Child(save, !dir))
  }

  function WithChild(t: Tree, dir: bool, c: Tree): Tree
    requires t.Node?
  {
    Mk(dir, c, t.at, t.key, t.value, t.red, Child(t, !dir))
  }

  predicate CanDouble(t: Tree, dir: bool) {
    t.Node? && Child(t, !dir).Node? && Child(Child(t, !dir), dir).Node?
  }

  function DoubleRotated(t: Tree, dir: bool): Tree
    requires CanDouble(t, dir)
  {
    Rotated(WithChild(t, !dir, Rotated(Child(t, !dir), !dir)), dir)
  }

  lemma RotatedInOrder(t: Tree, dir: bool)
    requires t.Node? && Child(t, !dir).Node?
    ensures InOrder(Rotated(t, dir)) == InOrder(t)
  {
    var save := Child(t, !dir);
    var e, f := [Entry(t.key, t.value)], [Entry(save.key, save.value)];
    var x, y, z := InOrder(Child(t, dir)), InOrder(Child(save, dir)), InOrder(Child(save, !dir));
    if dir {
      assert z + f + (y + e + x) == (z + f + y) + e + x;
    } else {
      assert (x + e + y) + f + z == x + e + (y + f + z);
    }
  }

  lemma DoubleRotatedInOrder(t: Tree, dir: bool)
    requires CanDouble(t, dir)
    ensures InOrder(DoubleRotated(t, dir)) == InOrder(t)
  {
    var c := Child(t, !dir);
    RotatedInOrder(c, !dir);
    var t1 := WithChild(t, !dir, Rotated(c, !dir));
    assert InOrder(t1) == InOrder(t);
    RotatedInOrder(t1, dir);
  }

  lemma PlugSameInOrder(c: Ctx, t: Tree, u: Tree)
    requires InOrder(t) == InOrder(u)
    ensures InOrder(Plug(c, t)) == InOrder(Plug(c, u))
  {
    PlugInOrder(c, t);
    PlugInOrder(c, u);
  }

  // ---- the heap ----

  ghost function Objs(t: Tree): set<RingNode> {
    if t.Leaf? then {} else Objs(t.left) + {t.at} + Objs(t.right)
  }

  ghost function CtxObjs(c: Ctx): set<RingNode> {
    if c.Top? then {} else CtxObjs(c.up) + {c.at} + Objs(c.other)
  }

  function AtOf(t: Tree): RingNode? {
    if t.Leaf? then null else t.at
  }

  /** Every record described by `t` has exactly the described fields. */
  ghost predicate InHeap(t: Tree)
    reads Objs(t)
  {
    t.Leaf? ||
    (&& t.at.key == t.key && t.at.value == t.value && t.at.red == t.red
     && t.at.left == AtOf(t.left) && t.at.right == AtOf(t.right)
     && InHeap(t.left) && InHeap(t.right))
  }

  /** The records along `c` are as described, with `n` in the hole, hanging off `head.right`. */
  ghost predicate CtxInHeap(head: RingNode, c: Ctx, n: RingNode?)
    reads head, CtxObjs(c)
  {
    if c.Top? then head.right == n && head.left == null
    else
      && c.at.key == c.key && c.at.value == c.value && c.at.red == c.red
      && c.at.GetChild(c.dir) == n && c.at.GetChild(!c.dir) == AtOf(c.other)
      && InHeap(c.other) && CtxInHeap(head, c.up, c.at)
  }

  /** No record is described twice. */
  ghost predicate Apart(t: Tree) {
    t.Leaf? ||
    (&& t.at !in Objs(t.left) && t.at !in Objs(t.right) && Objs(t.left) !! Objs(t.right)
     && Apart(t.left) && Apart(t.right))
  }

  ghost predicate CtxApart(c: Ctx) {
    c.Top? ||
    (&& c.at !in CtxObjs(c.up) && c.at !in Objs(c.other) && CtxObjs(c.up) !! Objs(c.other)
     && CtxApart(c.up) && Apart(c.other))
  }

  ghost predicate AllApart(head: RingNode, c: Ctx, t: Tree) {
    CtxApart(c) && Apart(t) && CtxObjs(c) !! Objs(t) && head !in CtxObjs(c) && head !in Objs(t)
  }

  /** A record, its two subtrees, and how they lie apart in the heap. */
  lemma Parts(t: Tree, dir: bool)
    requires t.Node? && Apart(t) && InHeap(t)
    ensures var x, y := Child(t, dir), Child(t, !dir);
            && Objs(t) == Objs(x) + {t.at} + Objs(y)
            && t.at !in Objs(x) && t.at !in Objs(y) && Objs(x) !! Objs(y)
            && Apart(x) && Apart(y) && InHeap(x) && InHeap(y)
            && t.at.GetChild(dir) == AtOf(x) && t.at.GetChild(!dir) == AtOf(y)
    ensures allocated(Objs(Child(t, dir))) && allocated(Objs(Child(t, !dir)))
  {
  }

  /** A described subtree stays described while its records are untouched. */
  twostate lemma Kept(t: Tree)
    requires old(allocated(Objs(t)))
    requires old(InHeap(t))
    requires unchanged(Objs(t))
    ensures InHeap(t)
  {
  }

  /** Describing one record above two described subtrees. */
  lemma MkInHeap(dir: bool, hole: Tree, n: RingNode, other: Tree)
    requires InHeap(hole) && InHeap(other)
    requires n.GetChild(dir) == AtOf(hole) && n.GetChild(!dir) == AtOf(other)
    ensures InHeap(Mk(dir, hole, n, n.key, n.value, n.red, other))
  {
  }

  lemma {:induction false} PlugObjs(c: Ctx, t: Tree)
    ensures Objs(Plug(c, t)) == CtxObjs(c) + Objs(t)
    ensures Apart(Plug(c, t)) <==> CtxApart(c) && Apart(t) && CtxObjs(c) !! Objs(t)
  {
    if c.Top? {
    } else {
      PlugObjs(c.up, Fill(c, t));
    }
  }

  lemma {:induction false} PlugInHeap(head: RingNode, c: Ctx, t: Tree)
    requires CtxInHeap(head, c, AtOf(t)) && InHeap(t)
    ensures InHeap(Plug(c, t)) && head.right == AtOf(Plug(c, t)) && head.left == null
  {
    if c.Top? {
    } else {
      PlugInHeap(head, c.up, Fill(c, t));
    }
  }

  /** The record that holds the link into the hole of `c`. */
  ghost function Holder(head: RingNode, c: Ctx): RingNode {
    if c.Top? then head else c.at
  }

  /** The side on which that link sits; the whole tree hangs off the right of `head`. */
  predicate HoleDir(c: Ctx) {
    c.Top? || c.dir
  }

  /** A context in the heap: the fake root it hangs off and what sits in its hole. */
  datatype Hung = Hung(head: RingNode, c: Ctx, n: RingNode?)

  twostate lemma KeptCtx(h: Hung)
    requires old(allocated(CtxObjs(h.c)))
    requires old(CtxInHeap(h.head, h.c, h.n))
    requires unchanged(h.head)
    requires unchanged(CtxObjs(h.c))
    ensures CtxInHeap(h.head, h.c, h.n)
  {
  }

  /** Going down one level describes the same heap. */
  lemma DownInHeap(head: RingNode, c: Ctx, t: Tree, dir: bool)
    requires t.Node? && CtxInHeap(head, c, t.at) && InHeap(t) && AllApart(head, c, t)
    ensures CtxInHeap(head, Down(c, t, dir), AtOf(Child(t, dir))) && InHeap(Child(t, dir))
    ensures AllApart(head, Down(c, t, dir), Child(t, dir))
    ensures CtxObjs(Down(c, t, dir)) + Objs(Child(t, dir)) == CtxObjs(c) + Objs(t)
    ensures Plug(Down(c, t, dir), Child(t, dir)) == Plug(c, t)
  {
  }

  /** Going up one level describes the same heap. */
  lemma FillInHeap(head: RingNode, c: Ctx, t: Tree)
    requires c.Frame? && CtxInHeap(head, c, AtOf(t)) && InHeap(t) && AllApart(head, c, t)
    ensures CtxInHeap(head, c.up, c.at) && InHeap(Fill(c, t)) && AllApart(head, c.up, Fill(c, t))
    ensures CtxObjs(c.up) + Objs(Fill(c, t)) == CtxObjs(c) + Objs(t)
    ensures allocated(CtxObjs(c.up)) && allocated(Objs(Fill(c, t)))
  {
  }

  /** Which link of its holder leads to `n`. */
  lemma HoleSide(head: RingNode, c: Ctx, n: RingNode, t: Tree)
    requires CtxInHeap(head, c, n) && AllApart(head, c, t) && n in Objs(t)
    ensures Holder(head, c).right == n <==> HoleDir(c)
  {
    if c.Frame? {
      assert n !in Objs(c.other);
    }
  }

  /** Replacing what hangs in the hole. */
  method Rehang(head: RingNode, holder: RingNode, dir: bool, n: RingNode?, ghost was: RingNode?, ghost c: Ctx)
    requires CtxInHeap(head, c, was) && CtxApart(c) && head !in CtxObjs(c)
    requires holder == Holder(head, c) && dir == HoleDir(c)
    modifies holder
    ensures CtxInHeap(head, c, n)
  {
    if c.Frame? {
      assert allocated(CtxObjs(c.up)) && allocated(Objs(c.other));
    }
    holder.SetChild(dir, n);
    if c.Frame? {
      Kept(c.other);
      KeptCtx(Hung(head, c.up, c.at));
    }
  }

  /** The loops' view of the heap: `node` sits in the hole of `c`, and `objs` are all the records. */
  ghost predicate AtNode(head: RingNode, c: Ctx, t: Tree, node: RingNode?, objs: set<RingNode>)
    reads head, CtxObjs(c), Objs(t)
  {
    && node == AtOf(t) && CtxInHeap(head, c, node) && InHeap(t) && AllApart(head, c, t)
    && CtxObjs(c) + Objs(t) == objs
  }

  function IsRed(node: RingNode?): bool
    reads node
  {
    node != null && node.red
  }

  lemma Descended(head: RingNode, c: Ctx, t: Tree, objs: set<RingNode>, dir: bool)
    requires t.Node? && AtNode(head, c, t, t.at, objs)
    ensures AtNode(head, Down(c, t, dir), Child(t, dir), t.at.GetChild(dir), objs)
  {
    DownInHeap(head, c, t, dir);
  }

  lemma RecolouredInHeap(t: Tree, u: Tree)
    requires t.Node? && u.Node? && u == t.(red := u.red) && Apart(t)
    requires t.at.key == t.key && t.at.value == t.value && t.at.red == u.red
    requires t.at.left == AtOf(t.left) && t.at.right == AtOf(t.right) && InHeap(t.left) && InHeap(t.right)
    ensures InHeap(u)
  {
  }

  /** The two levels a colour flip touches. */
  lemma FlipParts(t: Tree)
    requires t.Node? && t.left.Node? && t.right.Node? && InHeap(t) && Apart(t)
    ensures var l, r := t.left, t.right;
            && t.at !in {l.at, r.at} && l.at != r.at
            && InHeap(l.left) && InHeap(l.right) && InHeap(r.left) && InHeap(r.right)
            && (Objs(l.left) + Objs(l.right) + Objs(r.left) + Objs(r.right)) !! {t.at, l.at, r.at}
            && allocated(Objs(l.left) + Objs(l.right)) && allocated(Objs(r.left) + Objs(r.right))
            && t.at.left == l.at && t.at.right == r.at && t.at.key == t.key && t.at.value == t.value
            && l.at.left == AtOf(l.left) && l.at.right == AtOf(l.right) && l.at.key == l.key && l.at.value == l.value
            && r.at.left == AtOf(r.left) && r.at.right == AtOf(r.right) && r.at.key == r.key && r.at.value == r.value
            && Apart(l) && Apart(r)
  {
    Parts(t, true);
    Parts(t.left, true);
    Parts(t.right, true);
  }
}
