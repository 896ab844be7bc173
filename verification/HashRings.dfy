/** The consistent-hash ring (lib/ring/index.js:28-228). */
module HashRings {
  import opened Wrappers
  import opened Points
  import opened RingNodes
  import opened RBModel
  import opened RBContents
  import opened RBTrees
  import opened RBIterators
  import opened RingSpec
  import Names

  method InsertReplica(tree: RBTree, cfg: Config, server: string, i: nat, ghost ps: set<Point>)
    requires tree.Valid() && Holds(tree.Contents(), ps + cfg.ReplicasUpTo(server, i))
    modifies tree, Objs(tree.model)
    ensures tree.Valid() && (forall o :: o in Objs(tree.model) && o !in old(Objs(tree.model)) ==> fresh(o))
    ensures Holds(tree.Contents(), ps + cfg.ReplicasUpTo(server, i + 1))
  {
    var p := cfg.ReplicaPoint(server, i);
    HoldsPut(tree.Contents(), ps + cfg.ReplicasUpTo(server, i), p);
    assert ps + cfg.ReplicasUpTo(server, i) + {p} == ps + cfg.ReplicasUpTo(server, i + 1);
    var inserted := tree.Insert(p, server);
  }

  method RemoveReplica(tree: RBTree, cfg: Config, server: string, i: nat, ghost ps: set<Point>)
    requires tree.Valid() && Holds(tree.Contents(), ps - cfg.ReplicasUpTo(server, i))
    modifies tree, Objs(tree.model)
    ensures tree.Valid() && Objs(tree.model) <= old(Objs(tree.model))
    ensures Holds(tree.Contents(), ps - cfg.ReplicasUpTo(server, i + 1))
  {
    var p := cfg.ReplicaPoint(server, i);
    HoldsWithout(tree.Contents(), ps - cfg.ReplicasUpTo(server, i), p);
    assert ps - cfg.ReplicasUpTo(server, i) - {p} == ps - cfg.ReplicasUpTo(server, i + 1);
    var removed := tree.Remove(p);
  }

  /** A fresh iterator, already on the first entry: what the walk uses after the end of the tree. */
  method Restart(tree: RBTree) returns (iter: RBIterator)
    requires tree.Valid()
    ensures fresh(iter) && iter.tree == tree && iter.Valid() && iter.Index() == 0
  {
    assert allocated(Objs(tree.model));
    iter := new RBIterator(tree);
    iter.Next();
  }

  /** One round of the loop of `lookupN` (lib/ring/index.js:212-225): collect the value under the iterator
      or, past the end, start again at the first entry. */
  method OneRound(iter: RBIterator, collected: seq<string>, ghost s: seq<Entry>, ghost at: nat)
    returns (next: RBIterator, resultArray: seq<string>)
    requires Shows(iter, s, at)
    modifies iter
    ensures (next == iter || fresh(next)) && Shows(next, s, if at < |s| then at + 1 else 0)
    ensures resultArray == Collect(s, at, collected)
  {
    iter.AtIndex();
    var res := iter.Value();
    resultArray := collected;
    if res == None {
      next := Restart(iter.tree);
    } else {
      if res.value !in resultArray {
        resultArray := resultArray + [res.value];
      }
      next := iter;
      next.Next();
    }
    next.AtIndex();
  }

  /** The iterator stands on position `at` of a tree with contents `s`. */
  ghost predicate Shows(iter: RBIterator, s: seq<Entry>, at: nat)
    reads iter, iter.tree, Objs(iter.tree.model), iter.cursor
  {
    iter.Valid() && iter.tree.Contents() == s && iter.Index() == at && iter.Key() == KeyAt(s, at)
  }

  function Collect(s: seq<Entry>, at: nat, res: seq<string>): seq<string> {
    if at < |s| && s[at].value !in res then res + [s[at].value] else res
  }

  method WalkFrom(start: RBIterator, n: int, ghost s: seq<Entry>, ghost i: nat, ghost w: seq<string>)
    returns (resultArray: seq<string>)
    requires Shows(start, s, i)
    requires IsLap(w, s, i) && n <= |Collected(w, |w|)| && Sorted(s)
    modifies start
    ensures resultArray <= Collected(w, |w|)
    ensures |resultArray| == if n >= 1 then n else if i < |s| then 1 else 0
  {
    var firstVal := start.Key();
    var iter := start;
    ghost var at: nat, k: nat, wrapped := i, 0, false;
    resultArray := [];
    var first := true;
    while first || (|resultArray| < n && iter.Key() != firstVal)
      invariant (iter == start || fresh(iter)) && Shows(iter, s, at)
      invariant Walked(s, i, w, at, k, wrapped, first, resultArray, n)
      decreases if first then 1 else 0, if wrapped then 0 else 1, |s| - k
    {
      WalkGoes(s, i, w, at, k, wrapped, first, resultArray, n);
      iter, resultArray := OneRound(iter, resultArray, s, at);
      first := false;
      at, k, wrapped := if at < |s| then at + 1 else 0, if at < |s| then k + 1 else k, wrapped || at >= |s|;
    }
    WalkEnds(s, i, w, at, k, wrapped, resultArray, n);
  }

  class HashRing {
    const cfg: Config
    const rbtree: RBTree
    var servers: set<string>
    var checksum: Option<int>

    /** The tree holds exactly the points of the servers, and the checksum, once computed, is current. */
    ghost predicate Valid()
      reads this, rbtree, Objs(rbtree.model)
    {
      && cfg.replicaPoints > 0 && rbtree.Valid()
      && Holds(rbtree.Contents(), cfg.PointsOf(servers))
      && checksum == (if checksum.None? then None else Some(ChecksumOf(cfg, servers)))
    }

    constructor (hashFunc: string -> int, replicaPoints: nat)
      ensures Valid() && servers == {} && checksum == None && fresh(rbtree) && Objs(rbtree.model) == {}
      ensures cfg == Config(hashFunc, if replicaPoints == 0 then 100 else replicaPoints)
    {
      cfg := Config(hashFunc, if replicaPoints == 0 then 100 else replicaPoints);
      rbtree := new RBTree();
      servers, checksum := {}, None;
      new;
      assert Keys([]) == {};
    }

    predicate HasServer(name: string)
      reads this
    {
      name in servers
    }

    method ComputeChecksum()
      modifies this`checksum
      ensures checksum == Some(ChecksumOf(cfg, servers))
    {
      var serverNames := Names.Sort(servers);
      Names.ListsUnique(serverNames, Names.Sorted(servers), servers);
      checksum := Some(cfg.hashFunc(Names.Join(serverNames, ";")));
    }

    /** Assumes the server is not in the ring. */
    method AddServerReplicas(server: string)
      requires cfg.replicaPoints > 0
      requires rbtree.Valid() && Holds(rbtree.Contents(), cfg.PointsOf(servers)) && server !in servers
      modifies this`servers, rbtree, Objs(rbtree.model)
      ensures rbtree.Valid() && (forall o :: o in Objs(rbtree.model) && o !in old(Objs(rbtree.model)) ==> fresh(o))
      ensures servers == old(servers) + {server}
      ensures Holds(rbtree.Contents(), cfg.PointsOf(servers))
    {
      ghost var ps := cfg.PointsOf(servers);
      cfg.PointsOfAdd(servers, server);
      servers := servers + {server};
      var i := 0;
      assert ps + cfg.ReplicasUpTo(server, 0) == ps;
      while i < cfg.replicaPoints
        invariant i <= cfg.replicaPoints && rbtree.Valid() && servers == old(servers) + {server}
        invariant (forall o :: o in Objs(rbtree.model) && o !in old(Objs(rbtree.model)) ==> fresh(o))
        invariant Holds(rbtree.Contents(), ps + cfg.ReplicasUpTo(server, i))
      {
        InsertReplica(rbtree, cfg, server, i, ps);
        i := i + 1;
      }
    }

    /** Assumes the server is in the ring. */
    method RemoveServerReplicas(server: string)
      requires cfg.replicaPoints > 0
      requires rbtree.Valid() && Holds(rbtree.Contents(), cfg.PointsOf(servers)) && server in servers
      modifies this`servers, rbtree, Objs(rbtree.model)
      ensures rbtree.Valid() && (forall o :: o in Objs(rbtree.model) && o !in old(Objs(rbtree.model)) ==> fresh(o))
      ensures servers == old(servers) - {server}
      ensures Holds(rbtree.Contents(), cfg.PointsOf(servers))
    {
      ghost var ps := cfg.PointsOf(servers);
      cfg.PointsOfRemove(servers, server);
      servers := servers - {server};
      var i := 0;
      assert ps - cfg.ReplicasUpTo(server, 0) == ps;
      while i < cfg.replicaPoints
        invariant i <= cfg.replicaPoints && rbtree.Valid() && servers == old(servers) - {server}
        invariant (forall o :: o in Objs(rbtree.model) && o !in old(Objs(rbtree.model)) ==> fresh(o))
        invariant Holds(rbtree.Contents(), ps - cfg.ReplicasUpTo(server, i))
      {
        RemoveReplica(rbtree, cfg, server, i, ps);
        i := i + 1;
      }
    }

    method AddServer(name: string)
      requires Valid()
      modifies this, rbtree, Objs(rbtree.model)
      ensures Valid() && (forall o :: o in Objs(rbtree.model) && o !in old(Objs(rbtree.model)) ==> fresh(o))
      ensures servers == old(servers) + {name}
      ensures HoldsReplicas(rbtree.Contents(), cfg.hashFunc, cfg.replicaPoints, servers)
      ensures checksum == if name in old(servers) then old(checksum) else Some(ChecksumOf(cfg, servers))
    {
      if HasServer(name) {
        HoldingReplicas(cfg, rbtree.Contents(), servers);
        return;
      }
      AddServerReplicas(name);
      assert allocated(Objs(rbtree.model));
      ComputeChecksum();
      HoldingReplicas(cfg, rbtree.Contents(), servers);
    }

    method RemoveServer(name: string)
      requires Valid()
      modifies this, rbtree, Objs(rbtree.model)
      ensures Valid() && (forall o :: o in Objs(rbtree.model) && o !in old(Objs(rbtree.model)) ==> fresh(o))
      ensures servers == old(servers) - {name}
      ensures HoldsReplicas(rbtree.Contents(), cfg.hashFunc, cfg.replicaPoints, servers)
      ensures checksum == if name in old(servers) then Some(ChecksumOf(cfg, servers)) else old(checksum)
    {
      if !HasServer(name) {
        HoldingReplicas(cfg, rbtree.Contents(), servers);
        return;
      }
      RemoveServerReplicas(name);
      assert allocated(Objs(rbtree.model));
      ComputeChecksum();
      HoldingReplicas(cfg, rbtree.Contents(), servers);
    }

    /** Adds everything in `toAdd`, then removes everything in `toRemove`, in one batch. */
    method AddRemoveServers(toAdd: seq<string>, toRemove: seq<string>) returns (ringChanged: bool)
      requires Valid()
      modifies this, rbtree, Objs(rbtree.model)
      ensures Valid() && (forall o :: o in Objs(rbtree.model) && o !in old(Objs(rbtree.model)) ==> fresh(o))
      ensures servers == old(servers) + Set(toAdd) - Set(toRemove)
      ensures HoldsReplicas(rbtree.Contents(), cfg.hashFunc, cfg.replicaPoints, servers)
      ensures ringChanged <==> !(Set(toAdd) <= old(servers)) || (old(servers) + Set(toAdd)) * Set(toRemove) != {}
      ensures checksum == if ringChanged then Some(ChecksumOf(cfg, servers)) else old(checksum)
    {
      var added := AddAll(toAdd);
      var removed := RemoveAll(toRemove);
      ringChanged := added || removed;
      if ringChanged {
        assert allocated(Objs(rbtree.model));
        ComputeChecksum();
      } else {
        NothingChanged(old(servers), Set(toAdd), Set(toRemove));
      }
      HoldingReplicas(cfg, rbtree.Contents(), servers);
    }

    method AddAll(toAdd: seq<string>) returns (added: bool)
      requires Valid()
      modifies this`servers, rbtree, Objs(rbtree.model)
      ensures rbtree.Valid() && Holds(rbtree.Contents(), cfg.PointsOf(servers))
      ensures (forall o :: o in Objs(rbtree.model) && o !in old(Objs(rbtree.model)) ==> fresh(o))
      ensures servers == old(servers) + Set(toAdd)
      ensures added <==> !(Set(toAdd) <= old(servers))
    {
      added := false;
      var i := 0;
      while i < |toAdd|
        invariant i <= |toAdd| && rbtree.Valid() && Holds(rbtree.Contents(), cfg.PointsOf(servers))
        invariant (forall o :: o in Objs(rbtree.model) && o !in old(Objs(rbtree.model)) ==> fresh(o))
        invariant servers == old(servers) + Set(toAdd[..i])
        invariant added <==> !(Set(toAdd[..i]) <= old(servers))
      {
        SetSnoc(toAdd, i);
        if !HasServer(toAdd[i]) {
          AddServerReplicas(toAdd[i]);
          added := true;
        }
        i := i + 1;
      }
      assert toAdd[..i] == toAdd;
    }

    method RemoveAll(toRemove: seq<string>) returns (removed: bool)
      requires cfg.replicaPoints > 0
      requires rbtree.Valid() && Holds(rbtree.Contents(), cfg.PointsOf(servers))
      modifies this`servers, rbtree, Objs(rbtree.model)
      ensures rbtree.Valid() && Holds(rbtree.Contents(), cfg.PointsOf(servers))
      ensures (forall o :: o in Objs(rbtree.model) && o !in old(Objs(rbtree.model)) ==> fresh(o))
      ensures servers == old(servers) - Set(toRemove)
      ensures removed <==> old(servers) * Set(toRemove) != {}
    {
      removed := false;
      var i := 0;
      while i < |toRemove|
        invariant i <= |toRemove| && rbtree.Valid() && Holds(rbtree.Contents(), cfg.PointsOf(servers))
        invariant (forall o :: o in Objs(rbtree.model) && o !in old(Objs(rbtree.model)) ==> fresh(o))
        invariant servers == old(servers) - Set(toRemove[..i])
        invariant removed <==> old(servers) * Set(toRemove[..i]) != {}
      {
        SetSnoc(toRemove, i);
        if HasServer(toRemove[i]) {
          RemoveServerReplicas(toRemove[i]);
          removed := true;
          assert toRemove[i] in old(servers) * Set(toRemove[..i + 1]);
        }
        i := i + 1;
      }
      assert toRemove[..i] == toRemove;
    }

    /** `lookup`: the server that owns the key's hash, or null in an empty ring. */
    method Lookup(str: string) returns (res: Option<string>)
      requires Valid()
      ensures res == OwnerOf(cfg, servers, cfg.hashFunc(str))
      ensures res.None? <==> servers == {}
      ensures res.Some? ==> OwnsHash(cfg.hashFunc, cfg.replicaPoints, servers, cfg.hashFunc(str), res.value)
    {
      OwnerOwns(cfg, servers, cfg.hashFunc(str));
      var hash := cfg.hashFunc(str);
      ghost var s := rbtree.Contents();
      ghost var ps := cfg.PointsOf(servers);
      assert allocated(Objs(rbtree.model));
      var iter := UpperBound(rbtree, Point(hash, ""));
      iter.AtIndex();
      res := iter.Value();
      if res == None {
        var min := Min(rbtree);
        res := if min == null then None else Some(min.value);
      }
      if s != [] {
        SearchFindsOwner(s, ps, hash, iter.Index());
        OwnerIsThere(ps, hash);
        OwnerUnique(ps, hash, s[if iter.Index() < |s| then iter.Index() else 0].key, Owner(ps, hash));
      } else {
        KeysEmpty(s);
      }
    }

    /** `lookupN`: with n >= 1 the first min(n, server count) servers of the full preference list; with
        n < 1 the loop body still runs once. */
    method LookupN(str: string, count: int) returns (resultArray: seq<string>)
      requires Valid()
      ensures var s, h := rbtree.Contents(), cfg.hashFunc(str);
              && resultArray <= Preferences(s, h)
              && |resultArray| == if count >= 1 then Min2(count, |servers|) else if StartOf(s, h) < |s| then 1 else 0
    {
      ghost var s := rbtree.Contents();
      var n := if count > |servers| then |servers| else count;
      var hash := cfg.hashFunc(str);
      assert allocated(Objs(rbtree.model));
      var iter := UpperBound(rbtree, Point(hash, ""));
      iter.AtIndex();
      ghost var i := iter.Index();
      ghost var w := LapFor(cfg, s, servers, hash, i);
      resultArray := WalkFrom(iter, n, s, i, w);
    }
  }

  /** The ring checksum of a set of servers. */
  ghost function ChecksumOf(cfg: Config, servers: set<string>): int {
    cfg.hashFunc(Names.Join(Names.Sorted(servers), ";"))
  }

  function Set(xs: seq<string>): set<string> {
    set x | x in xs
  }

  lemma NothingChanged(s: set<string>, a: set<string>, r: set<string>)
    requires a <= s && (s + a) * r == {}
    ensures s + a - r == s
  {
    assert s + a == s;
    forall x | x in s ensures x !in r {
      assert x in r ==> x in (s + a) * r;
    }
  }

  lemma SetSnoc(xs: seq<string>, i: nat)
    requires i < |xs|
    ensures Set(xs[..i + 1]) == Set(xs[..i]) + {xs[i]}
  {
    assert xs[..i + 1] == xs[..i] + [xs[i]];
  }

  function Min2(a: int, b: int): int {
    if a <= b then a else b
  }

  ghost predicate IsLap(w: seq<string>, s: seq<Entry>, i: nat) {
    && i <= |s| && |w| == |s|
    && forall k :: 0 <= k < |w| ==> w[k] == s[if k < |s| - i then i + k else k - (|s| - i)].value
  }

  /** Where the walk stands after `k` entries, before or after the wrap, and what it has collected. */
  ghost predicate Walked(s: seq<Entry>, i: nat, w: seq<string>, at: nat, k: nat, wrapped: bool, first: bool,
                         res: seq<string>, n: int) {
    && IsLap(w, s, i) && at <= |s| && k <= |s|
    && (if wrapped then k == |s| - i + at && (at <= i || at == |s|) else at == i + k)
    && res == Collected(w, k)
    && (first ==> k == 0 && !wrapped)
    && (!first ==> (wrapped || k > 0) && (|res| <= n || (n < 1 && |res| == if i < |s| then 1 else 0)))
  }

  /** The distinct servers among the first `k` of a walk. */
  ghost function Collected(w: seq<string>, k: nat): seq<string>
    requires k <= |w|
  {
    if k == 0 then []
    else
      var d := Collected(w, k - 1);
      if w[k - 1] in d then d else d + [w[k - 1]]
  }

  lemma {:induction false} CollectedIsDistinct(w: seq<string>, k: nat)
    requires k <= |w|
    ensures Collected(w, k) == Distinct(w[..k])
  {
    if k == 0 {
    } else {
      CollectedIsDistinct(w, k - 1);
      assert w[..k][..k - 1] == w[..k - 1];
    }
  }

  ghost predicate GoesOn(s: seq<Entry>, i: nat, at: nat, first: bool, res: seq<string>, n: int)
    requires i <= |s| && at <= |s|
  {
    first || (|res| < n && KeyAt(s, at) != KeyAt(s, i))
  }

  ghost function KeyAt(s: seq<Entry>, i: nat): Option<Point>
    requires i <= |s|
  {
    if i < |s| then Some(s[i].key) else None
  }

  lemma KeysDiffer(s: seq<Entry>, i: nat, j: nat)
    requires Sorted(s) && i <= |s| && j <= |s| && i != j
    ensures KeyAt(s, i) != KeyAt(s, j)
  {
    if i < |s| && j < |s| {
      CompareTotal(s[i].key, s[j].key);
    }
  }

  lemma WalkGoes(s: seq<Entry>, i: nat, w: seq<string>, at: nat, k: nat, wrapped: bool, first: bool,
                 res: seq<string>, n: int)
    requires Walked(s, i, w, at, k, wrapped, first, res, n) && GoesOn(s, i, at, first, res, n)
    ensures if at < |s| then k < |s| && Walked(s, i, w, at + 1, k + 1, wrapped, false, Collect(s, at, res), n)
            else !wrapped && Walked(s, i, w, 0, k, true, false, Collect(s, at, res), n)
  {
    if at < |s| {
      assert w[k] == s[at].value;
    }
  }

  lemma LapFor(cfg: Config, s: seq<Entry>, servers: set<string>, h: int, i: nat) returns (w: seq<string>)
    requires Holds(s, cfg.PointsOf(servers)) && cfg.replicaPoints > 0 && IsLowerBound(s, Point(h, ""), i)
    ensures i == StartOf(s, h) && IsLap(w, s, i)
    ensures Collected(w, |w|) == Preferences(s, h) && |Collected(w, |w|)| == |servers|
  {
    w := Lap(s, i);
    LowerBoundUnique(s, Point(h, ""), i, StartOf(s, h));
    PreferencesComplete(cfg, s, servers, i);
    CollectedIsDistinct(w, |w|);
    assert w[..|w|] == w;
  }

  lemma {:induction false} CollectedGrows(w: seq<string>, k: nat, m: nat)
    requires k <= m <= |w|
    ensures Collected(w, k) <= Collected(w, m)
    decreases m
  {
    if k < m { CollectedGrows(w, k, m - 1); }
  }

  lemma WalkEnds(s: seq<Entry>, i: nat, w: seq<string>, at: nat, k: nat, wrapped: bool, res: seq<string>, n: int)
    requires Sorted(s) && Walked(s, i, w, at, k, wrapped, false, res, n) && !GoesOn(s, i, at, false, res, n)
    requires n <= |Collected(w, |w|)|
    ensures res <= Collected(w, |w|)
    ensures |res| == if n >= 1 then n else if i < |s| then 1 else 0
  {
    CollectedGrows(w, k, |w|);
    if at != i {
      KeysDiffer(s, i, at);
    }
  }

  /** History independence: rings with the same servers hold the same tree contents, so lookups, preference
      lists and (once computed) checksums agree, whatever operations led there. */
  lemma SameServersSameRing(a: HashRing, b: HashRing)
    requires a.Valid() && b.Valid() && a.cfg == b.cfg && a.servers == b.servers
    ensures a.rbtree.Contents() == b.rbtree.Contents()
    ensures a.checksum.Some? && b.checksum.Some? ==> a.checksum == b.checksum
  {
    SortedUnique(a.rbtree.Contents(), b.rbtree.Contents(), a.cfg.PointsOf(a.servers));
  }

  /** The tree of a ring has as many nodes as there are replicas, unless a server has two of them at one hash. */
  lemma RingSize(ring: HashRing)
    requires ring.Valid()
    ensures var cfg, n := ring.cfg, ring.cfg.replicaPoints * |ring.servers|;
            && ring.rbtree.size <= n
            && (ring.rbtree.size == n <==> NoCollisions(cfg.hashFunc, cfg.replicaPoints, ring.servers))
  {
    KeyCount(ring.rbtree.Contents());
    PointCount(ring.cfg, ring.servers);
    ApartMeans(ring.cfg, ring.servers);
  }

  lemma NamesTellApart(a: set<string>, b: set<string>)
    requires forall x :: x in a + b ==> x != "" && Names.Without(x, ';')
    requires Names.Join(Names.Sorted(a), ";") == Names.Join(Names.Sorted(b), ";")
    ensures a == b
  {
    var r, t := Names.Sorted(a), Names.Sorted(b);
    assert forall i :: 0 <= i < |r| ==> r[i] in a + b;
    assert forall i :: 0 <= i < |t| ==> t[i] in a + b;
    Names.JoinInjective(r, t, ';');
    assert r == t;
    assert forall x :: x in a <==> x in r;
  }

  /** But for collisions of the hash, ring checksums tell apart sets of servers whose names hold no semicolon. */
  lemma ChecksumTellsApart(cfg: Config, a: set<string>, b: set<string>)
    requires forall s, t :: s != t ==> cfg.hashFunc(s) != cfg.hashFunc(t)
    requires forall x :: x in a + b ==> x != "" && Names.Without(x, ';')
    ensures ChecksumOf(cfg, a) == ChecksumOf(cfg, b) <==> a == b
  {
    if ChecksumOf(cfg, a) == ChecksumOf(cfg, b) {
      NamesTellApart(a, b);
    }
  }

  /** A preference list starts with the owner that `lookup` gives. */
  lemma PreferencesStartWithOwner(cfg: Config, s: seq<Entry>, servers: set<string>, h: int)
    requires Sorted(s) && Holds(s, cfg.PointsOf(servers)) && s != []
    ensures Preferences(s, h) != [] && OwnerOf(cfg, servers, h) == Some(Preferences(s, h)[0])
  {
    var i := StartOf(s, h);
    var ps := cfg.PointsOf(servers);
    SearchFindsOwner(s, ps, h, i);
    OwnerIsThere(ps, h);
    OwnerUnique(ps, h, s[if i < |s| then i else 0].key, Owner(ps, h));
    DistinctProps(Lap(s, i));
    assert Lap(s, i)[0] == s[if i < |s| then i else 0].value;
  }
  /** The k-th name of a preference list owns the hash once the names before it are gone. */
  lemma {:induction false} PreferenceOwns(cfg: Config, s: seq<Entry>, servers: set<string>, h: int, k: nat)
    requires Sorted(s) && Holds(s, cfg.PointsOf(servers)) && cfg.replicaPoints > 0 && k < |Preferences(s, h)|
    ensures OwnerOf(cfg, servers - Set(Preferences(s, h)[..k]), h) == Some(Preferences(s, h)[k])
    decreases k
  {
    var prefs := Preferences(s, h);
    if k == 0 {
      PreferencesNotEmpty(s, h);
      PreferencesStartWithOwner(cfg, s, servers, h);
      assert servers - Set(prefs[..0]) == servers;
    } else {
      var t := FirstRemoved(cfg, s, servers, h);
      PreferenceOwns(cfg, t, servers - {prefs[0]}, h, k - 1);
      WithoutPrefix(servers, prefs, k);
    }
  }

  lemma PreferencesNotEmpty(s: seq<Entry>, h: int)
    ensures s == [] ==> Preferences(s, h) == []
  {
    if s == [] {
      assert Lap(s, StartOf(s, h)) == [];
    }
  }

  lemma WithoutPrefix(servers: set<string>, prefs: seq<string>, k: nat)
    requires 0 < k <= |prefs|
    ensures servers - {prefs[0]} - Set(prefs[1..][..k - 1]) == servers - Set(prefs[..k])
  {
    assert prefs[..k] == [prefs[0]] + prefs[1..][..k - 1];
  }

  /** The list without its first name is the list of the ring without that server. */
  lemma FirstRemoved(cfg: Config, s: seq<Entry>, servers: set<string>, h: int) returns (t: seq<Entry>)
    requires Sorted(s) && Holds(s, cfg.PointsOf(servers)) && cfg.replicaPoints > 0 && Preferences(s, h) != []
    ensures Sorted(t) && Holds(t, cfg.PointsOf(servers - {Preferences(s, h)[0]}))
    ensures Preferences(t, h) == Preferences(s, h)[1..]
  {
    var prefs := Preferences(s, h);
    t := RemovedEntries(cfg, s, servers, prefs[0]);
    PreferencesComplete(cfg, s, servers, StartOf(s, h));
    PreferencesAfterRemoval(cfg, s, t, servers, prefs[0], h, StartOf(s, h), StartOf(t, h));
    DropFirst(prefs);
  }

  lemma RemovedEntries(cfg: Config, s: seq<Entry>, servers: set<string>, x: string) returns (t: seq<Entry>)
    requires Sorted(s) && Holds(s, cfg.PointsOf(servers))
    ensures Sorted(t) && Holds(t, cfg.PointsOf(servers - {x}))
  {
    t := DropEntries(s, x);
    DropEntriesProps(s, x, cfg.PointsOf(servers));
    cfg.PointsOfRemove(servers, x);
    assert cfg.PointsOf(servers - {x}) == set p | p in cfg.PointsOf(servers) && p.address != x;
  }

  lemma {:induction false} DropAbsent(w: seq<string>, x: string)
    requires x !in w
    ensures Drop(w, x) == w
  {
    if w == [] {
    } else {
      DropAbsent(w[..|w| - 1], x);
      assert w == w[..|w| - 1] + [w[|w| - 1]];
    }
  }

  lemma DropFirst(w: seq<string>)
    requires w != [] && NoDuplicates(w)
    ensures Drop(w, w[0]) == w[1..]
  {
    assert w == [w[0]] + w[1..];
    DropConcat([w[0]], w[1..], w[0]);
    DropAbsent(w[1..], w[0]);
    assert Drop([w[0]], w[0]) == [] by {
      assert [w[0]][..0] == [];
    }
  }
}
