/** What the ring promises, as functions of the set of servers alone (lib/ring/index.js). */
module RingSpec {
  import opened Wrappers
  import opened Points
  import opened RBModel
  import opened RBContents
  import opened RBIterators
  import opened Numerals

  datatype Config = Config(hashFunc: string -> int, replicaPoints: nat) {
    function ReplicaPoint(server: string, i: nat): Point {
      Point(hashFunc(server + Decimal(i)), server)
    }

    ghost function ReplicasUpTo(server: string, n: nat): set<Point> {
      set i: nat | i < n :: ReplicaPoint(server, i)
    }

    /** The points of a set of servers: one for every distinct (hash, address) pair. */
    ghost function PointsOf(servers: set<string>): set<Point> {
      set s, i: nat | s in servers && i < replicaPoints :: ReplicaPoint(s, i)
    }

    lemma PointsOfAdd(servers: set<string>, s: string)
      ensures PointsOf(servers + {s}) == PointsOf(servers) + ReplicasUpTo(s, replicaPoints)
    {
    }

    lemma PointsOfRemove(servers: set<string>, s: string)
      ensures PointsOf(servers - {s}) == PointsOf(servers) - ReplicasUpTo(s, replicaPoints)
    {
      forall p | p in PointsOf(servers - {s}) ensures p !in ReplicasUpTo(s, replicaPoints) {
        assert p.address != s;
      }
      forall p | p in PointsOf(servers) && p !in ReplicasUpTo(s, replicaPoints) ensures p in PointsOf(servers - {s}) {
        var t, i: nat :| t in servers && i < replicaPoints && p == ReplicaPoint(t, i);
        assert t != s;
      }
    }
  }

  // ---- a sorted list of entries against a set of points ----

  ghost function Keys(s: seq<Entry>): set<Point> {
    set i | 0 <= i < |s| :: s[i].key
  }

  /** The tree holds exactly the points `ps`, each with its address as the value. */
  ghost predicate Holds(s: seq<Entry>, ps: set<Point>) {
    Keys(s) == ps && forall i :: 0 <= i < |s| ==> s[i].value == s[i].key.address
  }

  lemma {:induction false} HoldsPut(s: seq<Entry>, ps: set<Point>, p: Point)
    requires Holds(s, ps)
    ensures Holds(Put(s, Entry(p, p.address)), ps + {p})
  {
    var e := Entry(p, p.address);
    if s == [] {
      KeysCons(e, []);
      assert [e] + [] == [e];
    } else if Less(p, s[0].key) {
      assert Put(s, e) == [e] + s;
      KeysCons(e, s);
    } else if p == s[0].key {
    } else {
      HoldsTail(s);
      HoldsPut(s[1..], Keys(s[1..]), p);
      KeysCons(s[0], s[1..]);
      KeysCons(s[0], Put(s[1..], e));
      assert s == [s[0]] + s[1..];
    }
  }

  lemma KeysCons(e: Entry, s: seq<Entry>)
    ensures Keys([e] + s) == {e.key} + Keys(s)
  {
    var t := [e] + s;
    assert t[0] == e;
    forall i | 0 <= i < |s| ensures s[i].key in Keys(t) { assert t[i + 1] == s[i]; }
  }

  lemma HoldsTail(s: seq<Entry>)
    requires s != [] && Holds(s, Keys(s))
    ensures Holds(s[1..], Keys(s[1..]))
  {
  }

  lemma {:induction false} HoldsWithout(s: seq<Entry>, ps: set<Point>, p: Point)
    requires Holds(s, ps)
    ensures Holds(Without(s, p), ps - {p})
  {
    if s == [] {
    } else {
      HoldsTail(s);
      HoldsWithout(s[1..], Keys(s[1..]), p);
      KeysCons(s[0], s[1..]);
      assert s == [s[0]] + s[1..];
      if s[0].key != p {
        KeysCons(s[0], Without(s[1..], p));
      }
    }
  }

  /** A sorted list is determined by the points it holds. */
  lemma {:induction false} SortedUnique(s: seq<Entry>, t: seq<Entry>, ps: set<Point>)
    requires Sorted(s) && Sorted(t) && Holds(s, ps) && Holds(t, ps)
    ensures s == t
  {
    if s == [] {
      KeysEmpty(t);
    } else {
      assert s[0].key in Keys(s);
      var i :| 0 <= i < |t| && t[i].key == s[0].key;
      assert t[0].key in Keys(t);
      var j :| 0 <= j < |s| && s[j].key == t[0].key;
      CompareTotal(s[0].key, t[0].key);
      assert s[0].key == t[0].key;
      SortedTail(s);
      SortedTail(t);
      KeysOfTail(s);
      KeysOfTail(t);
      SortedUnique(s[1..], t[1..], Keys(s[1..]));
      assert s == [s[0]] + s[1..] && t == [t[0]] + t[1..];
    }
  }

  lemma KeysEmpty(s: seq<Entry>)
    ensures Keys(s) == {} <==> s == []
  {
    assert s != [] ==> s[0].key in Keys(s);
  }

  lemma KeysOfTail(s: seq<Entry>)
    requires s != [] && Sorted(s) && Holds(s, Keys(s))
    ensures Keys(s[1..]) == Keys(s) - {s[0].key} && Holds(s[1..], Keys(s[1..]))
  {
    KeysCons(s[0], s[1..]);
    assert s == [s[0]] + s[1..];
    forall i | 0 <= i < |s[1..]| ensures s[1..][i].key != s[0].key {
      CompareTotal(s[0].key, s[i + 1].key);
    }
  }

  // ---- what the points are ----

  /** `p` is a replica point of one of the servers: its hash is that of the server's name followed by the number of one
      of the replicas. */
  ghost predicate IsReplica(hashFunc: string -> int, replicaPoints: nat, servers: set<string>, p: Point) {
    && p.address in servers
    && exists i: nat, digits: string ::
         i < replicaPoints && Numeral(digits, i) && p.hash == hashFunc(p.address + digits)
  }

  lemma PointsAreReplicas(cfg: Config, servers: set<string>, p: Point)
    ensures p in cfg.PointsOf(servers) <==> IsReplica(cfg.hashFunc, cfg.replicaPoints, servers, p)
  {
    if p in cfg.PointsOf(servers) {
      var s, i: nat :| s in servers && i < cfg.replicaPoints && p == cfg.ReplicaPoint(s, i);
      DecimalIsNumeral(i);
    }
    if IsReplica(cfg.hashFunc, cfg.replicaPoints, servers, p) {
      var i: nat, digits: string :|
        i < cfg.replicaPoints && Numeral(digits, i) && p.hash == cfg.hashFunc(p.address + digits);
      DecimalIsNumeral(i);
      NumeralUnique(digits, Decimal(i), i);
      assert p == cfg.ReplicaPoint(p.address, i);
    }
  }

  /** The list has an entry for exactly the replica points of the servers, each with its server as the value. */
  ghost predicate HoldsReplicas(s: seq<Entry>, hashFunc: string -> int, replicaPoints: nat, servers: set<string>) {
    && (forall i :: 0 <= i < |s| ==> s[i].value == s[i].key.address)
    && (forall p :: p in Keys(s) <==> IsReplica(hashFunc, replicaPoints, servers, p))
  }

  lemma HoldingReplicas(cfg: Config, s: seq<Entry>, servers: set<string>)
    requires Holds(s, cfg.PointsOf(servers))
    ensures HoldsReplicas(s, cfg.hashFunc, cfg.replicaPoints, servers)
  {
    forall p ensures p in Keys(s) <==> IsReplica(cfg.hashFunc, cfg.replicaPoints, servers, p) {
      PointsAreReplicas(cfg, servers, p);
    }
  }

  /** No two replicas of a server have the same hash. */
  ghost predicate NoCollisions(hashFunc: string -> int, replicaPoints: nat, servers: set<string>) {
    forall s, i: nat, j: nat, d, e ::
      s in servers && i < j < replicaPoints && Numeral(d, i) && Numeral(e, j) ==> hashFunc(s + d) != hashFunc(s + e)
  }

  ghost predicate Apart(cfg: Config, s: string, n: nat) {
    forall i: nat, j: nat :: i < j < n ==> cfg.ReplicaPoint(s, i) != cfg.ReplicaPoint(s, j)
  }

  lemma ApartStep(cfg: Config, s: string, n: nat)
    ensures Apart(cfg, s, n + 1) <==> Apart(cfg, s, n) && cfg.ReplicaPoint(s, n) !in cfg.ReplicasUpTo(s, n)
  {
    if Apart(cfg, s, n + 1) {
      forall i: nat | i < n ensures cfg.ReplicaPoint(s, i) != cfg.ReplicaPoint(s, n) {}
    } else {
      var i: nat, j: nat :| i < j < n + 1 && cfg.ReplicaPoint(s, i) == cfg.ReplicaPoint(s, j);
      if j == n {
        assert cfg.ReplicaPoint(s, i) in cfg.ReplicasUpTo(s, n);
      }
    }
  }

  lemma {:induction false} ReplicaCount(cfg: Config, s: string, n: nat)
    ensures |cfg.ReplicasUpTo(s, n)| <= n && (|cfg.ReplicasUpTo(s, n)| == n <==> Apart(cfg, s, n))
  {
    if n == 0 {
      assert cfg.ReplicasUpTo(s, n) == {};
    } else {
      ReplicaCount(cfg, s, n - 1);
      ApartStep(cfg, s, n - 1);
      var before, p := cfg.ReplicasUpTo(s, n - 1), cfg.ReplicaPoint(s, n - 1);
      assert cfg.ReplicasUpTo(s, n) == before + {p};
      if p in before {
        assert before + {p} == before;
      }
    }
  }

  lemma PointsSplit(cfg: Config, servers: set<string>, s: string)
    requires s in servers
    ensures |cfg.PointsOf(servers)| == |cfg.PointsOf(servers - {s})| + |cfg.ReplicasUpTo(s, cfg.replicaPoints)|
  {
    var rest, ps := cfg.PointsOf(servers - {s}), cfg.ReplicasUpTo(s, cfg.replicaPoints);
    cfg.PointsOfAdd(servers - {s}, s);
    assert servers - {s} + {s} == servers;
    forall p | p in rest ensures p !in ps {
      assert p.address != s;
    }
  }

  lemma CountStep(n: nat, k: nat, a: nat, b: nat)
    requires a <= n * k && b <= n
    ensures a + b <= n * (k + 1) && (a + b == n * (k + 1) <==> a == n * k && b == n)
  {
    assert n * (k + 1) == n * k + n;
  }

  /** There are as many points as replicas exactly if no server has two replicas at one point. */
  lemma {:induction false} PointCount(cfg: Config, servers: set<string>)
    ensures |cfg.PointsOf(servers)| <= cfg.replicaPoints * |servers|
    ensures |cfg.PointsOf(servers)| == cfg.replicaPoints * |servers| <==>
            forall s :: s in servers ==> Apart(cfg, s, cfg.replicaPoints)
    decreases |servers|
  {
    var n := cfg.replicaPoints;
    if servers == {} {
      assert cfg.PointsOf(servers) == {};
    } else {
      var s :| s in servers;
      var rest := servers - {s};
      PointCount(cfg, rest);
      ReplicaCount(cfg, s, n);
      PointsSplit(cfg, servers, s);
      CountStep(n, |rest|, |cfg.PointsOf(rest)|, |cfg.ReplicasUpTo(s, n)|);
      assert |servers| == |rest| + 1;
      assert (forall t :: t in servers ==> Apart(cfg, t, n)) <==>
             (forall t :: t in rest ==> Apart(cfg, t, n)) && Apart(cfg, s, n);
    }
  }

  lemma ApartMeans(cfg: Config, servers: set<string>)
    ensures NoCollisions(cfg.hashFunc, cfg.replicaPoints, servers) <==>
            forall s :: s in servers ==> Apart(cfg, s, cfg.replicaPoints)
  {
    if NoCollisions(cfg.hashFunc, cfg.replicaPoints, servers) {
      forall s, i: nat, j: nat | s in servers && i < j < cfg.replicaPoints
        ensures cfg.ReplicaPoint(s, i) != cfg.ReplicaPoint(s, j)
      {
        DecimalIsNumeral(i);
        DecimalIsNumeral(j);
      }
    }
    if forall s :: s in servers ==> Apart(cfg, s, cfg.replicaPoints) {
      forall s, i: nat, j: nat, d, e |
        s in servers && i < j < cfg.replicaPoints && Numeral(d, i) && Numeral(e, j)
        ensures cfg.hashFunc(s + d) != cfg.hashFunc(s + e)
      {
        DecimalIsNumeral(i);
        DecimalIsNumeral(j);
        NumeralUnique(d, Decimal(i), i);
        NumeralUnique(e, Decimal(j), j);
        assert Apart(cfg, s, cfg.replicaPoints) && cfg.ReplicaPoint(s, i) != cfg.ReplicaPoint(s, j);
      }
    }
  }

  lemma {:induction false} KeyCount(s: seq<Entry>)
    requires Sorted(s)
    ensures |Keys(s)| == |s|
  {
    if s == [] {
      assert Keys(s) == {};
    } else {
      SortedTail(s);
      KeyCount(s[1..]);
      KeysCons(s[0], s[1..]);
      assert s == [s[0]] + s[1..];
      forall i | 0 <= i < |s[1..]| ensures s[1..][i].key != s[0].key {
        CompareTotal(s[0].key, s[i + 1].key);
      }
    }
  }

  // ---- owners ----

  /** `p` is the owner of hash `h`: the least point at or after `h`, else the least of all. */
  ghost predicate IsOwner(ps: set<Point>, h: int, p: Point) {
    && p in ps
    && (if exists q :: q in ps && q.hash >= h
        then p.hash >= h && forall q :: q in ps && q.hash >= h ==> q == p || Less(p, q)
        else forall q :: q in ps ==> q == p || Less(p, q))
  }

  lemma OwnerUnique(ps: set<Point>, h: int, p: Point, q: Point)
    requires IsOwner(ps, h, p) && IsOwner(ps, h, q)
    ensures p == q
  {
    CompareTotal(p, q);
  }

  lemma {:induction false} LeastExists(ps: set<Point>) returns (p: Point)
    requires ps != {}
    ensures p in ps && forall q :: q in ps ==> q == p || Less(p, q)
    decreases |ps|
  {
    var x :| x in ps;
    if ps == {x} {
      p := x;
    } else {
      var rest := ps - {x};
      assert rest == {} ==> ps == {x};
      var y := LeastExists(rest);
      CompareTotal(x, y);
      p := if Less(x, y) then x else y;
      forall q | q in ps ensures q == p || Less(p, q) {
        if q != x && q != y && p == x {
          LessTrans(x, y, q);
        }
      }
    }
  }

  lemma OwnerExists(ps: set<Point>, h: int) returns (p: Point)
    requires ps != {}
    ensures IsOwner(ps, h, p)
  {
    var after := set q | q in ps && q.hash >= h;
    if after != {} {
      p := LeastExists(after);
      assert p in after;
    } else {
      p := LeastExists(ps);
      assert forall q :: q in ps ==> q !in after;
    }
  }

  ghost function Owner(ps: set<Point>, h: int): Point
    requires ps != {}
  {
    OwnerIsThere(ps, h);
    var p :| IsOwner(ps, h, p);
    p
  }

  lemma OwnerIsThere(ps: set<Point>, h: int)
    requires ps != {}
    ensures exists p :: IsOwner(ps, h, p)
  {
    var p := OwnerExists(ps, h);
  }

  /** The server that owns `h` when exactly `servers` are in the ring. */
  ghost function OwnerOf(cfg: Config, servers: set<string>, h: int): Option<string> {
    if cfg.PointsOf(servers) == {} then None else Some(Owner(cfg.PointsOf(servers), h).address)
  }

  /** `q` follows `p` on the ring: at a higher hash, or at the same one with a later address. */
  predicate Follows(p: Point, q: Point) {
    p.hash < q.hash || (p.hash == q.hash && StrLess(p.address, q.address))
  }

  /** A server owns a hash: one of its replicas is the first at or after the hash or, if there is none, the first. */
  ghost predicate OwnsHash(hashFunc: string -> int, replicaPoints: nat, servers: set<string>, h: int, server: string) {
    exists p: Point :: p.address == server && IsReplica(hashFunc, replicaPoints, servers, p)
                && forall q :: IsReplica(hashFunc, replicaPoints, servers, q) && q != p ==>
                     if p.hash >= h then q.hash < h || Follows(p, q) else q.hash < h && Follows(p, q)
  }

  lemma OwnerOwns(cfg: Config, servers: set<string>, h: int)
    requires cfg.replicaPoints > 0
    ensures OwnerOf(cfg, servers, h).None? <==> servers == {}
    ensures OwnerOf(cfg, servers, h).Some? ==>
              OwnsHash(cfg.hashFunc, cfg.replicaPoints, servers, h, OwnerOf(cfg, servers, h).value)
  {
    var ps := cfg.PointsOf(servers);
    if s :| s in servers {
      assert cfg.ReplicaPoint(s, 0) in ps;
    }
    if ps != {} {
      OwnerIsThere(ps, h);
      var p := Owner(ps, h);
      PointsAreReplicas(cfg, servers, p);
      forall q | IsReplica(cfg.hashFunc, cfg.replicaPoints, servers, q) && q != p
        ensures if p.hash >= h then q.hash < h || Follows(p, q) else q.hash < h && Follows(p, q)
      {
        PointsAreReplicas(cfg, servers, q);
        LessFollows(p, q);
      }
    }
  }

  lemma LessFollows(p: Point, q: Point)
    ensures Less(p, q) <==> Follows(p, q)
  {
    StrLessTotal(p.address, q.address);
  }

  lemma OwnerWhenAdding(ps: set<Point>, qs: set<Point>, h: int, p: Point, r: Point)
    requires IsOwner(ps, h, p) && IsOwner(ps + qs, h, r)
    ensures r == p || r in qs
  {
    if r !in qs {
      if q :| q in ps + qs && q.hash >= h {
        assert r.hash >= h;
        assert p.hash >= h;
      } else {
        assert forall q :: q in ps ==> q in ps + qs;
      }
      CompareTotal(p, r);
    }
  }

  /** Minimal disruption: a new server takes keys only to itself. */
  lemma AddMovesOnlyTo(cfg: Config, servers: set<string>, s: string, h: int)
    ensures var before, after := OwnerOf(cfg, servers, h), OwnerOf(cfg, servers + {s}, h);
            after == before || after == Some(s)
  {
    cfg.PointsOfAdd(servers, s);
    var ps, qs := cfg.PointsOf(servers), cfg.ReplicasUpTo(s, cfg.replicaPoints);
    if ps != {} {
      OwnerIsThere(ps, h);
      OwnerIsThere(ps + qs, h);
      OwnerWhenAdding(ps, qs, h, Owner(ps, h), Owner(ps + qs, h));
    } else if qs != {} {
      OwnerIsThere(ps + qs, h);
      assert Owner(ps + qs, h) in qs;
    }
  }

  /** Minimal disruption: removing a server moves only the keys it owned. */
  lemma RemoveMovesOnlyFrom(cfg: Config, servers: set<string>, s: string, h: int)
    requires OwnerOf(cfg, servers, h) != Some(s)
    ensures OwnerOf(cfg, servers - {s}, h) == OwnerOf(cfg, servers, h)
  {
    cfg.PointsOfRemove(servers, s);
    var ps, qs := cfg.PointsOf(servers), cfg.ReplicasUpTo(s, cfg.replicaPoints);
    if ps == {} {
      assert ps - qs == {};
    } else {
      OwnerIsThere(ps, h);
      var p := Owner(ps, h);
      assert p !in qs;
      assert p in ps - qs;
      OwnerIsThere(ps - qs, h);
      var r := Owner(ps - qs, h);
      assert IsOwner(ps - qs, h, p);
      OwnerUnique(ps - qs, h, p, r);
    }
  }

  /** A search in the sorted list finds the owner; the end of the list wraps to its first entry. */
  lemma SearchFindsOwner(s: seq<Entry>, ps: set<Point>, h: int, i: nat)
    requires Sorted(s) && Holds(s, ps) && IsLowerBound(s, Point(h, ""), i) && s != []
    ensures ps != {} && IsOwner(ps, h, s[if i < |s| then i else 0].key)
  {
    var p := s[if i < |s| then i else 0].key;
    assert p in Keys(s);
    forall k | 0 <= k < |s| ensures k < i <==> s[k].key.hash < h {
      EmptyAddressLeast(h, s[k].key);
      if i < k { SortedAt(s, Point(h, ""), i, k); }
    }
    forall q | q in ps && (q.hash >= h || i == |s|) ensures q == p || Less(p, q) {
      var k :| 0 <= k < |s| && s[k].key == q;
    }
    if q :| q in ps && q.hash >= h {
      var k :| 0 <= k < |s| && s[k].key == q;
    }
  }

  lemma SortedAt(s: seq<Entry>, key: Point, i: nat, k: nat)
    requires Sorted(s) && i < k < |s| && !Less(s[i].key, key)
    ensures !Less(s[k].key, key)
  {
    if Less(s[k].key, key) {
      LessTrans(s[i].key, s[k].key, key);
    }
  }

  // ---- preference lists ----

  /** The servers met on one clockwise lap from position `i`. */
  function Lap(s: seq<Entry>, i: nat): seq<string>
    requires i <= |s|
  {
    Values(s[i..]) + Values(s[..i])
  }

  function Values(s: seq<Entry>): (vs: seq<string>)
    ensures |vs| == |s| && forall k :: 0 <= k < |s| ==> vs[k] == s[k].value
  {
    seq(|s|, k requires 0 <= k < |s| => s[k].value)
  }

  /** Where a clockwise walk for hash `h` starts; the end of the list if nothing is at or after `h`. */
  ghost function StartOf(s: seq<Entry>, h: int): (i: nat)
    ensures IsLowerBound(s, Point(h, ""), i)
  {
    if s == [] || !Less(s[0].key, Point(h, "")) then 0
    else
      var i := StartOf(s[1..], h);
      assert forall k :: 1 <= k <= i ==> s[k] == s[1..][k - 1];
      1 + i
  }

  /** The full preference list of hash `h`. */
  ghost function Preferences(s: seq<Entry>, h: int): seq<string> {
    Distinct(Lap(s, StartOf(s, h)))
  }

  /** First occurrences, in order. */
  function Distinct(w: seq<string>): seq<string> {
    if w == [] then []
    else
      var d := Distinct(w[..|w| - 1]);
      if w[|w| - 1] in d then d else d + [w[|w| - 1]]
  }

  ghost predicate NoDuplicates(w: seq<string>) {
    forall i, j :: 0 <= i < j < |w| ==> w[i] != w[j]
  }

  lemma {:induction false} DistinctProps(w: seq<string>)
    ensures NoDuplicates(Distinct(w)) && (forall x :: x in Distinct(w) <==> x in w)
    ensures w != [] ==> Distinct(w) != [] && Distinct(w)[0] == w[0]
  {
    if w == [] {
    } else {
      var r, x := w[..|w| - 1], w[|w| - 1];
      DistinctProps(r);
      assert w == r + [x];
    }
  }

  lemma {:induction false} DistinctPrefix(w: seq<string>, k: nat)
    requires k <= |w|
    ensures Distinct(w[..k]) <= Distinct(w)
  {
    if k < |w| {
      var r := w[..|w| - 1];
      DistinctPrefix(r, k);
      assert r[..k] == w[..k];
    } else {
      assert w[..k] == w;
    }
  }

  lemma {:induction false} SizeOfDistinct(w: seq<string>, xs: set<string>)
    requires NoDuplicates(w) && forall x :: x in w <==> x in xs
    ensures |w| == |xs|
  {
    if w != [] {
      var r, x := w[..|w| - 1], w[|w| - 1];
      assert w == r + [x];
      SizeOfDistinct(r, xs - {x});
    } else {
      assert xs == {};
    }
  }

  /** The servers whose points a list holds are those of the ring. */
  lemma ServersOf(cfg: Config, s: seq<Entry>, servers: set<string>)
    requires Holds(s, cfg.PointsOf(servers)) && cfg.replicaPoints > 0
    ensures forall x :: x in Values(s) <==> x in servers
  {
    forall x | x in Values(s) ensures x in servers {
      var k :| 0 <= k < |s| && s[k].value == x;
      assert s[k].key in Keys(s);
    }
    forall x | x in servers ensures x in Values(s) {
      var p := cfg.ReplicaPoint(x, 0);
      assert p in cfg.PointsOf(servers);
      var k :| 0 <= k < |s| && s[k].key == p;
      assert Values(s)[k] == x;
    }
  }

  lemma LapMembers(s: seq<Entry>, i: nat)
    requires i <= |s|
    ensures forall x :: x in Lap(s, i) <==> x in Values(s)
  {
    var l := Lap(s, i);
    forall k | 0 <= k < |s| ensures Values(s)[k] in l {
      if k >= i { assert l[k - i] == s[k].value; } else { assert l[|s| - i + k] == s[k].value; }
    }
    forall k | 0 <= k < |l| ensures l[k] in Values(s) {
      assert l[k] == Values(s)[if k < |s| - i then i + k else k - (|s| - i)];
    }
  }

  /** A full preference list names every server once. */
  lemma PreferencesComplete(cfg: Config, s: seq<Entry>, servers: set<string>, i: nat)
    requires Holds(s, cfg.PointsOf(servers)) && cfg.replicaPoints > 0 && i <= |s|
    ensures var prefs := Distinct(Lap(s, i));
            NoDuplicates(prefs) && |prefs| == |servers| && forall x :: x in prefs <==> x in servers
  {
    ServersOf(cfg, s, servers);
    LapMembers(s, i);
    DistinctProps(Lap(s, i));
    SizeOfDistinct(Distinct(Lap(s, i)), servers);
  }

  // ---- removing a server from preference lists ----

  function Drop(w: seq<string>, x: string): seq<string> {
    if w == [] then []
    else
      var d := Drop(w[..|w| - 1], x);
      if w[|w| - 1] == x then d else d + [w[|w| - 1]]
  }

  function DropEntries(s: seq<Entry>, x: string): seq<Entry> {
    if s == [] then []
    else
      var d := DropEntries(s[..|s| - 1], x);
      if s[|s| - 1].value == x then d else d + [s[|s| - 1]]
  }

  lemma {:induction false} DropIn(w: seq<string>, x: string)
    ensures forall y :: y in Drop(w, x) <==> y in w && y != x
  {
    if w == [] {
    } else {
      DropIn(w[..|w| - 1], x);
      assert w == w[..|w| - 1] + [w[|w| - 1]];
    }
  }

  lemma {:induction false} DropConcat(v: seq<string>, w: seq<string>, x: string)
    ensures Drop(v + w, x) == Drop(v, x) + Drop(w, x)
  {
    if w == [] {
      assert v + w == v;
    } else {
      assert (v + w)[..|v + w| - 1] == v + w[..|w| - 1];
      DropConcat(v, w[..|w| - 1], x);
    }
  }

  lemma Snoc(w: seq<string>, y: string, x: string)
    ensures Drop(w + [y], x) == if y == x then Drop(w, x) else Drop(w, x) + [y]
    ensures Distinct(w + [y]) == if y in Distinct(w) then Distinct(w) else Distinct(w) + [y]
  {
    var v := w + [y];
    assert v[..|v| - 1] == w && v[|v| - 1] == y;
  }

  lemma {:induction false} DropDistinct(w: seq<string>, x: string)
    ensures Distinct(Drop(w, x)) == Drop(Distinct(w), x)
  {
    if w == [] {
    } else {
      var r, y := w[..|w| - 1], w[|w| - 1];
      assert w == r + [y];
      DropDistinct(r, x);
      DropIn(Distinct(r), x);
      Snoc(r, y, x);
      Snoc(Distinct(r), y, x);
      Snoc(Drop(r, x), y, x);
    }
  }

  lemma KeysSnoc(s: seq<Entry>, e: Entry)
    ensures Keys(s + [e]) == Keys(s) + {e.key}
  {
    var t := s + [e];
    assert t[|s|] == e;
    forall i | 0 <= i < |s| ensures s[i].key in Keys(t) { assert t[i] == s[i]; }
  }

  lemma EntriesSnoc(s: seq<Entry>, e: Entry, x: string)
    ensures DropEntries(s + [e], x) == if e.value == x then DropEntries(s, x) else DropEntries(s, x) + [e]
    ensures Values(s + [e]) == Values(s) + [e.value]
  {
    var v := s + [e];
    assert v[..|v| - 1] == s && v[|v| - 1] == e;
  }

  lemma {:induction false} DropEntriesProps(s: seq<Entry>, x: string, ps: set<Point>)
    requires Sorted(s) && Holds(s, ps)
    ensures Sorted(DropEntries(s, x))
    ensures Holds(DropEntries(s, x), set p | p in ps && p.address != x)
  {
    if s != [] {
      var r, e := s[..|s| - 1], s[|s| - 1];
      assert s == r + [e];
      var d := DropEntries(r, x);
      DropEntriesProps(r, x, Keys(r));
      EntriesSnoc(r, e, x);
      KeysSnoc(r, e);
      KeysSnoc(d, e);
      DropSorted(r, e, d);
      assert e == s[|r|] && e.value == e.key.address;
      assert ps == Keys(r) + {e.key};
      assert Holds(d, set p | p in Keys(r) && p.address != x);
    } else {
      assert Keys([]) == {};
    }
  }

  lemma DropSorted(r: seq<Entry>, e: Entry, d: seq<Entry>)
    requires Sorted(r + [e]) && Sorted(d) && Keys(d) <= Keys(r)
    ensures Sorted(d + [e])
  {
    var s := r + [e];
    assert s[|r|] == e;
    forall k | 0 <= k < |d| ensures Less(d[k].key, e.key) {
      assert d[k].key in Keys(d);
      var m :| 0 <= m < |r| && r[m].key == d[k].key;
      assert s[m] == r[m];
    }
  }

  lemma {:induction false} DropEntriesConcat(v: seq<Entry>, w: seq<Entry>, x: string)
    ensures DropEntries(v + w, x) == DropEntries(v, x) + DropEntries(w, x)
  {
    if w == [] {
      assert v + w == v;
    } else {
      assert (v + w)[..|v + w| - 1] == v + w[..|w| - 1];
      DropEntriesConcat(v, w[..|w| - 1], x);
    }
  }

  lemma {:induction false} DropEntriesIn(s: seq<Entry>, x: string)
    ensures forall e :: e in DropEntries(s, x) ==> e in s
    ensures Values(DropEntries(s, x)) == Drop(Values(s), x)
  {
    if s == [] {
    } else {
      DropEntriesIn(s[..|s| - 1], x);
      assert Values(s)[..|s| - 1] == Values(s[..|s| - 1]);
    }
  }

  /** Removing a server deletes it from every full preference list and leaves the rest in order. */
  lemma PreferencesAfterRemoval(cfg: Config, s: seq<Entry>, t: seq<Entry>, servers: set<string>, x: string,
                                h: int, i: nat, j: nat)
    requires Sorted(s) && Holds(s, cfg.PointsOf(servers)) && IsLowerBound(s, Point(h, ""), i)
    requires Sorted(t) && Holds(t, cfg.PointsOf(servers - {x})) && IsLowerBound(t, Point(h, ""), j)
    ensures Distinct(Lap(t, j)) == Drop(Distinct(Lap(s, i)), x)
  {
    var ps := cfg.PointsOf(servers);
    DropEntriesProps(s, x, ps);
    cfg.PointsOfRemove(servers, x);
    assert cfg.PointsOf(servers - {x}) == set p | p in ps && p.address != x;
    SortedUnique(t, DropEntries(s, x), cfg.PointsOf(servers - {x}));
    SplitDrop(s, x, Point(h, ""), i, t, j);
    DropConcat(Values(s[i..]), Values(s[..i]), x);
    DropDistinct(Lap(s, i), x);
  }

  lemma SplitDrop(s: seq<Entry>, x: string, key: Point, i: nat, t: seq<Entry>, j: nat)
    requires Sorted(s) && IsLowerBound(s, key, i)
    requires t == DropEntries(s, x) && IsLowerBound(t, key, j)
    ensures Values(t[j..]) == Drop(Values(s[i..]), x) && Values(t[..j]) == Drop(Values(s[..i]), x)
  {
    assert s == s[..i] + s[i..];
    DropEntriesConcat(s[..i], s[i..], x);
    DropEntriesIn(s[..i], x);
    DropEntriesIn(s[i..], x);
    DropKeepsSides(s, x, key, i);
    BoundOfParts(t, DropEntries(s[..i], x), DropEntries(s[i..], x), key, j);
  }

  lemma DropKeepsSides(s: seq<Entry>, x: string, key: Point, i: nat)
    requires Sorted(s) && IsLowerBound(s, key, i)
    ensures AllBelow(DropEntries(s[..i], x), key)
    ensures var b := DropEntries(s[i..], x); b != [] ==> !Less(b[0].key, key)
  {
    DropEntriesIn(s[..i], x);
    DropEntriesIn(s[i..], x);
    var a, b := DropEntries(s[..i], x), DropEntries(s[i..], x);
    forall k | 0 <= k < |a| ensures Less(a[k].key, key) {
      assert a[k] in s[..i];
    }
    if b != [] {
      assert b[0] in s[i..];
      var m :| i <= m < |s| && s[m] == b[0];
      if m > i { SortedAt(s, key, i, m); }
    }
  }

  lemma BoundOfParts(t: seq<Entry>, a: seq<Entry>, b: seq<Entry>, key: Point, j: nat)
    requires t == a + b && AllBelow(a, key) && (b != [] ==> !Less(b[0].key, key)) && IsLowerBound(t, key, j)
    ensures t[..j] == a && t[j..] == b
  {
    assert forall k :: 0 <= k < |a| ==> t[k] == a[k];
    assert b != [] ==> t[|a|] == b[0];
    LowerBoundUnique(t, key, |a|, j);
  }
}
