/** Partition healing (lib/partition_healing/healer.js:82-178). */
module Healing {
  import opened Wrappers
  import opened Members
  import opened Merging
  import opened Disseminations
  import opened NodeModel
  import opened Exchanges
  import opened Checksums

  /** `nodeWouldBecomeUnPingable` */
  predicate NodeWouldBecomeUnPingable(currentState: State, newState: State) {
    if !IsStatusPingable(currentState.status) then false
    else if IsStatusPingable(newState.status) then false
    else if currentState.incarnation > newState.incarnation then false
    else if currentState.incarnation < newState.incarnation then true
    else StatusPrecedence(newState.status) > StatusPrecedence(currentState.status)
  }

  /** It answers exactly whether the update rules would turn a pingable entry unpingable. */
  lemma UnPingableMeans(a: string, cur: State, c: Change)
    ensures NodeWouldBecomeUnPingable(cur, StateOf(c)) <==>
            && cur.status in {Alive, Suspect} && ShouldProcessGossip(Some(cur), c)
            && c.status in {Faulty, Leave, Tombstone}
  {
  }

  /** `createSuspectChange` */
  function CreateSuspectChange(a: string, s: State): Change {
    Change(a, s.incarnation, Suspect, None, None, None)
  }

  /** The addresses at which applying `w` to `v` would lose a pingable member. */
  predicate Conflicts(v: View, w: View, a: string) {
    a in v && a in w && NodeWouldBecomeUnPingable(v[a], w[a])
  }

  /** The suspicions that a side with entries `v` gets against the claims `w`. */
  function Suspicions(v: View, w: View): Index {
    map a | a in v && Conflicts(v, w, a) :: CreateSuspectChange(a, w[a])
  }

  ghost predicate ListsView(l: seq<Change>, w: View) {
    && DistinctAddresses(l)
    && (forall i :: 0 <= i < |l| ==> l[i].address in w && StateOf(l[i]) == w[l[i].address])
    && (forall a :: a in w ==> exists i :: 0 <= i < |l| && l[i].address == a)
  }

  /** The suspicions that the claims of the other side's list `l` raise against the entries `v`, claim by claim. */
  function AgainstOwn(v: View, l: seq<Change>): seq<Change> {
    if l == [] then []
    else
      var r, c := AgainstOwn(v, l[..|l| - 1]), l[|l| - 1];
      if c.address in v && NodeWouldBecomeUnPingable(v[c.address], StateOf(c))
      then r + [CreateSuspectChange(c.address, StateOf(c))] else r
  }

  /** The suspicions that the entries `v` raise against the claims of `l`. */
  function AgainstTheirs(v: View, l: seq<Change>): seq<Change> {
    if l == [] then []
    else
      var r, c := AgainstTheirs(v, l[..|l| - 1]), l[|l| - 1];
      if c.address in v && NodeWouldBecomeUnPingable(StateOf(c), v[c.address])
      then r + [CreateSuspectChange(c.address, v[c.address])] else r
  }

  ghost function Rest(l: seq<Change>, k: nat): set<string> {
    set i | k <= i < |l| :: l[i].address
  }

  lemma RestStep(l: seq<Change>, k: nat, idx: Index)
    requires DistinctAddresses(l) && k < |l|
    ensures Rest(l, k) == Rest(l, k + 1) + {l[k].address} && l[k].address !in Rest(l, k + 1)
    ensures l[k].address !in idx ==> idx - Rest(l, k + 1) == idx - Rest(l, k)
    ensures l[k].address in idx ==> idx - Rest(l, k + 1) == (idx - Rest(l, k))[l[k].address := idx[l[k].address]]
  {
  }

  /** The loop of `generateChanges`, over the members of B; the list may repeat an address. */
  method GenerateChanges(v: View, membershipB: seq<Change>)
    returns (changesForA: seq<Change>, changesForB: seq<Change>)
    ensures changesForA == AgainstOwn(v, membershipB) && changesForB == AgainstTheirs(v, membershipB)
  {
    changesForA, changesForB := [], [];
    for i := 0 to |membershipB|
      invariant changesForA == AgainstOwn(v, membershipB[..i]) && changesForB == AgainstTheirs(v, membershipB[..i])
    {
      assert membershipB[..i + 1][..i] == membershipB[..i];
      var b := membershipB[i];
      if b.address !in v {
        continue;
      }
      var a := v[b.address];
      if NodeWouldBecomeUnPingable(a, StateOf(b)) {
        changesForA := changesForA + [CreateSuspectChange(b.address, StateOf(b))];
      }
      if NodeWouldBecomeUnPingable(StateOf(b), a) {
        changesForB := changesForB + [CreateSuspectChange(b.address, a)];
      }
    }
    assert membershipB[..|membershipB|] == membershipB;
  }

  /** From a list with one claim per entry of `w`, they are the suspicions of both sides, each address once. */
  lemma GeneratedOnce(v: View, l: seq<Change>, w: View)
    requires ListsView(l, w)
    ensures Lists(AgainstOwn(v, l), Suspicions(v, w)) && Lists(AgainstTheirs(v, l), Suspicions(w, v))
  {
    GeneratedUpTo(v, l, w, |l|);
    assert l[..|l|] == l;
    assert Suspicions(v, w) - Rest(l, |l|) == Suspicions(v, w);
    assert Suspicions(w, v) - Rest(l, |l|) == Suspicions(w, v);
  }

  lemma {:induction false} GeneratedUpTo(v: View, l: seq<Change>, w: View, k: nat)
    requires ListsView(l, w) && k <= |l|
    ensures Lists(AgainstOwn(v, l[..k]), Suspicions(v, w) - Rest(l, k))
    ensures Lists(AgainstTheirs(v, l[..k]), Suspicions(w, v) - Rest(l, k))
  {
    if k == 0 {
      GeneratedNothing(v, l, w);
    } else {
      var i, b := k - 1, l[k - 1];
      GeneratedUpTo(v, l, w, i);
      assert l[..k][..i] == l[..i];
      RestStep(l, i, Suspicions(v, w));
      RestStep(l, i, Suspicions(w, v));
      if b.address in v {
        ListsSnoc(AgainstOwn(v, l[..i]), Suspicions(v, w) - Rest(l, i), CreateSuspectChange(b.address, StateOf(b)));
        ListsSnoc(AgainstTheirs(v, l[..i]), Suspicions(w, v) - Rest(l, i),
          CreateSuspectChange(b.address, v[b.address]));
      }
    }
  }

  lemma GeneratedNothing(v: View, l: seq<Change>, w: View)
    requires ListsView(l, w)
    ensures Suspicions(v, w) - Rest(l, 0) == map[] && Suspicions(w, v) - Rest(l, 0) == map[]
  {
    forall a | a in w ensures a in Rest(l, 0) {
      var i :| 0 <= i < |l| && l[i].address == a;
    }
    assert (Suspicions(v, w) - Rest(l, 0)).Keys == {};
    assert (Suspicions(w, v) - Rest(l, 0)).Keys == {};
  }

  // ---- safety for any reply ----

  /** No claim of `l` would turn a pingable entry unpingable. */
  ghost predicate Harmless(v: View, l: seq<Change>) {
    forall i :: 0 <= i < |l| && l[i].address in v ==> !NodeWouldBecomeUnPingable(v[l[i].address], StateOf(l[i]))
  }

  /** Suspicions are harmless, and no suspicions means that the list itself is. */
  lemma {:induction false} AgainstOwnHarmless(v: View, l: seq<Change>)
    ensures var r := AgainstOwn(v, l);
            && (forall i :: 0 <= i < |r| ==> r[i].status.Suspect?)
            && Harmless(v, if r == [] then l else r)
  {
    if l == [] {
    } else {
      AgainstOwnHarmless(v, l[..|l| - 1]);
      assert forall i :: 0 <= i < |l| - 1 ==> l[i] == l[..|l| - 1][i];
    }
  }

  /** A harmless list, however often it repeats an address, leaves every pingable entry pingable. */
  lemma {:induction false} HarmlessKeeps(v: View, me: string, l: seq<Change>, o: Oracle, a: string)
    requires me in v && Harmless(v, l) && Pingable(v, a)
    ensures var w := UpdateAll(v, me, l, o).view;
            Pingable(w, a) && (a != me ==> w[a] == v[a] || Overrides(w[a], v[a]))
  {
    if l == [] {
    } else {
      var n := |l| - 1;
      HarmlessKeeps(v, me, l[..n], o, a);
      var w, c := UpdateAll(v, me, l[..n], o).view, l[n];
      if c.address == a != me && Overrides(StateOf(c), w[a]) && w[a] != v[a] {
        OverridesTrans(StateOf(c), w[a], v[a]);
      }
    }
  }

  // ---- safety on both sides ----

  /** Applying the suspicions makes no pingable member unpingable. A conflicting member ends suspect at exactly
      the accuser's incarnation; the receiving node itself refutes instead, unless it says so already. Nobody
      else changes. */
  lemma ConflictOutcome(v: View, me: string, w: View, now: int, a: string)
    requires me in v && a in v
    ensures var r := Met(v, me, Suspicions(v, w), now);
            && a in r && (Pingable(v, a) ==> Pingable(r, a))
            && (if !Conflicts(v, w, a) then r[a] == v[a]
                else if a == me && v[a] != State(w[a].incarnation, Suspect) then r[a] == State(now, v[a].status)
                else r[a] == State(w[a].incarnation, Suspect))
  {
  }

  /** No conflict on either side. */
  predicate NoConflicts(va: View, vb: View) {
    Suspicions(va, vb) == map[] && Suspicions(vb, va) == map[]
  }

  lemma NoConflictsAt(va: View, vb: View, x: string)
    requires NoConflicts(va, vb)
    ensures !Conflicts(va, vb, x) && !Conflicts(vb, va, x)
  {
    assert x !in Suspicions(va, vb) && x !in Suspicions(vb, va);
  }

  /** Without conflicts, merging the target's list makes no pingable member of the healer unpingable. */
  lemma MergeSafeForA(va: View, a: string, vb: View, b: string, nowA: int, x: string)
    requires a in va && NoConflicts(va, vb)
    ensures Pingable(va, x) ==> Pingable(FirstMeets(va, a, vb, b, nowA), x)
  {
    NoConflictsAt(va, vb, x);
  }

  /** The target claims the unpingable healer pingable at a newer incarnation, and the healer's refutation
      overrides that. */
  predicate RefutedUnPingable(va: View, a: string, vb: View, nowA: int)
    requires a in va
  {
    && a in vb && IsStatusPingable(vb[a].status) && !IsStatusPingable(va[a].status)
    && vb[a].incarnation > va[a].incarnation && Overrides(State(nowA, va[a].status), vb[a])
  }

  lemma MergeAtB(va: View, a: string, vb: View, b: string, nowA: int, nowB: int, x: string)
    requires a in va && b in vb && a != b && NoConflicts(va, vb)
    ensures var va' := FirstMeets(va, a, vb, b, nowA);
            (Pingable(vb, x) && !Pingable(FirstMeets(vb, b, va', a, nowB), x)) <==>
              (x == a && RefutedUnPingable(va, a, vb, nowA))
  {
    NoConflictsAt(va, vb, x);
    if x in va && x in vb {
      OverridesTotal(va[x], vb[x]);
    }
    var va' := FirstMeets(va, a, vb, b, nowA);
    if x == a && a in vb {
      assert va'[a] == if Overrides(vb[a], va[a]) then State(nowA, va[a].status) else va[a];
      assert FirstMeets(vb, b, va', a, nowB)[a] == if Overrides(va'[a], vb[a]) then va'[a] else vb[a];
    }
  }

  /** Sending the merged list back is safe for the target exactly when the healer had no such claim to refute. */
  lemma MergeSafeForB(va: View, a: string, vb: View, b: string, nowA: int, nowB: int)
    requires a in va && b in vb && a != b && NoConflicts(va, vb)
    ensures var va' := FirstMeets(va, a, vb, b, nowA);
            (forall x :: Pingable(vb, x) ==> Pingable(FirstMeets(vb, b, va', a, nowB), x)) <==>
              !RefutedUnPingable(va, a, vb, nowA)
  {
    var vb' := FirstMeets(vb, b, FirstMeets(va, a, vb, b, nowA), a, nowB);
    forall x | Pingable(vb, x) && !RefutedUnPingable(va, a, vb, nowA) ensures Pingable(vb', x) {
      MergeAtB(va, a, vb, b, nowA, nowB, x);
    }
    MergeAtB(va, a, vb, b, nowA, nowB, a);
  }

  /** Nobody knows a newer incarnation of the healer than the healer itself, so the merge is safe for both. */
  lemma MergeSafe(va: View, a: string, vb: View, b: string, nowA: int, nowB: int)
    requires a in va && b in vb && a != b && NoConflicts(va, vb)
    requires a in vb ==> vb[a].incarnation <= va[a].incarnation
    ensures var va' := FirstMeets(va, a, vb, b, nowA);
            && (forall x :: Pingable(va, x) ==> Pingable(va', x))
            && (forall x :: Pingable(vb, x) ==> Pingable(FirstMeets(vb, b, va', a, nowB), x))
  {
    forall x ensures Pingable(va, x) ==> Pingable(FirstMeets(va, a, vb, b, nowA), x) {
      MergeSafeForA(va, a, vb, b, nowA, x);
    }
    MergeSafeForB(va, a, vb, b, nowA, nowB);
  }

  /** After a merge both sides have the same live entries, except that the target may have refuted. */
  lemma MergeAgrees(va: View, a: string, vb: View, b: string, nowA: int, nowB: int, x: string)
    requires a in va && b in vb && a != b
    requires a in vb ==> nowA > vb[a].incarnation
    ensures var va' := FirstMeets(va, a, vb, b, nowA);
            var vb' := FirstMeets(vb, b, va', a, nowB);
            if x == b && b in va && Overrides(va[b], vb[b]) then vb'[b] == State(nowB, vb[b].status)
            else LiveState(va', x) == LiveState(vb', x)
  {
    if x in va && x in vb {
      OverridesTotal(va[x], vb[x]);
    }
  }
}
