/** The composite operations of a node are runs of cluster steps, so what holds in every run holds across them. */
module Refinements {
  import opened Wrappers
  import opened Members
  import opened Merging
  import opened Disseminations
  import opened NodeModel
  import opened Nodes
  import opened Clusters
  import Memberships
  import Healing
  import Healers

  /** `steps` take cluster `cl` to cluster `d`. */
  ghost predicate Leads(cl: Cluster, steps: seq<Step>, d: Cluster)
    decreases |steps|
  {
    if steps == [] then cl == d else Enabled(cl, steps[0]) && Leads(After(cl, steps[0]), steps[1..], d)
  }

  lemma First(cl: Cluster, s: Step, steps: seq<Step>, d: Cluster)
    ensures Enabled(cl, s) && Leads(After(cl, s), steps, d) ==> Leads(cl, [s] + steps, d)
  {
    assert ([s] + steps)[1..] == steps;
  }

  /** Ownership and agreement survive any such run. */
  lemma {:induction false} LeadsKeepsInv(cl: Cluster, steps: seq<Step>, d: Cluster)
    requires Inv(cl) && Leads(cl, steps, d)
    ensures Inv(d)
    decreases |steps|
  {
    if steps == [] {
    } else {
      StepKeepsInv(cl, steps[0]);
      LeadsKeepsInv(After(cl, steps[0]), steps[1..], d);
    }
  }

  /** Any index can be listed. */
  lemma {:induction false} ListingExists(idx: Index) returns (l: seq<Change>)
    requires forall a :: a in idx ==> idx[a].address == a
    ensures Lists(l, idx)
    decreases |idx|
  {
    if idx == map[] {
      l := [];
    } else {
      var a :| a in idx;
      var rest := idx - {a};
      assert |rest| < |idx| by {
        assert rest.Keys == idx.Keys - {a};
        assert |rest.Keys| == |rest| && |idx.Keys| == |idx|;
      }
      l := ListingExists(rest);
      ListsSnoc(l, rest, idx[a]);
      assert rest[a := idx[a]] == idx;
      l := l + [idx[a]];
    }
  }

  lemma IssueStep(cl: Cluster, x: string, to: Option<Sender>, max: nat, l: seq<Change>)
    requires Known(cl, x) && Lists(l, ToIssue(cl.nodes[x].buffer, to, max))
    ensures var s := Issue(x, to, max, l);
            && Enabled(cl, s) && Known(After(cl, s), x) && After(cl, s).net == cl.net + {l}
            && After(cl, s).nodes == cl.nodes[x := cl.nodes[x].(buffer := Unspent(cl.nodes[x].buffer, to, max))]
  {
  }

  lemma FullSyncStep(cl: Cluster, x: string, l: seq<Change>)
    requires Known(cl, x) && Lists(l, FullSyncIndex(x, cl.nodes[x].view))
    ensures var s := FullSync(x, l);
            && Enabled(cl, s) && Known(After(cl, s), x)
            && After(cl, s).net == cl.net + {l} && After(cl, s).nodes == cl.nodes
  {
  }

  lemma CountStep(cl: Cluster, x: string, l: seq<Change>)
    requires Known(cl, x)
    ensures var s := Count(x, l);
            && Enabled(cl, s) && After(cl, s).net == cl.net
            && After(cl, s).nodes == cl.nodes[x := cl.nodes[x].(buffer := Bumped(cl.nodes[x].buffer, l))]
  {
  }

  lemma IssuedPart(n: NodeState, to: Sender, max: nat, differ: bool, changes: seq<Change>, fullSync: bool,
                   after: NodeState)
    requires Answer(n, to, max, differ, changes, fullSync, after)
    ensures Lists(if fullSync then [] else changes, ToIssue(n.buffer, Some(to), max))
    ensures fullSync ==> Lists(changes, FullSyncIndex(n.me, n.view))
    ensures after == n.(buffer := Bumped(Unspent(n.buffer, Some(to), max), changes))
  {
  }

  lemma CountIsLast(cl: Cluster, x: string, changes: seq<Change>) returns (steps: seq<Step>, d: Cluster)
    requires Known(cl, x)
    ensures Leads(cl, steps, d) && d.net == cl.net
    ensures d.nodes == cl.nodes[x := cl.nodes[x].(buffer := Bumped(cl.nodes[x].buffer, changes))]
  {
    CountStep(cl, x, changes);
    d := After(cl, Count(x, changes));
    First(cl, Count(x, changes), [], d);
    steps := [Count(x, changes)];
  }

  lemma SyncAndCount(cl: Cluster, x: string, changes: seq<Change>, fullSync: bool)
    returns (steps: seq<Step>, d: Cluster)
    requires Known(cl, x) && (fullSync ==> Lists(changes, FullSyncIndex(x, cl.nodes[x].view)))
    ensures Leads(cl, steps, d) && d.net == cl.net + if fullSync then {changes} else {}
    ensures d.nodes == cl.nodes[x := cl.nodes[x].(buffer := Bumped(cl.nodes[x].buffer, changes))]
  {
    if fullSync {
      FullSyncStep(cl, x, changes);
      var rest;
      rest, d := CountIsLast(After(cl, FullSync(x, changes)), x, changes);
      First(cl, FullSync(x, changes), rest, d);
      steps := [FullSync(x, changes)] + rest;
    } else {
      steps, d := CountIsLast(cl, x, changes);
    }
  }

  lemma IssuesAnswer(cl: Cluster, x: string, to: Sender, max: nat, differ: bool, changes: seq<Change>, fullSync: bool,
                     after: NodeState)
    requires Known(cl, x) && Answer(cl.nodes[x], to, max, differ, changes, fullSync, after)
    ensures var s := Issue(x, Some(to), max, if fullSync then [] else changes);
            && Enabled(cl, s) && Known(After(cl, s), x) && After(cl, s).net == cl.net + {s.l}
            && (fullSync ==> Lists(changes, FullSyncIndex(x, After(cl, s).nodes[x].view)))
            && After(cl, s).nodes[x := after] == cl.nodes[x := after]
            && after == After(cl, s).nodes[x].(buffer := Bumped(After(cl, s).nodes[x].buffer, changes))
  {
    IssuedPart(cl.nodes[x], to, max, differ, changes, fullSync, after);
    IssueStep(cl, x, Some(to), max, if fullSync then [] else changes);
  }

  lemma AnswerIsSteps(cl: Cluster, x: string, to: Sender, max: nat, differ: bool, changes: seq<Change>, fullSync: bool,
                      after: NodeState) returns (steps: seq<Step>, d: Cluster)
    requires Known(cl, x) && Answer(cl.nodes[x], to, max, differ, changes, fullSync, after)
    ensures Leads(cl, steps, d) && d.nodes == cl.nodes[x := after] && changes in d.net && cl.net <= d.net
  {
    var issue := Issue(x, Some(to), max, if fullSync then [] else changes);
    IssuesAnswer(cl, x, to, max, differ, changes, fullSync, after);
    var c := After(cl, issue);
    var rest;
    rest, d := SyncAndCount(c, x, changes, fullSync);
    First(cl, issue, rest, d);
    steps := [issue] + rest;
  }

  /** A handled ping: the changes are delivered, the answer is issued, a full list is sent if it is a full sync,
      and the sent changes are counted. */
  lemma PingIsSteps(cl: Cluster, x: string, l: seq<Change>, o: Oracle, to: Sender, max: nat, differ: bool,
                    changes: seq<Change>, fullSync: bool, after: NodeState) returns (steps: seq<Step>, d: Cluster)
    requires Enabled(cl, Deliver(x, l, o))
    requires Answer(Receive(cl.nodes[x], l, o), to, max, differ, changes, fullSync, after)
    ensures Leads(cl, steps, d) && d.nodes == cl.nodes[x := after] && changes in d.net && cl.net <= d.net
  {
    var c := After(cl, Deliver(x, l, o));
    var rest;
    rest, d := AnswerIsSteps(c, x, to, max, differ, changes, fullSync, after);
    First(cl, Deliver(x, l, o), rest, d);
    steps := [Deliver(x, l, o)] + rest;
  }

  /** Sending a ping is a step that puts its changes in flight. */
  lemma SendIsStep(cl: Cluster, x: string, body: PingBody, hashFunc: string -> int, max: nat, after: NodeState)
    returns (steps: seq<Step>, d: Cluster)
    requires Known(cl, x) && Sent(cl.nodes[x], body, hashFunc, max, after)
    ensures Leads(cl, steps, d) && d.nodes == cl.nodes[x := after] && d.net == cl.net + {body.changes.value}
  {
    var issue := Issue(x, None, max, body.changes.value);
    IssueStep(cl, x, None, max, body.changes.value);
    d := After(cl, issue);
    First(cl, issue, [], d);
    steps := [issue];
  }

  /** So are counting what was sent and applying the reply. */
  lemma ReplyIsSteps(cl: Cluster, x: string, err: bool, sent: seq<Change>, res: Option<seq<Change>>, o: Oracle)
    returns (steps: seq<Step>, d: Cluster)
    requires Ready(cl, x) && (res.Some? ==> res.value in cl.net) && forall i :: Advanced(cl, x, o.clock(i))
    ensures Leads(cl, steps, d) && d.nodes == cl.nodes[x := Replied(cl.nodes[x], err, sent, res, o)] && d.net == cl.net
  {
    if err {
      steps, d := [], cl;
      assert cl.nodes[x := cl.nodes[x]] == cl.nodes;
    } else if res.None? {
      steps, d := CountIsLast(cl, x, sent);
    } else {
      CountStep(cl, x, sent);
      var rest;
      rest, d := DeliverIsLast(After(cl, Count(x, sent)), x, res.value, o);
      First(cl, Count(x, sent), rest, d);
      steps := [Count(x, sent)] + rest;
    }
  }

  /** Merging join responses only repeats what is in flight. */
  lemma RelayStep(cl: Cluster, x: string, rs: seq<JoinResponse>, merged: seq<Change>)
    requires !SameChecksums(rs) && Joined(x, rs, merged) && forall i :: 0 <= i < |rs| ==> rs[i].members in cl.net
    ensures Enabled(cl, Relay(merged))
    ensures After(cl, Relay(merged)).nodes == cl.nodes && After(cl, Relay(merged)).net == cl.net + {merged}
  {
    forall c | c in merged ensures InFlight(cl, c) {
      var k :| 0 <= k < |merged| && merged[k] == c;
      MergeSetsRepeat(x, MembersOf(rs), c.address);
      var i :| 0 <= i < |MembersOf(rs)| && c in MembersOf(rs)[i];
      assert rs[i].members in cl.net && c in rs[i].members;
    }
  }

  lemma BootStep(cl: Cluster, x: string, stash: seq<seq<Change>>, updates: seq<Change>)
    returns (steps: seq<Step>, d: Cluster)
    requires Known(cl, x) && !cl.nodes[x].ready && Lists(updates, MergeSets(x, stash))
    requires forall i :: 0 <= i < |stash| ==> stash[i] in cl.net
    ensures Leads(cl, steps, d) && d.nodes == cl.nodes[x := Boot(cl.nodes[x], updates)] && d.net == cl.net
  {
    var boot := Bootstrap(x, stash, updates);
    d := After(cl, boot);
    First(cl, boot, [], d);
    steps := [boot];
    assert cl.net + {} == cl.net;
  }

  /** The end of a bootstrap is a run of cluster steps: the join responses are merged and stashed behind the lists
      received `before`, and `set()` makes members of the stash. */
  lemma BootIsSteps(cl: Cluster, x: string, before: seq<seq<Change>>, rs: seq<JoinResponse>, merged: seq<Change>,
                    updates: seq<Change>) returns (steps: seq<Step>, d: Cluster)
    requires Known(cl, x) && !cl.nodes[x].ready && Joined(x, rs, merged)
    requires forall i :: 0 <= i < |before| ==> before[i] in cl.net
    requires forall i :: 0 <= i < |rs| ==> rs[i].members in cl.net
    requires Lists(updates, MergeSets(x, Memberships.Stashed(Some(before), merged, false).value))
    ensures Leads(cl, steps, d) && d.nodes == cl.nodes[x := Boot(cl.nodes[x], updates)] && cl.net <= d.net
  {
    var stash := Memberships.Stashed(Some(before), merged, false).value;
    if SameChecksums(rs) {
      steps, d := BootStep(cl, x, stash, updates);
    } else {
      RelayStep(cl, x, rs, merged);
      steps, d := BootStep(After(cl, Relay(merged)), x, stash, updates);
      First(cl, Relay(merged), steps, d);
      steps := [Relay(merged)] + steps;
    }
  }

  lemma DeliverStep(cl: Cluster, x: string, l: seq<Change>, o: Oracle)
    requires Enabled(cl, Deliver(x, l, o))
    ensures var d := After(cl, Deliver(x, l, o));
            Known(d, x) && d.net == cl.net && d.nodes == cl.nodes[x := Receive(cl.nodes[x], l, o)]
  {
    assert cl.(net := cl.net + {}) == cl;
  }

  lemma DeliverIsLast(cl: Cluster, x: string, l: seq<Change>, o: Oracle) returns (steps: seq<Step>, d: Cluster)
    requires Enabled(cl, Deliver(x, l, o))
    ensures Leads(cl, steps, d) && d.net == cl.net && d.nodes == cl.nodes[x := Receive(cl.nodes[x], l, o)]
  {
    DeliverStep(cl, x, l, o);
    d := After(cl, Deliver(x, l, o));
    First(cl, Deliver(x, l, o), [], d);
    steps := [Deliver(x, l, o)];
  }

  /** Suspicions repeat incarnations that are in flight. */
  lemma SuspicionsStep(cl: Cluster, l: seq<Change>, v: View, w: View, claims: seq<Change>)
    requires Lists(l, Healing.Suspicions(v, w)) && Healing.ListsView(claims, w) && claims in cl.net
    ensures var s := Suspicions(l);
            Enabled(cl, s) && After(cl, s).net == cl.net + {l} && After(cl, s).nodes == cl.nodes
  {
    forall c | c in l ensures c.status.Suspect? && Seen(cl, c.address, c.incarnation) {
      var i :| 0 <= i < |l| && l[i] == c;
      assert c == Healing.CreateSuspectChange(c.address, w[c.address]);
      var k :| 0 <= k < |claims| && claims[k].address == c.address;
      assert claims[k] in claims && InFlight(cl, claims[k]);
    }
  }

  /** A conflict-free attempt: the reply is delivered, and the own list is sent. */
  lemma MergeIsSteps(cl: Cluster, a: string, lb: seq<Change>, o: Oracle, sent: seq<Change>)
    returns (steps: seq<Step>, d: Cluster)
    requires Enabled(cl, Deliver(a, lb, o))
    requires Lists(sent, FullSyncIndex(a, Receive(cl.nodes[a], lb, o).view))
    ensures Leads(cl, steps, d) && d.nodes == cl.nodes[a := Receive(cl.nodes[a], lb, o)]
    ensures sent in d.net && cl.net <= d.net
  {
    DeliverStep(cl, a, lb, o);
    var c := After(cl, Deliver(a, lb, o));
    FullSyncStep(c, a, sent);
    d := After(c, FullSync(a, sent));
    First(c, FullSync(a, sent), [], d);
    First(cl, Deliver(a, lb, o), [FullSync(a, sent)], d);
    steps := [Deliver(a, lb, o), FullSync(a, sent)];
    assert steps == [Deliver(a, lb, o)] + [FullSync(a, sent)];
  }

  /** The suspicions against the healer, made and delivered if there are any. */
  lemma OwnSuspicions(cl: Cluster, a: string, forA: seq<Change>, w: View, claims: seq<Change>, o: Oracle)
    returns (steps: seq<Step>, d: Cluster)
    requires Ready(cl, a) && forall i :: Advanced(cl, a, o.clock(i))
    requires Lists(forA, Healing.Suspicions(cl.nodes[a].view, w)) && Healing.ListsView(claims, w) && claims in cl.net
    ensures Leads(cl, steps, d) && cl.net <= d.net
    ensures d.nodes == cl.nodes[a := if forA == [] then cl.nodes[a] else Receive(cl.nodes[a], forA, o)]
  {
    if forA == [] {
      steps, d := [], cl;
      assert cl.nodes[a := cl.nodes[a]] == cl.nodes;
    } else {
      SuspicionsStep(cl, forA, cl.nodes[a].view, w, claims);
      steps, d := DeliverIsLast(After(cl, Suspicions(forA)), a, forA, o);
      First(cl, Suspicions(forA), steps, d);
      steps := [Suspicions(forA)] + steps;
    }
  }

  /** The suspicions against the target, which rest on the healer's own list. */
  lemma OtherSuspicions(cl: Cluster, a: string, forB: seq<Change>, w: View) returns (own: seq<Change>, c: Cluster)
    requires Known(cl, a) && Lists(forB, Healing.Suspicions(w, cl.nodes[a].view))
    ensures Enabled(cl, FullSync(a, own)) && Enabled(After(cl, FullSync(a, own)), Suspicions(forB))
    ensures c == After(After(cl, FullSync(a, own)), Suspicions(forB))
    ensures c.nodes == cl.nodes && cl.net <= c.net && forB in c.net
  {
    var v := cl.nodes[a].view;
    own := ListingExists(FullSyncIndex(a, v));
    Healers.FullSyncListsView(own, a, v);
    FullSyncStep(cl, a, own);
    SuspicionsStep(After(cl, FullSync(a, own)), forB, w, v, own);
    c := After(After(cl, FullSync(a, own)), Suspicions(forB));
  }

  lemma SuspectBoth(cl: Cluster, a: string, w: View, lb: seq<Change>, forA: seq<Change>, forB: seq<Change>, o: Oracle)
    returns (steps: seq<Step>, d: Cluster)
    requires Enabled(cl, Deliver(a, lb, o)) && Healing.ListsView(lb, w)
    requires Lists(forA, Healing.Suspicions(cl.nodes[a].view, w))
    requires Lists(forB, Healing.Suspicions(w, cl.nodes[a].view))
    ensures Leads(cl, steps, d) && forB in d.net
    ensures d.nodes == cl.nodes[a := if forA == [] then cl.nodes[a] else Receive(cl.nodes[a], forA, o)]
  {
    var own, c := OtherSuspicions(cl, a, forB, w);
    steps, d := OwnSuspicions(c, a, forA, w, lb, o);
    First(After(cl, FullSync(a, own)), Suspicions(forB), steps, d);
    steps := [Suspicions(forB)] + steps;
    First(cl, FullSync(a, own), steps, d);
    steps := [FullSync(a, own)] + steps;
  }

  /** A heal attempt, from the target's reply on, is a run of cluster steps. */
  lemma HealIsSteps(cl: Cluster, a: string, w: View, lb: seq<Change>, o: Oracle, after: NodeState,
                    sent: Option<seq<Change>>)
    returns (steps: seq<Step>, d: Cluster)
    requires Enabled(cl, Deliver(a, lb, o)) && Healing.ListsView(lb, w)
    requires Healers.Attempted(cl.nodes[a], lb, o, after, sent)
    ensures Leads(cl, steps, d) && d.nodes == cl.nodes[a := after] && (sent.Some? ==> sent.value in d.net)
  {
    var v := cl.nodes[a].view;
    var forA, forB := Healing.AgainstOwn(v, lb), Healing.AgainstTheirs(v, lb);
    Healing.GeneratedOnce(v, lb, w);
    if forA == [] && forB == [] {
      steps, d := MergeIsSteps(cl, a, lb, o, sent.value);
    } else {
      steps, d := SuspectBoth(cl, a, w, lb, forA, forB, o);
    }
  }
}
