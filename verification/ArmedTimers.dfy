/** Every suspect, faulty or tombstone member has the timer that moves it on (lib/gossip/state_transitions.js:55-136,
    lib/on_membership_event.js:56-80, 113-121). */
module ArmedTimers {
  import opened Members
  import opened Merging
  import opened Transitions
  import opened Disseminations
  import opened NodeModel
  import opened Clusters

  // ---- one list of updates ----

  lemma ReactsLater(t0: Timers, t1: Timers, t2: Timers, enabled: bool, me: string, u: Change, addresses: set<string>)
    requires OthersStay(t1, addresses, t2) && u.address !in addresses
    ensures ReactsAt(t0, enabled, me, u, t1) <==> ReactsAt(t0, enabled, me, u, t2)
  {
  }

  /** After updates with distinct addresses, every address has reacted to its own update, and no other has. */
  lemma {:induction false} AllReact(timers: Timers, enabled: bool, me: string, updates: seq<Change>)
    requires DistinctAddresses(updates)
    ensures var after := HandledAll(timers, enabled, me, updates);
            && (forall i :: 0 <= i < |updates| ==> ReactsAt(timers, enabled, me, updates[i], after))
            && OthersStay(timers, Addresses(updates), after)
  {
    if updates == [] {
    } else {
      var n := |updates| - 1;
      var rest, u := updates[..n], updates[n];
      AllReact(timers, enabled, me, rest);
      AddressesSnoc(updates, n);
      assert updates[..n + 1] == updates;
      var before, after := HandledAll(timers, enabled, me, rest), HandledAll(timers, enabled, me, updates);
      HandledReacts(before, enabled, me, u);
      forall i | 0 <= i < |updates| ensures ReactsAt(timers, enabled, me, updates[i], after) {
        if i < n {
          assert rest[i] == updates[i];
          ReactsLater(timers, before, after, enabled, me, updates[i], {u.address});
        } else {
          assert u.address !in Addresses(rest);
        }
      }
    }
  }

  /** The same for a received list with distinct addresses: whoever an applied update calls suspect, faulty or tombstone
      has a timer in that status, and whoever it calls alive or gone has none. */
  lemma ReceiveReacts(n: NodeState, changes: seq<Change>, o: Oracle)
    requires n.me in n.view && DistinctAddresses(changes)
    ensures var us, after := UpdateAll(n.view, n.me, changes, o).updates, Receive(n, changes, o).timers;
            && (forall u :: u in us ==> ReactsAt(n.timers, n.enabled, n.me, u, after))
            && OthersStay(n.timers, Addresses(us), after)
  {
    UpdatesAddresses(n.view, n.me, changes, o);
    AllReact(n.timers, n.enabled, n.me, UpdateAll(n.view, n.me, changes, o).updates);
  }

  // ---- any list ----

  /** Whoever is suspect, faulty or tombstone has a timer in that status, the node itself apart. */
  ghost predicate Armed(v: View, timers: Timers, me: string) {
    forall a :: a in v && a != me && v[a].status in {Suspect, Faulty, Tombstone} ==>
      a in timers && timers[a].state == v[a].status
  }

  lemma ArmedAfterOne(v: View, timers: Timers, me: string, u: Change, w: View)
    requires Armed(v, timers, me) && w == v[u.address := StateOf(u)]
    ensures Armed(w, Handled(timers, true, me, u), me)
  {
    HandledReacts(timers, true, me, u);
  }

  lemma {:induction false} ArmedAfterUpdates(v: View, timers: Timers, me: string, changes: seq<Change>, o: Oracle)
    requires me in v && Armed(v, timers, me)
    ensures var r := UpdateAll(v, me, changes, o); Armed(r.view, HandledAll(timers, true, me, r.updates), me)
  {
    if changes == [] {
    } else {
      ArmedAfterUpdates(v, timers, me, changes[..|changes| - 1], o);
      LastChange(v, me, changes, o);
      var before, after := UpdateAll(v, me, changes[..|changes| - 1], o), UpdateAll(v, me, changes, o);
      if after != before {
        var u := after.updates[|after.updates| - 1];
        HandledSnoc(timers, true, me, before.updates, u);
        ArmedAfterOne(before.view, HandledAll(timers, true, me, before.updates), me, u, after.view);
      }
    }
  }

  // ---- every step of a node ----

  /** A node with enabled transitions has all its timers. */
  ghost predicate AllArmed(n: NodeState) {
    n.enabled ==> Armed(n.view, n.timers, n.me)
  }

  lemma ReceiveKeepsArmed(n: NodeState, changes: seq<Change>, o: Oracle)
    requires n.me in n.view && AllArmed(n)
    ensures AllArmed(Receive(n, changes, o))
  {
    if n.enabled {
      ArmedAfterUpdates(n.view, n.timers, n.me, changes, o);
    }
  }

  lemma SetLocalKeepsArmed(n: NodeState, status: Status, now: int, id: nat)
    requires AllArmed(n)
    ensures AllArmed(SetLocal(n, status, now, id))
  {
    var m := if status.Leave? && n.me in n.view then n.(enabled := false, timers := map[]) else n;
    var u := Refutation(n.me, status, now, id);
    assert [u][..0] == [];
    assert HandledAll(m.timers, m.enabled, n.me, [u]) == Handled(m.timers, m.enabled, n.me, u);
    HandledReacts(m.timers, m.enabled, n.me, u);
  }

  lemma FireKeepsArmed(n: NodeState, a: string, id: nat, now: int, newId: nat)
    requires n.me in n.view && a in n.timers && AllArmed(n)
    ensures AllArmed(Fire(n, a, id, now, newId))
  {
    var t := n.timers[a];
    var m := n.(timers := n.timers[a := t.(pending := false)]);
    assert AllArmed(m);
    if !t.state.Tombstone? {
      ReceiveKeepsArmed(m, [Declared(n.view, n.me, a, t.incarnation, TargetOf(t.state), id)],
        Oracle(i => now, i => newId));
    }
  }

  lemma BootKeepsArmed(n: NodeState, updates: seq<Change>)
    requires DistinctAddresses(updates) && n.view.Keys == {n.me} && AllArmed(n)
    ensures AllArmed(Boot(n, updates))
  {
    if n.enabled {
      AllReact(n.timers, true, n.me, updates);
      var after := HandledAll(n.timers, true, n.me, updates);
      var w := n.view + Live(updates);
      forall a | a in w && a != n.me && w[a].status in {Suspect, Faulty, Tombstone}
        ensures a in after && after[a].state == w[a].status
      {
        var i :| 0 <= i < |updates| && updates[i].address == a && w[a] == StateOf(updates[i]);
      }
    }
  }

  /** Enabling the transitions again arms nothing, so it keeps this only if nobody needs a timer. */
  lemma EnableKeepsArmedIff(n: NodeState)
    requires Good(n) && !n.enabled
    ensures AllArmed(n.(enabled := true)) <==>
            forall a :: a in n.view && a != n.me ==> n.view[a].status in {Alive, Leave}
  {
    if AllArmed(n.(enabled := true)) {
      assert Armed(n.view, n.timers, n.me) && n.timers == map[];
      forall a | a in n.view && a != n.me ensures n.view[a].status in {Alive, Leave} {
        var s := n.view[a].status;
        assert s in {Suspect, Faulty, Tombstone} ==> a in n.timers;
        assert s.Alive? || s.Leave? || s.Suspect? || s.Faulty? || s.Tombstone?;
      }
    }
  }

  // ---- whole runs ----

  lemma StepKeepsArmed(cl: Cluster, s: Step)
    requires Enabled(cl, s) && !OnlyLists(s) && !s.EnableTimers?
    requires s.x in cl.nodes ==> Known(cl, s.x) && Good(cl.nodes[s.x]) && AllArmed(cl.nodes[s.x])
    ensures AllArmed(NodeAfter(cl, s))
  {
    match s
    case Start(x, now, id) =>
      SetLocalKeepsArmed(NodeState(x, false, map[], true, map[], map[], {}), Alive, now, id);
    case LocalStatus(x, status, now, id) => SetLocalKeepsArmed(cl.nodes[x], status, now, id);
    case Bootstrap(x, stash, updates) => BootKeepsArmed(cl.nodes[x], updates);
    case Deliver(x, l, o) => ReceiveKeepsArmed(cl.nodes[x], l, o);
    case TimerFires(x, a, id, now, newId) => FireKeepsArmed(cl.nodes[x], a, id, now, newId);
    case Accuse(x, a, status, id, now, newId) =>
      var n := cl.nodes[x];
      ReceiveKeepsArmed(n, [Declared(n.view, n.me, a, n.view[a].incarnation, status, id)],
        Oracle(i => now, i => newId));
    case Issue(x, filter, max, l) =>
    case Count(x, l) =>
  }

  /** In every run, a node that has not had its transitions enabled again after leaving has a timer for every suspect,
      faulty and tombstone member, in that status. */
  lemma {:induction false} ArmedInRuns(cs: seq<Cluster>, steps: seq<Step>, k: nat, x: string)
    requires Run(cs, steps) && k <= |steps| && x in cs[k].nodes
    requires forall i :: 0 <= i < k ==> steps[i] != EnableTimers(x)
    ensures AllArmed(cs[k].nodes[x])
  {
    if k == 0 {
    } else {
      var cl, s := cs[k - 1], steps[k - 1];
      if x in cl.nodes {
        ArmedInRuns(cs, steps, k - 1, x);
        NodesStayGood(cs, steps, k - 1, x);
      }
      assert Enabled(cl, s) && cs[k] == After(cl, s);
      if !OnlyLists(s) && s.x == x {
        StepKeepsArmed(cl, s);
      }
    }
  }
}
