/** One node: its entries, timers, piggyback buffer and ring, and the steps that change them together
    (lib/on_membership_event.js, lib/membership/index.js, server/protocol/ping.js). */
module NodeModel {
  import opened Wrappers
  import opened Members
  import opened Merging
  import opened Transitions
  import opened Disseminations
  import opened Checksums

  datatype NodeState = NodeState(
    me: string, ready: bool, view: View, enabled: bool, timers: Timers, buffer: Buffer, ring: set<string>)

  // ---- the listeners ----

  function Adds(updates: seq<Change>): set<string> {
    set i | 0 <= i < |updates| && IsStatusPingable(updates[i].status) :: updates[i].address
  }

  function Removes(updates: seq<Change>): set<string> {
    set i | 0 <= i < |updates| && !IsStatusPingable(updates[i].status) :: updates[i].address
  }

  /** The listeners of 'updated': timers and buffer update by update, then the ring in one batch. */
  function OnUpdated(n: NodeState, updates: seq<Change>): NodeState {
    n.(timers := HandledAll(n.timers, n.enabled, n.me, updates),
       buffer := RecordedAll(n.buffer, updates),
       ring := n.ring + Adds(updates) - Removes(updates))
  }

  /** The listener of 'set'. */
  function OnSet(n: NodeState, updates: seq<Change>): NodeState {
    n.(timers := HandledAll(n.timers, n.enabled, n.me, updates), ring := n.ring + Adds(updates))
  }

  // ---- the steps of a node ----

  /** `membership.update` of a ready node, with its listeners. */
  function Receive(n: NodeState, changes: seq<Change>, o: Oracle): NodeState
    requires n.me in n.view
  {
    var r := UpdateAll(n.view, n.me, changes, o);
    OnUpdated(n.(view := r.view), r.updates)
  }

  /** `setLocalStatus`, with its listeners; leaving disables the timers first. */
  function SetLocal(n: NodeState, status: Status, now: int, id: nat): NodeState {
    var m := if status.Leave? && n.me in n.view then n.(enabled := false, timers := map[]) else n;
    OnUpdated(m.(view := n.view[n.me := State(now, status)]), [Refutation(n.me, status, now, id)])
  }

  /** A pending timer fires: evict a tombstone, or declare the next status at the timer's incarnation. */
  function Fire(n: NodeState, a: string, id: nat, now: int, newId: nat): NodeState
    requires n.me in n.view && a in n.timers
  {
    var t := n.timers[a];
    var m := n.(timers := n.timers[a := t.(pending := false)]);
    if t.state.Tombstone? then
      if a == n.me then m else m.(view := n.view - {a})
    else
      Receive(m, [Declared(n.view, n.me, a, t.incarnation, TargetOf(t.state), id)], Oracle(i => now, i => newId))
  }

  /** `set` at the end of the bootstrap: `updates` list the merged stash. */
  ghost function Boot(n: NodeState, updates: seq<Change>): NodeState
    requires DistinctAddresses(updates)
  {
    OnSet(n.(ready := true, view := n.view + Live(updates)), updates)
  }

  // ---- what every step keeps ----

  predicate Pingable(v: View, a: string) {
    a in v && IsStatusPingable(v[a].status)
  }

  function PingableIn(v: View): set<string> {
    set a | a in v && Pingable(v, a)
  }

  /** The ring's servers are the addresses whose member is alive or suspect. */
  ghost predicate RingAgrees(n: NodeState) {
    n.ring == PingableIn(n.view)
  }

  /** A timer waits in its member's current status, at an incarnation no newer than the member's. */
  ghost predicate TimerSafe(v: View, timers: Timers, enabled: bool, me: string) {
    && (!enabled ==> timers == map[]) && me !in timers
    && forall a :: a in timers ==>
         && timers[a].state in {Suspect, Faulty, Tombstone}
         && if a in v then timers[a].state == v[a].status && timers[a].incarnation <= v[a].incarnation
            else timers[a].state.Tombstone?
  }

  /** A buffered change is the current entry of its address, or the tombstone of an evicted member. */
  ghost predicate BufferFresh(v: View, b: Buffer) {
    && Wellkeyed(b)
    && forall a :: a in b ==>
         if a in v then StateOf(b[a].change) == v[a] else b[a].change.status.Tombstone?
  }

  ghost predicate Good(n: NodeState) {
    && n.me in n.view && RingAgrees(n) && TimerSafe(n.view, n.timers, n.enabled, n.me) && BufferFresh(n.view, n.buffer)
    && (!n.ready ==> n.view.Keys == {n.me} && n.timers == map[] && n.buffer.Keys <= {n.me})
  }

  // ---- update batches ----

  /** Every applied update is about the address of a change of the batch, in order. */
  lemma {:induction false} UpdatesAddresses(v: View, me: string, changes: seq<Change>, o: Oracle)
    requires me in v && DistinctAddresses(changes)
    ensures DistinctAddresses(UpdateAll(v, me, changes, o).updates)
    ensures forall u :: u in UpdateAll(v, me, changes, o).updates ==>
              exists i :: 0 <= i < |changes| && changes[i].address == u.address
  {
    if changes == [] {
    } else {
      var n := |changes| - 1;
      UpdatesAddresses(v, me, changes[..n], o);
      var before, after := UpdateAll(v, me, changes[..n], o).updates, UpdateAll(v, me, changes, o).updates;
      forall u | u in after ensures exists i :: 0 <= i < |changes| && changes[i].address == u.address {
        if u in before {
          var i :| 0 <= i < n && changes[..n][i].address == u.address;
          assert changes[i].address == u.address;
        } else {
          assert changes[n].address == u.address;
        }
      }
      forall u | u in before ensures u.address != changes[n].address {
        var i :| 0 <= i < n && changes[..n][i].address == u.address;
      }
    }
  }

  /** One applied update: a remote change as it is, or the local member's own. */
  ghost predicate AppliedTo(v: View, me: string, u: Change, w: View) {
    me in v && w == v[u.address := StateOf(u)] && (u.address != me ==> ShouldProcessGossip(Find(v, u.address), u))
  }

  /** A batch without its last change, and what that change adds. */
  lemma LastChange(v: View, me: string, changes: seq<Change>, o: Oracle)
    requires me in v && changes != []
    ensures var before, after := UpdateAll(v, me, changes[..|changes| - 1], o), UpdateAll(v, me, changes, o);
            after == before
            || (after.updates != [] && after.updates == before.updates + [after.updates[|after.updates| - 1]]
                && AppliedTo(before.view, me, after.updates[|after.updates| - 1], after.view))
  {
  }

  lemma TimersAfterOne(v: View, timers: Timers, enabled: bool, me: string, u: Change, w: View)
    requires TimerSafe(v, timers, enabled, me) && AppliedTo(v, me, u, w)
    ensures TimerSafe(w, Handled(timers, enabled, me, u), enabled, me)
  {
  }

  lemma {:induction false} TimersAfterUpdates(v: View, timers: Timers, enabled: bool, me: string,
                                              changes: seq<Change>, o: Oracle)
    requires me in v && TimerSafe(v, timers, enabled, me)
    ensures var r := UpdateAll(v, me, changes, o);
            TimerSafe(r.view, HandledAll(timers, enabled, me, r.updates), enabled, me)
  {
    if changes == [] {
    } else {
      TimersAfterUpdates(v, timers, enabled, me, changes[..|changes| - 1], o);
      LastChange(v, me, changes, o);
      var before, after := UpdateAll(v, me, changes[..|changes| - 1], o), UpdateAll(v, me, changes, o);
      if after != before {
        var u := after.updates[|after.updates| - 1];
        HandledSnoc(timers, enabled, me, before.updates, u);
        TimersAfterOne(before.view, HandledAll(timers, enabled, me, before.updates), enabled, me, u, after.view);
      }
    }
  }

  lemma HandledSnoc(timers: Timers, enabled: bool, me: string, updates: seq<Change>, u: Change)
    ensures HandledAll(timers, enabled, me, updates + [u]) ==
              Handled(HandledAll(timers, enabled, me, updates), enabled, me, u)
  {
    assert (updates + [u])[..|updates|] == updates;
  }

  lemma RecordedSnoc(b: Buffer, updates: seq<Change>, u: Change)
    ensures RecordedAll(b, updates + [u]) == Recorded(RecordedAll(b, updates), u)
  {
    assert (updates + [u])[..|updates|] == updates;
  }

  lemma {:induction false} BufferAfterUpdates(v: View, b: Buffer, me: string, changes: seq<Change>, o: Oracle)
    requires me in v && BufferFresh(v, b)
    ensures var r := UpdateAll(v, me, changes, o); BufferFresh(r.view, RecordedAll(b, r.updates))
  {
    if changes == [] {
    } else {
      BufferAfterUpdates(v, b, me, changes[..|changes| - 1], o);
      LastChange(v, me, changes, o);
      var before, after := UpdateAll(v, me, changes[..|changes| - 1], o), UpdateAll(v, me, changes, o);
      if after != before {
        var u := after.updates[|after.updates| - 1];
        RecordedSnoc(b, before.updates, u);
        BufferAfterOne(before.view, RecordedAll(b, before.updates), me, u, after.view);
      }
    }
  }

  lemma BufferAfterOne(v: View, b: Buffer, me: string, u: Change, w: View)
    requires BufferFresh(v, b) && AppliedTo(v, me, u, w)
    ensures BufferFresh(w, Recorded(b, u))
  {
  }

  lemma AddsSnoc(updates: seq<Change>, c: Change)
    ensures Adds(updates + [c]) == Adds(updates) + if IsStatusPingable(c.status) then {c.address} else {}
    ensures Removes(updates + [c]) == Removes(updates) + if IsStatusPingable(c.status) then {} else {c.address}
  {
    var r := updates + [c];
    assert r[|updates|] == c;
    forall i | 0 <= i < |updates| ensures r[i] == updates[i] {}
  }

  /** Whoever ends pingable was so or is added; whoever is not removed and was so or is added ends pingable. */
  lemma {:induction false} RingBounds(v: View, me: string, changes: seq<Change>, o: Oracle)
    requires me in v
    ensures var r, ring := UpdateAll(v, me, changes, o), PingableIn(v);
            PingableIn(r.view) <= ring + Adds(r.updates)
            && ring + Adds(r.updates) - Removes(r.updates) <= PingableIn(r.view)
  {
    if changes == [] {
    } else {
      var n := |changes| - 1;
      RingBounds(v, me, changes[..n], o);
      var before, after := UpdateAll(v, me, changes[..n], o).updates, UpdateAll(v, me, changes, o).updates;
      if after != before {
        var u := after[|before|];
        assert after == before + [u];
        AddsSnoc(before, u);
        var w := UpdateAll(v, me, changes[..n], o).view;
        assert UpdateAll(v, me, changes, o).view == w[u.address := StateOf(u)];
        assert PingableIn(w[u.address := StateOf(u)]) ==
               PingableIn(w) - {u.address} + if IsStatusPingable(u.status) then {u.address} else {};
      }
    }
  }

  /** The `i`-th change is news: it overrides everything heard about its address before it. */
  ghost predicate News(v: View, changes: seq<Change>, i: int) {
    && 0 <= i < |changes|
    && ShouldProcessGossip(Max(Heard(StatesKnown(v, changes[i].address), changes[..i], changes[i].address)), changes[i])
  }

  /** What everything known and heard about an address comes to. */
  ghost function Verdict(v: View, changes: seq<Change>, a: string): Option<State> {
    Max(Heard(StatesKnown(v, a), changes, a))
  }

  /** News about a remote address that takes it off the ring although it ends pingable. */
  ghost predicate Misleads(v: View, me: string, changes: seq<Change>, i: int) {
    && News(v, changes, i) && changes[i].address != me && !IsStatusPingable(changes[i].status)
    && var end := Verdict(v, changes, changes[i].address); end.Some? && IsStatusPingable(end.value.status)
  }

  lemma NewsSnoc(v: View, changes: seq<Change>, c: Change, i: int)
    requires 0 <= i < |changes|
    ensures News(v, changes + [c], i) <==> News(v, changes, i)
  {
    assert (changes + [c])[..i] == changes[..i];
  }

  /** The updates of a batch are exactly its news, apart from the refutations, which keep the local status. */
  lemma {:induction false} UpdatesAreNews(v: View, me: string, changes: seq<Change>, o: Oracle)
    requires me in v
    ensures var us := UpdateAll(v, me, changes, o).updates;
            && (forall u :: u in us ==> if u.address == me then u.status == v[me].status
                                        else exists i :: News(v, changes, i) && changes[i] == u)
            && (forall i :: News(v, changes, i) && changes[i].address != me ==> changes[i] in us)
  {
    if changes == [] {
    } else {
      var n := |changes| - 1;
      var rest, c := changes[..n], changes[n];
      UpdatesAreNews(v, me, rest, o);
      LocalStatusKept(v, me, rest, o);
      assert changes == rest + [c];
      forall i | 0 <= i < n ensures News(v, changes, i) <==> News(v, rest, i) {
        NewsSnoc(v, rest, c, i);
      }
      if c.address != me {
        UpdateIsMaxHeard(v, me, rest, o, c.address);
      }
      LastIsNews(v, me, changes, o);
    }
  }

  lemma LastIsNews(v: View, me: string, changes: seq<Change>, o: Oracle)
    requires me in v && changes != []
    ensures var before, after := UpdateAll(v, me, changes[..|changes| - 1], o), UpdateAll(v, me, changes, o);
            var c := changes[|changes| - 1];
            c.address != me ==>
              after.updates == before.updates + if News(v, changes, |changes| - 1) then [c] else []
  {
    var c := changes[|changes| - 1];
    if c.address != me {
      UpdateIsMaxHeard(v, me, changes[..|changes| - 1], o, c.address);
    }
  }

  lemma RemovedAt(updates: seq<Change>, a: string)
    ensures a in Removes(updates) <==> exists u :: u in updates && u.address == a && !IsStatusPingable(u.status)
  {
    if a in Removes(updates) {
      var i :| 0 <= i < |updates| && !IsStatusPingable(updates[i].status) && updates[i].address == a;
      assert updates[i] in updates;
    }
    if u :| u in updates && u.address == a && !IsStatusPingable(u.status) {
      var i :| 0 <= i < |updates| && updates[i] == u;
    }
  }

  /** An address that ends pingable is removed along the way exactly if the batch misleads about it. */
  lemma RemovedMeans(v: View, me: string, changes: seq<Change>, o: Oracle, a: string)
    requires me in v
    ensures var r := UpdateAll(v, me, changes, o);
            a in Removes(r.updates) && a in PingableIn(r.view) <==>
            exists i :: Misleads(v, me, changes, i) && changes[i].address == a
  {
    var r := UpdateAll(v, me, changes, o);
    UpdatesAreNews(v, me, changes, o);
    LocalStatusKept(v, me, changes, o);
    RemovedAt(r.updates, a);
    if a != me {
      UpdateIsMaxHeard(v, me, changes, o, a);
    }
  }

  /** Exactly when the ring agrees after a batch, in terms of the entries and the list: when the list does not
      mislead, that is when no news in it makes an address unpingable that ends pingable. */
  lemma RingAgreesIff(n: NodeState, changes: seq<Change>, o: Oracle)
    requires n.me in n.view && RingAgrees(n)
    ensures RingAgrees(Receive(n, changes, o)) <==> !exists i :: Misleads(n.view, n.me, changes, i)
  {
    var r := UpdateAll(n.view, n.me, changes, o);
    RingBounds(n.view, n.me, changes, o);
    forall a ensures a in Removes(r.updates) && a in PingableIn(r.view) <==>
                     exists i :: Misleads(n.view, n.me, changes, i) && changes[i].address == a
    {
      RemovedMeans(n.view, n.me, changes, o, a);
    }
    RingDisjoint(n, r);
    if i :| Misleads(n.view, n.me, changes, i) {
      RemovedMeans(n.view, n.me, changes, o, changes[i].address);
    }
  }

  lemma RingDisjoint(n: NodeState, r: Outcome)
    requires PingableIn(r.view) <= n.ring + Adds(r.updates)
    requires n.ring + Adds(r.updates) - Removes(r.updates) <= PingableIn(r.view)
    ensures n.ring + Adds(r.updates) - Removes(r.updates) == PingableIn(r.view) <==>
            Removes(r.updates) !! PingableIn(r.view)
  {
  }

  /** A list with two changes about one address can leave a live member outside the ring. */
  lemma DuplicatesCanBreakTheRing(n: NodeState, a: string, o: Oracle)
    requires n.me in n.view && RingAgrees(n) && a !in n.view
    ensures var changes := [Change(a, 1, Faulty, None, None, None), Change(a, 2, Alive, None, None, None)];
            var m := Receive(n, changes, o);
            Pingable(m.view, a) && a !in m.ring
  {
    var dead, live := Change(a, 1, Faulty, None, None, None), Change(a, 2, Alive, None, None, None);
    var changes := [dead, live];
    assert changes[..1] == [dead] && changes[..0] == [];
    var r := UpdateAll(n.view, n.me, changes, o);
    assert UpdateAll(n.view, n.me, [dead], o).updates == [dead];
    assert r.updates == [dead, live];
    assert r.updates[0].address in Removes(r.updates);
  }

  /** With distinct addresses every update is the last word on its address. */
  lemma {:induction false} UpdatesAreFinal(v: View, me: string, changes: seq<Change>, o: Oracle)
    requires me in v && DistinctAddresses(changes)
    ensures var r := UpdateAll(v, me, changes, o);
            forall u :: u in r.updates ==> u.address in r.view && r.view[u.address] == StateOf(u)
  {
    if changes == [] {
    } else {
      UpdatesAreFinal(v, me, changes[..|changes| - 1], o);
      UpdatesAddresses(v, me, changes, o);
      var before, after := UpdateAll(v, me, changes[..|changes| - 1], o).updates, UpdateAll(v, me, changes, o).updates;
      if after != before {
        assert after == before + [after[|before|]];
        forall u | u in before ensures u.address != after[|before|].address {
          var i :| 0 <= i < |before| && before[i] == u;
          assert after[i] == u;
        }
      }
    }
  }

  /** A batch of changes about distinct addresses keeps ring, timers and buffer in step with the entries. */
  lemma ReceiveKeeps(n: NodeState, changes: seq<Change>, o: Oracle)
    requires Good(n) && n.ready && DistinctAddresses(changes)
    ensures Good(Receive(n, changes, o))
  {
    TimersAfterUpdates(n.view, n.timers, n.enabled, n.me, changes, o);
    BufferAfterUpdates(n.view, n.buffer, n.me, changes, o);
    UpdatesAreFinal(n.view, n.me, changes, o);
    var r := UpdateAll(n.view, n.me, changes, o);
    forall a | a in Removes(r.updates) ensures a !in PingableIn(r.view) {
      var i :| 0 <= i < |r.updates| && !IsStatusPingable(r.updates[i].status) && r.updates[i].address == a;
      assert r.updates[i] in r.updates;
    }
    RingBounds(n.view, n.me, changes, o);
    RingDisjoint(n, r);
  }

  lemma OnUpdatedOne(n: NodeState, u: Change)
    ensures OnUpdated(n, [u]) ==
            n.(timers := Handled(n.timers, n.enabled, n.me, u), buffer := Recorded(n.buffer, u),
               ring := if IsStatusPingable(u.status) then n.ring + {u.address} else n.ring - {u.address})
  {
    assert [u][..0] == [] && [] + [u] == [u];
    AddsSnoc([], u);
    assert Adds([]) == {} && Removes([]) == {};
    assert HandledAll(n.timers, n.enabled, n.me, [u]) == Handled(n.timers, n.enabled, n.me, u);
    assert RecordedAll(n.buffer, [u]) == Recorded(n.buffer, u);
    var ring := n.ring + Adds([u]) - Removes([u]);
    assert ring == if IsStatusPingable(u.status) then n.ring + {u.address} else n.ring - {u.address};
  }

  /** A node just created, once its local member is set. */
  lemma StartIsGood(me: string, status: Status, now: int, id: nat)
    ensures Good(SetLocal(NodeState(me, false, map[], true, map[], map[], {}), status, now, id))
  {
    var n := NodeState(me, false, map[], true, map[], map[], {});
    assert PingableIn(map[me := State(now, status)]) == if IsStatusPingable(status) then {me} else {};
    OnUpdatedOne(n.(view := n.view[me := State(now, status)]), Refutation(me, status, now, id));
  }

  lemma SetLocalKeeps(n: NodeState, status: Status, now: int, id: nat)
    requires Good(n)
    ensures Good(SetLocal(n, status, now, id))
  {
    var m := if status.Leave? then n.(enabled := false, timers := map[]) else n;
    OnUpdatedOne(m.(view := n.view[n.me := State(now, status)]), Refutation(n.me, status, now, id));
  }

  /** A fired suspect or faulty timer moves its member on at the incarnation it was armed for, and leaves
      any newer incarnation alone. */
  lemma FireDeclares(n: NodeState, a: string, id: nat, now: int, newId: nat)
    requires Good(n) && a in n.timers && n.timers[a].pending && !n.timers[a].state.Tombstone?
    ensures var t := n.timers[a];
            && a in n.view && t.incarnation <= n.view[a].incarnation
            && Fire(n, a, id, now, newId).view ==
               if t.incarnation != n.view[a].incarnation then n.view
               else n.view[a := State(t.incarnation, if t.state.Suspect? then Faulty else Tombstone)]
    ensures var t, b := n.timers[a], Fire(n, a, id, now, newId).buffer;
            t.incarnation == n.view[a].incarnation ==>
              a in b && b[a] == Buffered(Change(a, t.incarnation, if t.state.Suspect? then Faulty else Tombstone,
                                                Some(n.me), Some(n.view[n.me].incarnation), Some(id)), 0)
  {
    var t := n.timers[a];
    var m := n.(timers := n.timers[a := t.(pending := false)]);
    var c := Declared(n.view, n.me, a, t.incarnation, TargetOf(t.state), id);
    UpdateSingle(n.view, n.me, c, Oracle(i => now, i => newId));
    OnUpdatedOne(m.(view := n.view[a := StateOf(c)]), c);
  }

  /** A fired tombstone timer changes neither the checksum string nor the ring. */
  lemma EvictIsInvisible(n: NodeState, a: string, id: nat, now: int, newId: nat)
    requires Good(n) && a in n.timers && n.timers[a].pending && n.timers[a].state.Tombstone?
    ensures var m := Fire(n, a, id, now, newId);
            && m.view == n.view - {a} && NonTombstones(m.view) == NonTombstones(n.view)
            && ChecksumString(m.view) == ChecksumString(n.view) && m.ring == n.ring && m.buffer == n.buffer
  {
    EvictKeepsLive(n.view, a);
  }

  lemma EvictKeepsLive(v: View, a: string)
    requires a in v ==> v[a].status.Tombstone?
    ensures NonTombstones(v - {a}) == NonTombstones(v) && PingableIn(v - {a}) == PingableIn(v)
  {
    assert NonTombstones(v - {a}).Keys == NonTombstones(v).Keys;
  }

  lemma FireKeeps(n: NodeState, a: string, id: nat, now: int, newId: nat)
    requires Good(n) && a in n.timers && n.timers[a].pending
    ensures Good(Fire(n, a, id, now, newId))
  {
    var t := n.timers[a];
    var m := n.(timers := n.timers[a := t.(pending := false)]);
    if t.state.Tombstone? {
      EvictIsInvisible(n, a, id, now, newId);
      EvictKeepsLive(n.view, a);
    } else {
      assert Good(m);
      ReceiveKeeps(m, [Declared(n.view, n.me, a, t.incarnation, TargetOf(t.state), id)], Oracle(i => now, i => newId));
    }
  }

  lemma TimersStep(v: View, timers: Timers, enabled: bool, me: string, c: Change)
    requires TimerSafe(v, timers, enabled, me) && c.address !in v && c.address !in timers && c.address != me
    ensures var w := if c.status.Tombstone? then v else v[c.address := StateOf(c)];
            TimerSafe(w, Handled(timers, enabled, me, c), enabled, me)
    ensures Handled(timers, enabled, me, c).Keys <= timers.Keys + {c.address}
  {
  }

  ghost function Addresses(updates: seq<Change>): set<string> {
    set i | 0 <= i < |updates| :: updates[i].address
  }

  lemma AddressesSnoc(updates: seq<Change>, i: nat)
    requires DistinctAddresses(updates) && i < |updates|
    ensures updates[i].address in Addresses(updates) && updates[i].address !in Addresses(updates[..i])
    ensures Addresses(updates[..i + 1]) == Addresses(updates[..i]) + {updates[i].address}
  {
    var before, after := updates[..i], updates[..i + 1];
    forall j | 0 <= j < i ensures before[j] == after[j] {}
    assert after[i] == updates[i];
  }

  lemma {:induction false} TimersAfterSet(v: View, enabled: bool, me: string, updates: seq<Change>, k: nat)
    requires DistinctAddresses(updates) && k <= |updates| && v.Keys == {me} && me !in Addresses(updates)
    ensures DistinctAddresses(updates[..k])
    ensures TimerSafe(v + Live(updates[..k]), HandledAll(map[], enabled, me, updates[..k]), enabled, me)
    ensures HandledAll(map[], enabled, me, updates[..k]).Keys <= Addresses(updates[..k])
  {
    if k == 0 {
    } else {
      var c, before, after := updates[k - 1], updates[..k - 1], updates[..k];
      TimersAfterSet(v, enabled, me, updates, k - 1);
      LiveSnoc(updates, k - 1);
      assert after == before + [c];
      HandledSnoc(map[], enabled, me, before, c);
      AddressesSnoc(updates, k - 1);
      TimersStep(v + Live(before), HandledAll(map[], enabled, me, before), enabled, me, c);
      AddToSum(v, Live(before), c.address, StateOf(c));
    }
  }

  /** The bootstrap, whose merged stash has distinct addresses other than the local one, keeps all of it. */
  lemma BootKeeps(n: NodeState, updates: seq<Change>)
    requires Good(n) && !n.ready && DistinctAddresses(updates) && forall u :: u in updates ==> u.address != n.me
    ensures Good(Boot(n, updates))
  {
    forall i | 0 <= i < |updates| ensures updates[i].address != n.me {
      assert updates[i] in updates;
    }
    TimersAfterSet(n.view, n.enabled, n.me, updates, |updates|);
    assert updates[..|updates|] == updates;
    BootRing(n, updates);
  }

  lemma BootRing(n: NodeState, updates: seq<Change>)
    requires RingAgrees(n) && DistinctAddresses(updates) && n.view.Keys == {n.me}
    requires forall u :: u in updates ==> u.address != n.me
    ensures n.ring + Adds(updates) == PingableIn(n.view + Live(updates))
  {
    var w := n.view + Live(updates);
    forall a | a in Adds(updates) ensures a in PingableIn(w) {
      var i :| 0 <= i < |updates| && IsStatusPingable(updates[i].status) && updates[i].address == a;
      LiveAt(updates, i);
    }
    forall a | a in PingableIn(w) ensures a in n.ring + Adds(updates) {
      if a in Live(updates) {
        var i :| 0 <= i < |updates| && updates[i].address == a;
        LiveAt(updates, i);
      }
    }
    forall a | a in n.ring ensures a in PingableIn(w) {
      assert a !in Live(updates);
    }
  }

  // ---- what a node issues ----

  /** Issuing and counting keep changes as they are, or drop them. */
  ghost predicate Thinned(b: Buffer, c: Buffer) {
    forall a :: a in c ==> a in b && c[a].change == b[a].change
  }

  lemma {:induction false} BumpedThins(b: Buffer, issued: seq<Change>)
    ensures Thinned(b, Bumped(b, issued))
  {
    if issued == [] {
    } else {
      BumpedThins(b, issued[..|issued| - 1]);
    }
  }

  lemma IssueKeeps(n: NodeState, b: Buffer)
    requires Good(n) && Thinned(n.buffer, b)
    ensures Good(n.(buffer := b))
  {
  }

  /** Whatever a node issues is its current entry of the address, or the tombstone of an evicted member. */
  ghost predicate Current(v: View, c: Change) {
    if c.address in v then StateOf(c) == v[c.address] else c.status.Tombstone?
  }

  lemma IssuedIsCurrent(n: NodeState, l: seq<Change>, filter: Option<Sender>, max: nat)
    requires BufferFresh(n.view, n.buffer)
    requires Lists(l, ToIssue(n.buffer, filter, max)) || Lists(l, FullSyncIndex(n.me, n.view))
    ensures DistinctAddresses(l) && forall c :: c in l ==> Current(n.view, c)
  {
  }
}
