/** A node with its parts and listeners (lib/on_membership_event.js, server/protocol/ping.js). */
module Nodes {
  import opened Wrappers
  import opened Members
  import opened Merging
  import opened Memberships
  import opened Transitions
  import opened Disseminations
  import opened NodeModel
  import opened RBModel
  import opened HashRings
  import Checksums

  class Node {
    const membership: Membership
    const stateTransitions: StateTransitions
    const dissemination: Dissemination
    const ring: HashRing
    var isReady: bool

    ghost predicate Valid()
      reads this`isReady, membership, membership.membersByAddress.Values, dissemination, stateTransitions
      reads ring, ring.rbtree, Objs(ring.rbtree.model)
    {
      && membership.Valid() && ring.Valid() && Wellkeyed(dissemination.changes)
      && stateTransitions.whoami == membership.whoami
      && (!isReady && membership.stashedUpdates.Some? ==> membership.View().Keys <= {membership.whoami})
      && (isReady ==> membership.localMember != null)
    }

    /** The node as a value. */
    ghost function State(): NodeState
      reads this`isReady, membership, membership.membersByAddress.Values, dissemination, stateTransitions, ring
    {
      NodeState(membership.whoami, isReady, membership.View(), stateTransitions.enabled, stateTransitions.timers,
                dissemination.changes, ring.servers)
    }

    constructor (whoami: string, hashFunc: string -> int, replicaPoints: nat)
      ensures Valid() && State() == NodeState(whoami, false, map[], true, map[], map[], {})
    {
      membership := new Membership(whoami, hashFunc);
      stateTransitions := new StateTransitions(whoami);
      dissemination := new Dissemination();
      ring := new HashRing(hashFunc, replicaPoints);
      isReady := false;
    }

    /** `createUpdatedHandlerForGossip` */
    method OnUpdatedGossip(updates: seq<Change>)
      requires Wellkeyed(dissemination.changes)
      modifies stateTransitions`timers, dissemination`changes
      ensures stateTransitions.timers ==
                HandledAll(old(stateTransitions.timers), stateTransitions.enabled, stateTransitions.whoami, updates)
      ensures dissemination.changes == RecordedAll(old(dissemination.changes), updates)
      ensures Wellkeyed(dissemination.changes)
    {
      for i := 0 to |updates|
        invariant stateTransitions.timers ==
                    HandledAll(old(stateTransitions.timers), stateTransitions.enabled, stateTransitions.whoami,
                      updates[..i])
        invariant dissemination.changes == RecordedAll(old(dissemination.changes), updates[..i])
        invariant Wellkeyed(dissemination.changes)
      {
        assert updates[..i + 1][..i] == updates[..i];
        stateTransitions.HandleUpdate(updates[i]);
        dissemination.RecordChange(updates[i]);
      }
      assert updates[..|updates|] == updates;
    }

    /** `createUpdatedHandlerForRing` */
    method OnUpdatedRing(updates: seq<Change>)
      requires ring.Valid()
      modifies ring, ring.rbtree, Objs(ring.rbtree.model)
      ensures ring.Valid() && ring.servers == old(ring.servers) + Adds(updates) - Removes(updates)
      ensures forall x :: x in Objs(ring.rbtree.model) && x !in old(Objs(ring.rbtree.model)) ==> fresh(x)
    {
      assert allocated(Objs(ring.rbtree.model));
      var serversToAdd, serversToRemove := SplitByPingable(updates);
      if serversToAdd != [] || serversToRemove != [] {
        var changed := ring.AddRemoveServers(serversToAdd, serversToRemove);
      } else {
        assert Set([]) == {};
      }
    }

    /** `createSetHandler`; unlike for an update, nothing is recorded and nothing leaves the ring. */
    method OnSet(updates: seq<Change>)
      requires ring.Valid()
      modifies stateTransitions`timers, ring, ring.rbtree, Objs(ring.rbtree.model)
      ensures stateTransitions.timers ==
                HandledAll(old(stateTransitions.timers), stateTransitions.enabled, stateTransitions.whoami, updates)
      ensures ring.Valid() && ring.servers == old(ring.servers) + Adds(updates)
      ensures forall x :: x in Objs(ring.rbtree.model) && x !in old(Objs(ring.rbtree.model)) ==> fresh(x)
    {
      assert allocated(Objs(ring.rbtree.model));
      var serversToAdd := HandleSet(updates);
      if serversToAdd != [] {
        var changed := ring.AddRemoveServers(serversToAdd, []);
      }
      assert Set([]) == {};
    }

    method HandleSet(updates: seq<Change>) returns (serversToAdd: seq<string>)
      modifies stateTransitions`timers
      ensures stateTransitions.timers ==
                HandledAll(old(stateTransitions.timers), stateTransitions.enabled, stateTransitions.whoami, updates)
      ensures Set(serversToAdd) == Adds(updates)
    {
      serversToAdd := [];
      for i := 0 to |updates|
        invariant stateTransitions.timers ==
                    HandledAll(old(stateTransitions.timers), stateTransitions.enabled, stateTransitions.whoami,
                      updates[..i])
        invariant Set(serversToAdd) == Adds(updates[..i])
      {
        assert updates[..i + 1] == updates[..i] + [updates[i]] && updates[..i + 1][..i] == updates[..i];
        AddsSnoc(updates[..i], updates[i]);
        stateTransitions.HandleUpdate(updates[i]);
        if updates[i].status == Alive {
          serversToAdd := Push(serversToAdd, updates[i].address);
        } else if updates[i].status == Suspect {
          serversToAdd := Push(serversToAdd, updates[i].address);
        }
      }
      assert updates[..|updates|] == updates;
    }

    /** The listeners of 'updated'. */
    method OnUpdated(updates: seq<Change>)
      requires Valid()
      modifies stateTransitions`timers, dissemination`changes, ring, ring.rbtree, Objs(ring.rbtree.model)
      ensures Valid() && State() == NodeModel.OnUpdated(old(State()), updates)
      ensures forall x :: x in Objs(ring.rbtree.model) && x !in old(Objs(ring.rbtree.model)) ==> fresh(x)
    {
      assert allocated(Objs(ring.rbtree.model));
      OnUpdatedGossip(updates);
      OnUpdatedRing(updates);
      MembershipKept(membership);
    }

    method ApplyChanges(changes: seq<Change>, o: Oracle, places: nat -> nat) returns (updates: seq<Change>)
      requires Valid()
      modifies membership, membership.membersByAddress.Values
      ensures Valid() && membership.localMember == old(membership.localMember)
      ensures membership.stashedUpdates == Stashed(old(membership.stashedUpdates), changes, isReady)
      ensures var r := if isReady then UpdateAll(old(State()).view, membership.whoami, changes, o)
                       else Outcome(old(State()).view, []);
              State() == old(State()).(view := r.view) && updates == r.updates
    {
      assert allocated(Objs(ring.rbtree.model));
      updates := membership.Update(changes, isReady, o, places);
    }

    /** `membership.update`, with the listeners it triggers. */
    method Update(changes: seq<Change>, o: Oracle, places: nat -> nat)
      requires Valid()
      modifies membership, membership.membersByAddress.Values
      modifies stateTransitions`timers, dissemination`changes, ring, ring.rbtree, Objs(ring.rbtree.model)
      ensures Valid() && membership.localMember == old(membership.localMember)
      ensures membership.stashedUpdates == Stashed(old(membership.stashedUpdates), changes, isReady)
      ensures State() == if isReady then Receive(old(State()), changes, o) else old(State())
    {
      var updates := ApplyChanges(changes, o, places);
      if updates != [] {
        OnUpdated(updates);
      }
    }

    /** `createEventHandler`: leaving cancels all timers. */
    method OnLeave(status: Status)
      requires Valid()
      modifies stateTransitions`enabled, stateTransitions`timers
      ensures Valid() && membership.localMember == old(membership.localMember)
      ensures State() == if status.Leave? && membership.localMember != null
                         then old(State()).(enabled := false, timers := map[]) else old(State())
    {
      assert allocated(Objs(ring.rbtree.model));
      if status == Leave && membership.localMember != null {
        stateTransitions.Disable();
      }
    }

    method ChangeLocal(status: Status, now: int, id: nat) returns (update: Change)
      requires Valid()
      modifies membership, membership.membersByAddress.Values
      ensures Valid() && membership.localMember != null
      ensures State() == old(State()).(view := old(State().view)[membership.whoami := Members.State(now, status)])
      ensures update == Refutation(membership.whoami, status, now, id)
    {
      assert allocated(Objs(ring.rbtree.model));
      update := membership.SetLocalStatus(status, now, id);
    }

    method LeaveOrChange(status: Status, now: int, id: nat) returns (update: Change)
      requires Valid()
      modifies membership, membership.membersByAddress.Values, stateTransitions
      ensures Valid() && membership.localMember != null
      ensures update == Refutation(membership.whoami, status, now, id)
      ensures var n := old(State());
              var m := if status.Leave? && n.me in n.view then n.(enabled := false, timers := map[]) else n;
              State() == m.(view := n.view[n.me := Members.State(now, status)])
    {
      OnLeave(status);
      update := ChangeLocal(status, now, id);
    }

    /** `membership.setLocalStatus`, with the leave event and the listeners it triggers. */
    method SetLocalStatus(status: Status, now: int, id: nat)
      requires Valid()
      modifies membership, membership.membersByAddress.Values
      modifies stateTransitions, dissemination`changes, ring, ring.rbtree, Objs(ring.rbtree.model)
      ensures Valid() && membership.localMember != null
      ensures State() == SetLocal(old(State()), status, now, id)
    {
      var update := LeaveOrChange(status, now, id);
      OnUpdated([update]);
    }

    method TakeTimer(address: string) returns (timer: Timer)
      requires Valid() && address in stateTransitions.timers && stateTransitions.timers[address].pending
      modifies stateTransitions`timers
      ensures Valid() && membership.localMember == old(membership.localMember)
      ensures timer == old(stateTransitions.timers)[address]
      ensures State() == old(State()).(timers := old(State()).timers[address := timer.(pending := false)])
    {
      assert allocated(Objs(ring.rbtree.model));
      timer := stateTransitions.Fire(address);
    }

    method Evict(address: string)
      requires Valid() && membership.localMember != null
      modifies membership
      ensures Valid() && membership.localMember == old(membership.localMember)
      ensures State() == if address == membership.whoami then old(State())
                         else old(State()).(view := old(State()).view - {address})
    {
      assert allocated(Objs(ring.rbtree.model));
      assert membership.View().Keys <= {membership.whoami} ==>
        (membership.View() - {address}).Keys <= {membership.whoami};
      membership.Evict(address);
    }

    /** `membership.makeChange`, with the listeners it triggers; the change is stashed before the node is ready. */
    method MakeChange(address: string, incarnation: int, status: Status, id: nat, now: int, newId: nat, place: nat)
      requires Valid()
      modifies membership, membership.membersByAddress.Values
      modifies stateTransitions`timers, dissemination`changes, ring, ring.rbtree, Objs(ring.rbtree.model)
      ensures Valid() && membership.localMember == old(membership.localMember)
      ensures var l := [Declared(old(State()).view, membership.whoami, address, incarnation, status, id)];
              && membership.stashedUpdates == Stashed(old(membership.stashedUpdates), l, isReady)
              && State() == if isReady then Receive(old(State()), l, Oracle(i => now, i => newId)) else old(State())
    {
      var source, sourceIncarnation := None, None;
      if membership.localMember != null {
        source, sourceIncarnation := Some(membership.localMember.address), Some(membership.localMember.incarnation);
      }
      var change := Change(address, incarnation, status, source, sourceIncarnation, Some(id));
      Update([change], Oracle(i => now, i => newId), i => place);
    }

    /** A pending timer fires (`suspectToFaulty`, `faultyToTombstone`, `tombstoneToEvict`). */
    method FireTimer(address: string, id: nat, now: int, newId: nat, place: nat)
      requires Valid() && isReady
      requires address in stateTransitions.timers && stateTransitions.timers[address].pending
      modifies membership, membership.membersByAddress.Values
      modifies stateTransitions`timers, dissemination`changes, ring, ring.rbtree, Objs(ring.rbtree.model)
      ensures Valid() && membership.localMember == old(membership.localMember)
      ensures State() == Fire(old(State()), address, id, now, newId)
    {
      var timer := TakeTimer(address);
      if timer.state == Tombstone {
        Evict(address);
      } else {
        MakeChange(address, timer.incarnation, TargetOf(timer.state), id, now, newId, place);
      }
    }

    method ApplyStash() returns (updates: Option<seq<Change>>)
      requires Valid() && !isReady && membership.localMember != null
      modifies membership
      ensures Valid() && membership.localMember == old(membership.localMember)
      ensures Lists(if updates.Some? then updates.value else [], MergeSets(membership.whoami, old(StashOf(membership))))
      ensures State() == if updates.Some? then old(State()).(view := old(State()).view + Live(updates.value))
                         else old(State())
    {
      assert allocated(Objs(ring.rbtree.model));
      MergeSetsKeyed(membership.whoami, StashOf(membership));
      updates := membership.Set(isReady);
    }

    method RunSet() returns (ghost updates: seq<Change>)
      requires Valid() && !isReady && membership.localMember != null
      modifies membership, stateTransitions`timers, ring, ring.rbtree, Objs(ring.rbtree.model)
      ensures Valid() && membership.localMember == old(membership.localMember)
      ensures Lists(updates, MergeSets(membership.whoami, old(StashOf(membership))))
      ensures State().(ready := true) == Boot(old(State()), updates)
    {
      var stashed := ApplyStash();
      if stashed.Some? {
        updates := stashed.value;
        AfterSet(stashed.value);
      } else {
        updates := [];
        BootNothing(State());
      }
    }

    method BecomeReady()
      requires Valid() && membership.localMember != null
      modifies this`isReady
      ensures Valid() && isReady && State() == old(State()).(ready := true)
    {
      assert allocated(Objs(ring.rbtree.model));
      isReady := true;
      MembershipKept(membership);
    }

    /** The end of the bootstrap: `set()` with its listener, and the node is ready. */
    method Bootstrapped() returns (ghost updates: seq<Change>)
      requires Valid() && !isReady && membership.localMember != null
      modifies this`isReady, membership, stateTransitions`timers, ring, ring.rbtree, Objs(ring.rbtree.model)
      ensures Valid() && isReady && membership.localMember == old(membership.localMember)
      ensures Lists(updates, MergeSets(membership.whoami, old(StashOf(membership))))
      ensures State() == Boot(old(State()), updates)
      ensures SetFrom(old(State()).view, State().view, membership.whoami, Flatten(old(StashOf(membership))))
    {
      SetAfterBoot(State(), membership.whoami, StashOf(membership));
      updates := RunSet();
      BecomeReady();
    }

    method AfterSet(updates: seq<Change>)
      requires Valid()
      modifies stateTransitions`timers, ring, ring.rbtree, Objs(ring.rbtree.model)
      ensures Valid() && State() == NodeModel.OnSet(old(State()), updates)
    {
      OnSet(updates);
      MembershipKept(membership);
    }

    /** `membershipAsChanges` */
    method MembershipAsChanges() returns (changes: seq<Change>)
      requires Valid()
      ensures Valid() && State() == old(State()) && Lists(changes, FullSyncIndex(State().me, State().view))
    {
      changes := [];
      ghost var ms, v := membership.members, membership.View();
      for i := 0 to |membership.members|
        invariant |changes| == i
        invariant forall k :: 0 <= k < i ==>
                    && ms[k].address in v
                    && changes[k] == FullSyncChange(membership.whoami, ms[k].address, v[ms[k].address])
      {
        var member := membership.members[i];
        assert member in ms;
        changes := changes + [FullSyncChange(membership.whoami, member.address, member.State())];
      }
      ListsMembers(ms, membership.membersByAddress, membership.whoami, v, changes);
    }

    /** `issueAsReceiver`, against the full membership list. */
    method IssueAsReceiver(source: string, incarnation: Option<int>, checksum: int)
      returns (changes: seq<Change>, fullSync: bool)
      requires Valid() && isReady
      modifies dissemination`changes
      ensures Valid()
      ensures Answer(old(State()), Sender(source, incarnation), dissemination.maxPiggybackCount,
                     Checksum(membership.hashFunc, old(State()).view) != checksum, changes, fullSync, State())
    {
      assert allocated(Objs(ring.rbtree.model));
      assert membership.whoami in membership.View();
      var all := MembershipAsChanges();
      changes, fullSync := dissemination.IssueAsReceiver(source, incarnation, Some(checksum), membership.checksum, all);
      BumpedKeyed(Unspent(old(dissemination.changes), Some(Sender(source, incarnation)),
        dissemination.maxPiggybackCount), changes);
    }

    method IssueAsSender() returns (changes: seq<Change>)
      requires Valid()
      modifies dissemination`changes
      ensures Valid()
      ensures State() ==
                old(State()).(buffer := Unspent(old(State()).buffer, None, dissemination.maxPiggybackCount))
      ensures Lists(changes, ToIssue(old(State()).buffer, None, dissemination.maxPiggybackCount))
    {
      assert allocated(Objs(ring.rbtree.model));
      changes := dissemination.IssueAsSender();
    }

    /** `sendChanges` of a ping sender: the changes go out under the own name, incarnation and checksum. */
    method SendChanges(changes: seq<Change>, app: string) returns (body: PingBody)
      requires Valid()
      ensures Valid() && State() == old(State())
      ensures body.source == Some(membership.whoami) && body.changes == Some(changes) && body.app == Some(app)
      ensures if membership.localMember == null then body.sourceIncarnation == None
              else body == PingOf(State(), changes, app, membership.hashFunc)
    {
      assert membership.localMember != null ==> membership.whoami in membership.View();
      var incarnation := if membership.localMember == null then None else Some(membership.localMember.incarnation);
      body := PingBody(Some(membership.whoami), incarnation, Some(changes), membership.checksum, Some(app));
    }

    /** `send` of a ping sender: what is due goes out with the own checksum. */
    method SendPing(app: string) returns (body: PingBody)
      requires Valid()
      modifies dissemination`changes
      ensures Valid() && body.app == Some(app)
      ensures Sent(old(State()), body, membership.hashFunc, dissemination.maxPiggybackCount, State())
    {
      var changes := IssueAsSender();
      body := SendChanges(changes, app);
    }

    /** The reply to a ping: unless it failed, the sent changes are counted and, if somebody waits for the outcome,
        those of the reply are applied. */
    method OnPing(err: bool, sent: seq<Change>, res: Option<seq<Change>>, callback: bool, o: Oracle,
                  places: nat -> nat)
      requires Valid()
      modifies membership, membership.membersByAddress.Values, stateTransitions`timers
      modifies dissemination`changes, ring, ring.rbtree, Objs(ring.rbtree.model)
      ensures Valid() && membership.localMember == old(membership.localMember)
      ensures State() == Replied(old(State()), err, sent, if callback then res else None, o)
    {
      OnIssue(err, sent);
      if !callback {
        return;
      }
      if err {
        return;
      }
      if res.None? {
        return;
      }
      Update(res.value, o, places);
    }

    method OnIssue(err: bool, sent: seq<Change>)
      requires Valid()
      modifies dissemination`changes
      ensures Valid()
      ensures State() == old(State()).(buffer := if err then old(State()).buffer else Bumped(old(State()).buffer, sent))
    {
      assert allocated(Objs(ring.rbtree.model));
      BumpedKeyed(dissemination.changes, sent);
      dissemination.OnIssue(err, sent);
    }

    /** `handlePing`: apply the changes, issue the answer, and try to start a reverse full sync after a full sync. */
    method HandlePing(body: Option<PingBody>, cfg: PingConfig, o: Oracle, places: nat -> nat)
      returns (res: PingResult, reverse: bool)
      requires Valid()
      modifies membership, membership.membersByAddress.Values, stateTransitions`timers
      modifies dissemination`changes, dissemination`reverseFullSyncJobs, ring, ring.rbtree, Objs(ring.rbtree.model)
      ensures Valid() && membership.localMember == old(membership.localMember)
      ensures HandledPing(old(State()), body, cfg, o, membership.hashFunc, dissemination.maxPiggybackCount,
                          old(dissemination.reverseFullSyncJobs), res, reverse, State())
      ensures dissemination.reverseFullSyncJobs == old(dissemination.reverseFullSyncJobs) + if reverse then 1 else 0
    {
      if !isReady {
        return Refused(NotReady), false;
      }
      if body.None? || !Truthy(body.value.source) || body.value.changes.None? || !TruthyNumber(body.value.checksum) {
        return Refused(Malformed), false;
      }
      if body.value.app.Some? {
        if body.value.app.value != cfg.app {
          return Refused(WrongApp), false;
        }
      } else if cfg.requiresAppInPing {
        return Refused(MissingApp), false;
      }
      res, reverse := AcceptPing(body.value, cfg, o, places, State());
    }

    method AcceptPing(body: PingBody, cfg: PingConfig, o: Oracle, places: nat -> nat, ghost n: NodeState)
      returns (res: PingResult, reverse: bool)
      requires Valid() && isReady && body.source.Some? && body.changes.Some? && body.checksum.Some?
      requires n == State() && n.me in n.view
      modifies membership, membership.membersByAddress.Values, stateTransitions`timers
      modifies dissemination`changes, dissemination`reverseFullSyncJobs, ring, ring.rbtree, Objs(ring.rbtree.model)
      ensures Valid() && membership.localMember == old(membership.localMember) && res.Answered?
      ensures Pinged(n, body, o, membership.hashFunc, dissemination.maxPiggybackCount, res, State())
      ensures reverse <==> res.fullSync && old(dissemination.reverseFullSyncJobs) < cfg.maxReverseFullSyncJobs
      ensures dissemination.reverseFullSyncJobs == old(dissemination.reverseFullSyncJobs) + if reverse then 1 else 0
    {
      Update(body.changes.value, o, places);
      assert membership.localMember != null && isReady;
      res, reverse := AnswerPing(body.source.value, body.sourceIncarnation, body.checksum.value,
        cfg.maxReverseFullSyncJobs);
    }

    method AnswerPing(source: string, incarnation: Option<int>, checksum: int, maxReverseFullSyncJobs: nat)
      returns (res: PingResult, reverse: bool)
      requires Valid() && isReady
      modifies dissemination`changes, dissemination`reverseFullSyncJobs
      ensures Valid() && res.Answered?
      ensures Answer(old(State()), Sender(source, incarnation), dissemination.maxPiggybackCount,
                     Checksum(membership.hashFunc, old(State()).view) != checksum, res.changes, res.fullSync, State())
      ensures reverse <==> res.fullSync && old(dissemination.reverseFullSyncJobs) < maxReverseFullSyncJobs
      ensures dissemination.reverseFullSyncJobs == old(dissemination.reverseFullSyncJobs) + if reverse then 1 else 0
    {
      reverse := false;
      var changes, fullSync := IssueAsReceiver(source, incarnation, checksum);
      if fullSync {
        reverse := StartReverse(maxReverseFullSyncJobs);
      }
      res := Answered(changes, fullSync);
    }

    method StartReverse(max: nat) returns (started: bool)
      requires Valid()
      modifies dissemination`reverseFullSyncJobs
      ensures Valid() && State() == old(State())
      ensures started <==> old(dissemination.reverseFullSyncJobs) < max
      ensures dissemination.reverseFullSyncJobs == old(dissemination.reverseFullSyncJobs) + if started then 1 else 0
    {
      assert allocated(Objs(ring.rbtree.model));
      started := dissemination.TryStartReverseFullSync(max);
    }
  }

  datatype PingBody = PingBody(source: Option<string>, sourceIncarnation: Option<int>, changes: Option<seq<Change>>,
                               checksum: Option<int>, app: Option<string>)

  datatype PingConfig = PingConfig(app: string, requiresAppInPing: bool, maxReverseFullSyncJobs: nat)

  datatype PingError = NotReady | Malformed | WrongApp | MissingApp

  datatype PingResult = Refused(error: PingError) | Answered(changes: seq<Change>, fullSync: bool)

  /** When a ping is turned down. */
  function Refusal(ready: bool, body: Option<PingBody>, cfg: PingConfig): Option<PingError> {
    if !ready then Some(NotReady)
    else if body.None? || !Truthy(body.value.source) || body.value.changes.None? || !TruthyNumber(body.value.checksum)
    then Some(Malformed)
    else if body.value.app.Some? && body.value.app.value != cfg.app then Some(WrongApp)
    else if body.value.app.None? && cfg.requiresAppInPing then Some(MissingApp)
    else None
  }

  /** Which pings are accepted, and what the others are refused with. */
  lemma RefusedWhen(ready: bool, body: PingBody, cfg: PingConfig)
    ensures var wellFormed := body.source.Some? && body.source.value != "" && body.changes.Some?
                              && body.checksum.Some? && body.checksum.value != 0;
            var sameApp := if body.app.Some? then body.app.value == cfg.app else !cfg.requiresAppInPing;
            && Refusal(ready, None, cfg) == Some(if ready then Malformed else NotReady)
            && (Refusal(ready, Some(body), cfg).None? <==> ready && wellFormed && sameApp)
            && (Refusal(ready, Some(body), cfg) == Some(NotReady) <==> !ready)
            && (Refusal(ready, Some(body), cfg) == Some(Malformed) <==> ready && !wellFormed)
            && (Refusal(ready, Some(body), cfg) == Some(WrongApp) ==> body.app.Some?)
  {
  }

  /** What `handlePing` does: a refused ping changes nothing; after a full sync, a reverse job starts if there is
      room for another one besides `jobs`. */
  ghost predicate HandledPing(before: NodeState, body: Option<PingBody>, cfg: PingConfig, o: Oracle,
                              hashFunc: string -> int, max: nat, jobs: nat, res: PingResult, reverse: bool,
                              after: NodeState)
    requires before.ready ==> before.me in before.view
  {
    && (res.Refused? <==> Refusal(before.ready, body, cfg).Some?)
    && (res.Refused? ==> Some(res.error) == Refusal(before.ready, body, cfg) && after == before && !reverse)
    && (res.Answered? ==> Pinged(before, body.value, o, hashFunc, max, res, after))
    && (reverse <==> res.Answered? && res.fullSync && jobs < cfg.maxReverseFullSyncJobs)
  }

  /** An accepted ping: the changes are applied, then the answer is issued. */
  ghost predicate Pinged(before: NodeState, body: PingBody, o: Oracle, hashFunc: string -> int, max: nat,
                         res: PingResult, after: NodeState)
    requires before.me in before.view && res.Answered?
    requires body.source.Some? && body.changes.Some? && body.checksum.Some?
  {
    var n := Receive(before, body.changes.value, o);
    Answer(n, Sender(body.source.value, body.sourceIncarnation), max, Checksum(hashFunc, n.view) != body.checksum.value,
           res.changes, res.fullSync, after)
  }

  /** What a node with an entry of its own sends. */
  ghost function PingOf(n: NodeState, changes: seq<Change>, app: string, hashFunc: string -> int): PingBody
    requires n.me in n.view
  {
    PingBody(Some(n.me), Some(n.view[n.me].incarnation), Some(changes), Some(Checksum(hashFunc, n.view)), Some(app))
  }

  /** A ping of node `before`: the changes that are due, under the own name, incarnation and checksum. */
  ghost predicate Sent(before: NodeState, body: PingBody, hashFunc: string -> int, max: nat, after: NodeState) {
    && body.source == Some(before.me)
    && (if before.me in before.view
        then body.checksum == Some(Checksum(hashFunc, before.view))
             && body.sourceIncarnation == Some(before.view[before.me].incarnation)
        else body.sourceIncarnation == None)
    && body.changes.Some? && Lists(body.changes.value, ToIssue(before.buffer, None, max))
    && after == before.(buffer := Unspent(before.buffer, None, max))
  }

  /** The sender after the reply; without an error, `res` are the changes of the reply if it has any and they are
      waited for. */
  ghost function Replied(n: NodeState, err: bool, sent: seq<Change>, res: Option<seq<Change>>, o: Oracle): NodeState
    requires n.ready ==> n.me in n.view
  {
    if err then n
    else
      var m := n.(buffer := Bumped(n.buffer, sent));
      if res.Some? && n.ready then Receive(m, res.value, o) else m
  }

  ghost function Checksum(hashFunc: string -> int, v: View): int {
    hashFunc(Checksums.ChecksumString(v))
  }

  /** What a receiver answers: the changes it may issue or, if there are none and the checksums differ, every entry. */
  ghost predicate Answer(n: NodeState, to: Sender, max: nat, differ: bool, changes: seq<Change>, fullSync: bool,
                         after: NodeState) {
    && (fullSync <==> differ && ToIssue(n.buffer, Some(to), max) == map[])
    && Lists(changes, if fullSync then FullSyncIndex(n.me, n.view) else ToIssue(n.buffer, Some(to), max))
    && after == n.(buffer := Bumped(Unspent(n.buffer, Some(to), max), changes))
  }

  lemma ListsMembers(ms: seq<Member>, idx: map<string, Member>, me: string, v: View, changes: seq<Change>)
    requires Distinct(ms) && Agree(ms, idx) && v.Keys == idx.Keys && |changes| == |ms|
    requires forall k :: 0 <= k < |ms| ==>
               ms[k].address in v && changes[k] == FullSyncChange(me, ms[k].address, v[ms[k].address])
    ensures Lists(changes, FullSyncIndex(me, v))
  {
    forall a | a in v ensures exists k :: 0 <= k < |changes| && changes[k].address == a {
      var k :| 0 <= k < |ms| && ms[k] == idx[a];
      assert changes[k].address == a;
    }
  }

  function StashOf(m: Membership): seq<seq<Change>>
    reads m`stashedUpdates
  {
    if m.stashedUpdates.Some? then m.stashedUpdates.value else []
  }

  lemma SetAfterBoot(n: NodeState, me: string, stash: seq<seq<Change>>)
    ensures forall updates :: Lists(updates, MergeSets(me, stash)) ==>
              SetFrom(n.view, Boot(n, updates).view, me, Flatten(stash))
  {
    forall updates | Lists(updates, MergeSets(me, stash))
      ensures SetFrom(n.view, Boot(n, updates).view, me, Flatten(stash))
    {
      SetEntries(me, n.view, stash, updates);
    }
  }

  lemma BootNothing(n: NodeState)
    ensures Boot(n, []) == n.(ready := true)
  {
    assert n.view + Live([]) == n.view;
    assert n.ring + Adds([]) == n.ring;
  }

  /** The addresses that an update batch adds to the ring and removes from it. */
  method SplitByPingable(updates: seq<Change>) returns (serversToAdd: seq<string>, serversToRemove: seq<string>)
    ensures Set(serversToAdd) == Adds(updates) && Set(serversToRemove) == Removes(updates)
  {
    serversToAdd, serversToRemove := [], [];
    for i := 0 to |updates|
      invariant Set(serversToAdd) == Adds(updates[..i]) && Set(serversToRemove) == Removes(updates[..i])
    {
      assert updates[..i + 1] == updates[..i] + [updates[i]];
      AddsSnoc(updates[..i], updates[i]);
      match updates[i].status {
        case Alive | Suspect =>
          serversToAdd := Push(serversToAdd, updates[i].address);
        case Faulty | Leave | Tombstone =>
          serversToRemove := Push(serversToRemove, updates[i].address);
      }
    }
    assert updates[..|updates|] == updates;
  }

  function Push(xs: seq<string>, x: string): (r: seq<string>)
    ensures Set(r) == Set(xs) + {x}
  {
    xs + [x]
  }
}
