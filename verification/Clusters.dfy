/** A cluster: its nodes, the change lists in flight, and the states each node gave itself. */
module Clusters {
  import opened Wrappers
  import opened Members
  import opened Merging
  import opened Transitions
  import opened Disseminations
  import opened NodeModel
  import Exchanges

  /** The states each node gave to its own entry, oldest first. */
  type Minted = map<string, seq<State>>

  /** `net` holds every list ever sent, so that lists may be lost, repeated and reordered at will. */
  datatype Cluster = Cluster(nodes: map<string, NodeState>, net: set<seq<Change>>, minted: Minted)

  datatype Step =
    | Start(x: string, now: int, id: nat)
    | LocalStatus(x: string, status: Status, now: int, id: nat)
    | Bootstrap(x: string, stash: seq<seq<Change>>, updates: seq<Change>)
    | Deliver(x: string, l: seq<Change>, o: Oracle)
    | TimerFires(x: string, a: string, id: nat, now: int, newId: nat)
    | Accuse(x: string, a: string, status: Status, id: nat, now: int, newId: nat)
    | Issue(x: string, filter: Option<Sender>, max: nat, l: seq<Change>)
    | Count(x: string, l: seq<Change>)
    | FullSync(x: string, l: seq<Change>)
    | Relay(l: seq<Change>)
    | Suspicions(l: seq<Change>)
    | EnableTimers(x: string)

  predicate Known(cl: Cluster, x: string) {
    x in cl.nodes && cl.nodes[x].me == x && x in cl.nodes[x].view
  }

  predicate Ready(cl: Cluster, x: string) {
    Known(cl, x) && cl.nodes[x].ready
  }

  /** The clock of a node is ahead of every incarnation the node has given itself. */
  predicate Advanced(cl: Cluster, x: string, now: int)
    requires Known(cl, x)
  {
    now > cl.nodes[x].view[x].incarnation
  }

  ghost predicate InFlight(cl: Cluster, c: Change) {
    exists l :: l in cl.net && c in l
  }

  ghost predicate Seen(cl: Cluster, a: string, incarnation: int) {
    exists d :: InFlight(cl, d) && d.address == a && d.incarnation == incarnation
  }

  ghost predicate Enabled(cl: Cluster, s: Step) {
    match s
    case Start(x, _, _) => x !in cl.nodes
    case LocalStatus(x, _, now, _) => Known(cl, x) && Advanced(cl, x, now)
    case Bootstrap(x, stash, updates) =>
      && Known(cl, x) && !cl.nodes[x].ready
      && (forall i :: 0 <= i < |stash| ==> stash[i] in cl.net) && Lists(updates, MergeSets(x, stash))
    case Deliver(x, l, o) => Ready(cl, x) && l in cl.net && forall i :: Advanced(cl, x, o.clock(i))
    case TimerFires(x, a, _, now, _) =>
      && Ready(cl, x) && a in cl.nodes[x].timers && cl.nodes[x].timers[a].pending && Advanced(cl, x, now)
    case Accuse(x, a, status, _, now, _) =>
      Ready(cl, x) && a in cl.nodes[x].view && status in {Suspect, Faulty, Tombstone} && Advanced(cl, x, now)
    case Issue(x, filter, max, l) => Known(cl, x) && Lists(l, ToIssue(cl.nodes[x].buffer, filter, max))
    case Count(x, _) => Known(cl, x)
    case FullSync(x, l) => Known(cl, x) && Lists(l, FullSyncIndex(x, cl.nodes[x].view))
    case Relay(l) => DistinctAddresses(l) && forall c :: c in l ==> InFlight(cl, c)
    case Suspicions(l) =>
      DistinctAddresses(l) && forall c :: c in l ==> c.status.Suspect? && Seen(cl, c.address, c.incarnation)
    case EnableTimers(x) => Known(cl, x)
  }

  function Minting(m: Minted, x: string, own: State): Minted {
    if x !in m || m[x] == [] then m[x := [own]]
    else if m[x][|m[x]| - 1] == own then m
    else m[x := m[x] + [own]]
  }

  /** The cluster with a new state of one node; what it now says about itself is minted. */
  function Moved(cl: Cluster, x: string, n: NodeState): Cluster
    requires x in n.view
  {
    cl.(nodes := cl.nodes[x := n], minted := Minting(cl.minted, x, n.view[x]))
  }

  predicate OnlyLists(s: Step) {
    s.FullSync? || s.Relay? || s.Suspicions?
  }

  /** The acting node after its step. */
  ghost function NodeAfter(cl: Cluster, s: Step): (n: NodeState)
    requires Enabled(cl, s) && !OnlyLists(s)
    ensures s.x in n.view
  {
    match s
    case Start(x, now, id) => SetLocal(NodeState(x, false, map[], true, map[], map[], {}), Alive, now, id)
    case LocalStatus(x, status, now, id) => SetLocal(cl.nodes[x], status, now, id)
    case Bootstrap(x, stash, updates) => Boot(cl.nodes[x], updates)
    case Deliver(x, l, o) => Receive(cl.nodes[x], l, o)
    case TimerFires(x, a, id, now, newId) => Fire(cl.nodes[x], a, id, now, newId)
    case Accuse(x, a, status, id, now, newId) => Declaring(cl.nodes[x], a, status, id, now, newId)
    case Issue(x, filter, max, l) => cl.nodes[x].(buffer := Unspent(cl.nodes[x].buffer, filter, max))
    case Count(x, l) => cl.nodes[x].(buffer := Bumped(cl.nodes[x].buffer, l))
    case EnableTimers(x) => cl.nodes[x].(enabled := true)
  }

  /** `makeSuspect`, `makeFaulty` or `makeTombstone` of a listed member at its incarnation. */
  function Declaring(n: NodeState, a: string, status: Status, id: nat, now: int, newId: nat): NodeState
    requires n.me in n.view && a in n.view
  {
    Receive(n, [Declared(n.view, n.me, a, n.view[a].incarnation, status, id)], Oracle(i => now, i => newId))
  }

  ghost function After(cl: Cluster, s: Step): Cluster
    requires Enabled(cl, s)
  {
    var sent := if OnlyLists(s) || s.Issue? then {s.l} else {};
    if OnlyLists(s) then cl.(net := cl.net + sent)
    else Moved(cl.(net := cl.net + sent), s.x, NodeAfter(cl, s))
  }

  const INITIAL := Cluster(map[], {}, map[])

  // ---- ownership ----

  /** An entry about `a`: no newer than what `a` last said about itself, and alive or leave only if `a` said so. */
  ghost predicate Owned(m: Minted, a: string, s: State) {
    && a in m && m[a] != [] && s.incarnation <= m[a][|m[a]| - 1].incarnation
    && (s.status in {Alive, Leave} ==> s in m[a])
  }

  /** A node's own entry is the last state it minted, and every one had a higher incarnation than those before. */
  ghost predicate Latest(m: Minted, n: NodeState) {
    && n.me in n.view && n.me in m && m[n.me] != [] && m[n.me][|m[n.me]| - 1] == n.view[n.me]
    && forall i, j :: 0 <= i < j < |m[n.me]| ==> m[n.me][i].incarnation < m[n.me][j].incarnation
  }

  ghost predicate NodeOwned(m: Minted, n: NodeState) {
    && (forall a :: a in n.view ==> Owned(m, a, n.view[a]))
    && (forall a :: a in n.buffer ==> Owned(m, a, StateOf(n.buffer[a].change)))
  }

  ghost predicate ListOwned(m: Minted, l: seq<Change>) {
    forall c :: c in l ==> Owned(m, c.address, StateOf(c))
  }

  ghost predicate NodeOk(m: Minted, x: string, n: NodeState) {
    n.me == x && Good(n) && Latest(m, n) && NodeOwned(m, n)
  }

  ghost predicate ListOk(m: Minted, l: seq<Change>) {
    DistinctAddresses(l) && ListOwned(m, l)
  }

  ghost predicate NodesOk(m: Minted, nodes: map<string, NodeState>) {
    m.Keys == nodes.Keys && forall x :: x in nodes ==> NodeOk(m, x, nodes[x])
  }

  ghost predicate NetOk(m: Minted, net: set<seq<Change>>) {
    forall l :: l in net ==> ListOk(m, l)
  }

  /** Incarnation ownership, everywhere in the cluster. */
  ghost predicate Inv(cl: Cluster) {
    NodesOk(cl.minted, cl.nodes) && NetOk(cl.minted, cl.net)
  }

  /** What a step of `x` may do to it: its own entry stays or gets a newer incarnation, and everything else
      it now says was owned before. */
  ghost predicate Lawful(cl: Cluster, x: string, n: NodeState) {
    && n.me == x && Good(n)
    && (if x in cl.nodes && x in cl.nodes[x].view
        then n.view[x] == cl.nodes[x].view[x] || n.view[x].incarnation > cl.nodes[x].view[x].incarnation
        else x !in cl.nodes && x !in cl.minted)
    && (forall a :: a in n.view && a != x ==> Owned(cl.minted, a, n.view[a]))
    && (forall a :: a in n.buffer && a != x ==> Owned(cl.minted, a, StateOf(n.buffer[a].change)))
  }

  /** Minting a newer state takes nothing away. */
  lemma MintingGrows(m: Minted, x: string, own: State)
    requires x in m && m[x] != [] ==> own == m[x][|m[x]| - 1] || own.incarnation > m[x][|m[x]| - 1].incarnation
    ensures Grows(m, Minting(m, x, own)) && Owned(Minting(m, x, own), x, own)
  {
  }

  lemma MintingIsLatest(cl: Cluster, x: string, n: NodeState)
    requires Lawful(cl, x, n) && (x in cl.nodes ==> NodeOk(cl.minted, x, cl.nodes[x]))
    ensures Latest(Minting(cl.minted, x, n.view[x]), n)
    ensures x in cl.minted && cl.minted[x] != [] ==>
              var last := cl.minted[x][|cl.minted[x]| - 1];
              n.view[x] == last || n.view[x].incarnation > last.incarnation
  {
  }

  ghost predicate Grows(m: Minted, m': Minted) {
    forall a, s :: Owned(m, a, s) ==> Owned(m', a, s)
  }

  lemma NodeOkGrows(m: Minted, x: string, own: State, y: string, n: NodeState)
    requires NodeOk(m, y, n) && y != x && Grows(m, Minting(m, x, own))
    ensures NodeOk(Minting(m, x, own), y, n)
  {
  }

  lemma ListOkGrows(m: Minted, m': Minted, l: seq<Change>)
    requires ListOk(m, l) && Grows(m, m')
    ensures ListOk(m', l)
  {
  }

  lemma MovedNode(cl: Cluster, x: string, n: NodeState, m': Minted)
    requires Lawful(cl, x, n) && Owned(m', x, n.view[x]) && Latest(m', n) && Grows(cl.minted, m')
    ensures NodeOk(m', x, n)
  {
  }

  ghost predicate OthersOk(m: Minted, nodes: map<string, NodeState>, x: string) {
    forall y :: y in nodes && y != x ==> NodeOk(m, y, nodes[y])
  }

  lemma OthersKept(m: Minted, nodes: map<string, NodeState>, x: string, own: State)
    ensures NodesOk(m, nodes) && Grows(m, Minting(m, x, own)) ==> OthersOk(Minting(m, x, own), nodes, x)
  {
    if NodesOk(m, nodes) && Grows(m, Minting(m, x, own)) {
      forall y | y in nodes && y != x ensures NodeOk(Minting(m, x, own), y, nodes[y]) {
        NodeOkGrows(m, x, own, y, nodes[y]);
      }
    }
  }

  lemma OthersAndOne(m: Minted, nodes: map<string, NodeState>, x: string, n: NodeState)
    requires m.Keys == nodes.Keys + {x}
    ensures OthersOk(m, nodes, x) && NodeOk(m, x, n) ==> NodesOk(m, nodes[x := n])
  {
  }

  lemma NodesMoved(m: Minted, nodes: map<string, NodeState>, x: string, n: NodeState)
    requires x in n.view && m.Keys == nodes.Keys
    ensures var m' := Minting(m, x, n.view[x]);
            NodesOk(m, nodes) && Grows(m, m') && NodeOk(m', x, n) ==> NodesOk(m', nodes[x := n])
  {
    OthersKept(m, nodes, x, n.view[x]);
    OthersAndOne(Minting(m, x, n.view[x]), nodes, x, n);
  }

  lemma NetKept(m: Minted, m': Minted, net: set<seq<Change>>)
    ensures NetOk(m, net) && Grows(m, m') ==> NetOk(m', net)
  {
    if NetOk(m, net) && Grows(m, m') {
      forall l | l in net ensures ListOk(m', l) {
        ListOkGrows(m, m', l);
      }
    }
  }

  lemma MovedIsOk(cl: Cluster, x: string, n: NodeState)
    ensures Lawful(cl, x, n) && NodesOk(cl.minted, cl.nodes) ==>
              NodeOk(Minting(cl.minted, x, n.view[x]), x, n) && Grows(cl.minted, Minting(cl.minted, x, n.view[x]))
  {
    if Lawful(cl, x, n) && NodesOk(cl.minted, cl.nodes) {
      MintingIsLatest(cl, x, n);
      MintingGrows(cl.minted, x, n.view[x]);
      MovedNode(cl, x, n, Minting(cl.minted, x, n.view[x]));
    }
  }

  lemma MovedKeepsInv(cl: Cluster, x: string, n: NodeState)
    requires Inv(cl) && Lawful(cl, x, n)
    ensures Inv(Moved(cl, x, n))
  {
    MovedIsOk(cl, x, n);
    NodesMoved(cl.minted, cl.nodes, x, n);
    NetKept(cl.minted, Minting(cl.minted, x, n.view[x]), cl.net);
  }

  lemma SentKeepsInv(cl: Cluster, l: seq<Change>)
    requires Inv(cl) && ListOk(cl.minted, l)
    ensures Inv(cl.(net := cl.net + {l}))
  {
  }

  // ---- the steps ----

  /** What a batch leaves behind: known entries, entries of the batch, and the local member's own minting. */
  lemma {:induction false} UpdateEntries(v: View, me: string, changes: seq<Change>, o: Oracle)
    requires me in v
    ensures var r := UpdateAll(v, me, changes, o);
            && (forall a :: a in r.view && a != me ==>
                  || (a in v && r.view[a] == v[a])
                  || exists c :: c in changes && c.address == a && StateOf(c) == r.view[a])
            && (forall u :: u in r.updates && u.address != me ==> u in changes)
  {
    if changes == [] {
    } else {
      var n := |changes| - 1;
      UpdateEntries(v, me, changes[..n], o);
      var before, after := UpdateAll(v, me, changes[..n], o), UpdateAll(v, me, changes, o);
      assert changes[n] in changes && forall c :: c in changes[..n] ==> c in changes;
      forall a | a in after.view && a != me && !(a in v && after.view[a] == v[a])
        ensures exists c :: c in changes && c.address == a && StateOf(c) == after.view[a]
      {
        if after.view != before.view && a == changes[n].address {
          assert StateOf(changes[n]) == after.view[a];
        } else {
          var c :| c in changes[..n] && c.address == a && StateOf(c) == before.view[a];
        }
      }
    }
  }

  lemma {:induction false} RecordedEntries(b: Buffer, updates: seq<Change>)
    ensures forall a :: a in RecordedAll(b, updates) ==>
              (a in b && RecordedAll(b, updates)[a] == b[a])
              || (RecordedAll(b, updates)[a].change in updates && RecordedAll(b, updates)[a].change.address == a)
  {
    if updates == [] {
    } else {
      RecordedEntries(b, updates[..|updates| - 1]);
    }
  }

  lemma ReceiveEntries(n: NodeState, m: Minted, l: seq<Change>, o: Oracle)
    requires n.me in n.view && NodeOwned(m, n) && ListOwned(m, l)
    ensures var r := Receive(n, l, o);
            && (forall a :: a in r.view && a != n.me ==> Owned(m, a, r.view[a]))
            && (forall a :: a in r.buffer && a != n.me ==> Owned(m, a, StateOf(r.buffer[a].change)))
  {
    UpdateEntries(n.view, n.me, l, o);
    var r := UpdateAll(n.view, n.me, l, o);
    RecordedEntries(n.buffer, r.updates);
  }

  lemma ReceiveLawful(cl: Cluster, x: string, l: seq<Change>, o: Oracle)
    requires x in cl.nodes && NodeOk(cl.minted, x, cl.nodes[x]) && cl.nodes[x].ready && ListOk(cl.minted, l)
    requires forall i :: o.clock(i) > cl.nodes[x].view[x].incarnation
    ensures Lawful(cl, x, Receive(cl.nodes[x], l, o))
  {
    ReceiveKeeps(cl.nodes[x], l, o);
    ReceiveEntries(cl.nodes[x], cl.minted, l, o);
    LocalStatusKept(cl.nodes[x].view, x, l, o);
  }

  lemma StartLawful(cl: Cluster, x: string, now: int, id: nat)
    requires x !in cl.nodes && x !in cl.minted
    ensures Lawful(cl, x, SetLocal(NodeState(x, false, map[], true, map[], map[], {}), Alive, now, id))
  {
    StartIsGood(x, Alive, now, id);
    RecordedEntries(map[], [Refutation(x, Alive, now, id)]);
  }

  lemma SetLocalLawful(cl: Cluster, x: string, status: Status, now: int, id: nat)
    requires x in cl.nodes && NodeOk(cl.minted, x, cl.nodes[x]) && now > cl.nodes[x].view[x].incarnation
    ensures Lawful(cl, x, SetLocal(cl.nodes[x], status, now, id))
  {
    var n := cl.nodes[x];
    SetLocalKeeps(n, status, now, id);
    RecordedEntries(n.buffer, [Refutation(x, status, now, id)]);
  }

  lemma FireLawful(cl: Cluster, x: string, a: string, id: nat, now: int, newId: nat)
    requires x in cl.nodes && NodeOk(cl.minted, x, cl.nodes[x]) && cl.nodes[x].ready
    requires a in cl.nodes[x].timers && cl.nodes[x].timers[a].pending && now > cl.nodes[x].view[x].incarnation
    ensures Lawful(cl, x, Fire(cl.nodes[x], a, id, now, newId))
  {
    var n := cl.nodes[x];
    FireKeeps(n, a, id, now, newId);
    var t := n.timers[a];
    if !t.state.Tombstone? {
      FireDeclares(n, a, id, now, newId);
      var m := n.(timers := n.timers[a := t.(pending := false)]);
      ReceiveEntries(m, cl.minted, [Declared(n.view, n.me, a, t.incarnation, TargetOf(t.state), id)],
        Oracle(i => now, i => newId));
    }
  }

  /** Suspect, faulty and tombstone claims at an incarnation somebody already knows are anybody's to make. */
  lemma AccusationOwned(m: Minted, a: string, s: State, incarnation: int, status: Status)
    requires Owned(m, a, s) && incarnation <= s.incarnation && status in {Suspect, Faulty, Tombstone}
    ensures Owned(m, a, State(incarnation, status))
  {
  }

  lemma AccuseLawful(cl: Cluster, x: string, a: string, status: Status, id: nat, now: int, newId: nat)
    requires x in cl.nodes && NodeOk(cl.minted, x, cl.nodes[x]) && cl.nodes[x].ready
    requires a in cl.nodes[x].view && status in {Suspect, Faulty, Tombstone} && now > cl.nodes[x].view[x].incarnation
    ensures Lawful(cl, x, Declaring(cl.nodes[x], a, status, id, now, newId))
  {
    var n := cl.nodes[x];
    AccusationOwned(cl.minted, a, n.view[a], n.view[a].incarnation, status);
    ReceiveLawful(cl, x, [Declared(n.view, n.me, a, n.view[a].incarnation, status, id)], Oracle(i => now, i => newId));
  }

  lemma MergedOwned(m: Minted, me: string, sets: seq<seq<Change>>)
    requires forall i :: 0 <= i < |sets| ==> ListOwned(m, sets[i])
    ensures forall a :: a in MergeSets(me, sets) ==> Owned(m, a, StateOf(MergeSets(me, sets)[a]))
  {
    MergeSetsKeyed(me, sets);
    forall a | a in MergeSets(me, sets) ensures Owned(m, a, StateOf(MergeSets(me, sets)[a])) {
      MergeSetsRepeat(me, sets, a);
    }
  }

  lemma BootLawful(cl: Cluster, x: string, stash: seq<seq<Change>>, updates: seq<Change>)
    requires x in cl.nodes && NodeOk(cl.minted, x, cl.nodes[x]) && !cl.nodes[x].ready
    requires Lists(updates, MergeSets(x, stash)) && forall i :: 0 <= i < |stash| ==> ListOwned(cl.minted, stash[i])
    ensures Lawful(cl, x, Boot(cl.nodes[x], updates))
  {
    MergeSetsKeyed(x, stash);
    MergedOwned(cl.minted, x, stash);
    LiveOfListing(x, updates, MergeSets(x, stash));
    BootKeeps(cl.nodes[x], updates);
    BootEntries(cl.minted, cl.nodes[x], updates, MergeSets(x, stash));
  }

  lemma BootEntries(m: Minted, n: NodeState, updates: seq<Change>, idx: Index)
    requires DistinctAddresses(updates) && NodeOwned(m, n) && n.me in n.view
    requires Live(updates) == LiveOf(idx) && n.me !in idx
    requires forall a :: a in idx ==> Owned(m, a, StateOf(idx[a]))
    ensures forall a :: a in Boot(n, updates).view ==> Owned(m, a, Boot(n, updates).view[a])
    ensures Boot(n, updates).view[n.me] == n.view[n.me]
  {
  }

  lemma ThinLawful(cl: Cluster, x: string, b: Buffer)
    requires x in cl.nodes && NodeOk(cl.minted, x, cl.nodes[x]) && Thinned(cl.nodes[x].buffer, b)
    ensures Lawful(cl, x, cl.nodes[x].(buffer := b))
  {
    IssueKeeps(cl.nodes[x], b);
  }

  lemma EnableLawful(cl: Cluster, x: string)
    requires x in cl.nodes && NodeOk(cl.minted, x, cl.nodes[x])
    ensures Lawful(cl, x, cl.nodes[x].(enabled := true))
  {
  }

  predicate Rules(s: Step) {
    s.LocalStatus? || s.Deliver? || s.TimerFires? || s.Accuse?
  }

  lemma RuleStepLawful(cl: Cluster, s: Step)
    requires Enabled(cl, s) && Rules(s)
    ensures Inv(cl) ==> Lawful(cl, s.x, NodeAfter(cl, s))
  {
    if Inv(cl) {
      assert NodeOk(cl.minted, s.x, cl.nodes[s.x]);
      match s
      case LocalStatus(x, status, now, id) => SetLocalLawful(cl, x, status, now, id);
      case Deliver(x, l, o) =>
        assert ListOk(cl.minted, l);
        ReceiveLawful(cl, x, l, o);
      case TimerFires(x, a, id, now, newId) => FireLawful(cl, x, a, id, now, newId);
      case Accuse(x, a, status, id, now, newId) => AccuseLawful(cl, x, a, status, id, now, newId);
    }
  }

  lemma BootStepLawful(cl: Cluster, s: Step)
    requires Enabled(cl, s) && s.Bootstrap?
    ensures Inv(cl) ==> Lawful(cl, s.x, NodeAfter(cl, s))
  {
    if Inv(cl) {
      forall i | 0 <= i < |s.stash| ensures ListOwned(cl.minted, s.stash[i]) {
        assert ListOk(cl.minted, s.stash[i]);
      }
      assert NodeOk(cl.minted, s.x, cl.nodes[s.x]);
      BootLawful(cl, s.x, s.stash, s.updates);
    }
  }

  lemma OtherStepLawful(cl: Cluster, s: Step)
    requires Enabled(cl, s) && (s.Start? || s.Issue? || s.Count? || s.EnableTimers?)
    ensures Inv(cl) ==> Lawful(cl, s.x, NodeAfter(cl, s))
  {
    if Inv(cl) {
      match s
      case Start(x, now, id) => StartLawful(cl, x, now, id);
      case Issue(x, filter, max, l) =>
        assert NodeOk(cl.minted, x, cl.nodes[x]);
        ThinLawful(cl, x, Unspent(cl.nodes[x].buffer, filter, max));
      case Count(x, l) =>
        assert NodeOk(cl.minted, x, cl.nodes[x]);
        BumpedThins(cl.nodes[x].buffer, l);
        ThinLawful(cl, x, Bumped(cl.nodes[x].buffer, l));
      case EnableTimers(x) =>
        assert NodeOk(cl.minted, x, cl.nodes[x]);
        EnableLawful(cl, x);
    }
  }

  /** Every step of a node is lawful. */
  lemma StepLawful(cl: Cluster, s: Step)
    requires Enabled(cl, s) && !OnlyLists(s)
    ensures Inv(cl) ==> Lawful(cl, s.x, NodeAfter(cl, s))
  {
    if Rules(s) {
      RuleStepLawful(cl, s);
    } else if s.Bootstrap? {
      BootStepLawful(cl, s);
    } else {
      OtherStepLawful(cl, s);
    }
  }

  lemma IssuedOk(m: Minted, x: string, n: NodeState, l: seq<Change>, filter: Option<Sender>, max: nat)
    requires NodeOwned(m, n) && Wellkeyed(n.buffer)
    requires Lists(l, ToIssue(n.buffer, filter, max)) || Lists(l, FullSyncIndex(x, n.view))
    ensures ListOk(m, l)
  {
  }

  lemma InFlightOwned(cl: Cluster, c: Change)
    ensures NetOk(cl.minted, cl.net) && InFlight(cl, c) ==> Owned(cl.minted, c.address, StateOf(c))
  {
    if NetOk(cl.minted, cl.net) && InFlight(cl, c) {
      var k :| k in cl.net && c in k;
      assert ListOk(cl.minted, k);
    }
  }

  lemma RelayedOk(cl: Cluster, l: seq<Change>)
    requires DistinctAddresses(l) && NetOk(cl.minted, cl.net)
    requires forall c :: c in l ==> InFlight(cl, c) || (c.status.Suspect? && Seen(cl, c.address, c.incarnation))
    ensures ListOk(cl.minted, l)
  {
    forall c | c in l ensures Owned(cl.minted, c.address, StateOf(c)) {
      InFlightOwned(cl, c);
      if !InFlight(cl, c) {
        var d :| InFlight(cl, d) && d.address == c.address && d.incarnation == c.incarnation;
        InFlightOwned(cl, d);
      }
    }
  }

  /** Every list that is sent is owned. */
  lemma SentOk(cl: Cluster, s: Step)
    requires Enabled(cl, s) && (OnlyLists(s) || s.Issue?)
    ensures Inv(cl) ==> ListOk(cl.minted, s.l)
  {
    if Inv(cl) {
      if s.Issue? {
        assert NodeOk(cl.minted, s.x, cl.nodes[s.x]);
        IssuedOk(cl.minted, s.x, cl.nodes[s.x], s.l, s.filter, s.max);
      } else if s.FullSync? {
        assert NodeOk(cl.minted, s.x, cl.nodes[s.x]);
        IssuedOk(cl.minted, s.x, cl.nodes[s.x], s.l, None, 0);
      } else {
        RelayedOk(cl, s.l);
      }
    }
  }

  /** Incarnation ownership is kept by every step. */
  lemma StepKeepsInv(cl: Cluster, s: Step)
    requires Enabled(cl, s)
    ensures Inv(cl) ==> Inv(After(cl, s))
  {
    if OnlyLists(s) || s.Issue? {
      SentOk(cl, s);
    }
    if !OnlyLists(s) {
      StepLawful(cl, s);
    }
    if Inv(cl) {
      StepFromLawful(cl, s);
    }
  }

  lemma StepFromLawful(cl: Cluster, s: Step)
    requires Enabled(cl, s) && Inv(cl)
    requires OnlyLists(s) || s.Issue? ==> ListOk(cl.minted, s.l)
    requires !OnlyLists(s) ==> Lawful(cl, s.x, NodeAfter(cl, s))
    ensures Inv(After(cl, s))
  {
    var sent := cl;
    if OnlyLists(s) || s.Issue? {
      SentKeepsInv(cl, s.l);
      sent := cl.(net := cl.net + {s.l});
    } else {
      assert cl.net + {} == cl.net;
    }
    if !OnlyLists(s) {
      MovedKeepsInv(sent, s.x, NodeAfter(cl, s));
    }
  }

  // ---- whole runs ----

  ghost predicate Run(cs: seq<Cluster>, steps: seq<Step>) {
    && |cs| == |steps| + 1 && cs[0] == INITIAL
    && forall i :: 0 <= i < |steps| ==> Enabled(cs[i], steps[i]) && cs[i + 1] == After(cs[i], steps[i])
  }

  /** Incarnation ownership holds throughout every run. */
  lemma {:induction false} RunKeepsInv(cs: seq<Cluster>, steps: seq<Step>, k: nat)
    requires Run(cs, steps) && k <= |steps|
    ensures Inv(cs[k])
  {
    if k == 0 {
    } else {
      RunKeepsInv(cs, steps, k - 1);
      StepKeepsInv(cs[k - 1], steps[k - 1]);
    }
  }

  /** Somebody holds or has sent state `s` of `x`. */
  ghost predicate Somewhere(cl: Cluster, x: string, s: State) {
    || (exists y :: y in cl.nodes && x in cl.nodes[y].view && cl.nodes[y].view[x] == s)
    || (exists y :: y in cl.nodes && x in cl.nodes[y].buffer && StateOf(cl.nodes[y].buffer[x].change) == s)
    || (exists c :: InFlight(cl, c) && c.address == x && StateOf(c) == s)
  }

  lemma SomewhereOwned(cl: Cluster, x: string, s: State)
    ensures Inv(cl) && Somewhere(cl, x, s) ==> Owned(cl.minted, x, s)
  {
    if Inv(cl) && Somewhere(cl, x, s) {
      if c :| InFlight(cl, c) && c.address == x && StateOf(c) == s {
        InFlightOwned(cl, c);
      } else if y :| y in cl.nodes && x in cl.nodes[y].view && cl.nodes[y].view[x] == s {
        assert NodeOk(cl.minted, y, cl.nodes[y]);
      } else {
        var y :| y in cl.nodes && x in cl.nodes[y].buffer && StateOf(cl.nodes[y].buffer[x].change) == s;
        assert NodeOk(cl.minted, y, cl.nodes[y]);
      }
    }
  }

  lemma OwnerKnown(cl: Cluster, x: string)
    ensures Inv(cl) && x in cl.minted ==> Known(cl, x) && Latest(cl.minted, cl.nodes[x])
  {
    if Inv(cl) && x in cl.minted {
      assert NodeOk(cl.minted, x, cl.nodes[x]);
    }
  }

  /** Whatever anyone holds or sends about `x` is at most as new as what `x` says about itself, and whoever
      calls `x` alive or gone by choice repeats what `x` once said. */
  lemma Ownership(cs: seq<Cluster>, steps: seq<Step>, k: nat, x: string, s: State)
    requires Run(cs, steps) && k <= |steps| && Somewhere(cs[k], x, s)
    ensures var cl := cs[k];
            && Known(cl, x) && s.incarnation <= cl.nodes[x].view[x].incarnation
            && (s.status in {Alive, Leave} ==> x in cl.minted && s in cl.minted[x])
            && (s.status in {Alive, Leave} && s.incarnation == cl.nodes[x].view[x].incarnation ==>
              s == cl.nodes[x].view[x])
  {
    RunKeepsInv(cs, steps, k);
    OwnershipNow(cs[k], x, s);
  }

  lemma OwnedIsRight(m: Minted, n: NodeState, s: State)
    requires Latest(m, n) && Owned(m, n.me, s)
    ensures s.incarnation <= n.view[n.me].incarnation
    ensures s.status in {Alive, Leave} && s.incarnation == n.view[n.me].incarnation ==> s == n.view[n.me]
  {
  }

  lemma OwnershipNow(cl: Cluster, x: string, s: State)
    requires Inv(cl) && Somewhere(cl, x, s)
    ensures Known(cl, x) && s.incarnation <= cl.nodes[x].view[x].incarnation
    ensures s.status in {Alive, Leave} ==> x in cl.minted && s in cl.minted[x]
    ensures s.status in {Alive, Leave} && s.incarnation == cl.nodes[x].view[x].incarnation ==> s == cl.nodes[x].view[x]
  {
    SomewhereOwned(cl, x, s);
    OwnerKnown(cl, x);
    OwnedIsRight(cl.minted, cl.nodes[x], s);
  }

  /** In every run, every node's ring, timers and buffer stay in step with its entries. */
  lemma NodesStayGood(cs: seq<Cluster>, steps: seq<Step>, k: nat, x: string)
    requires Run(cs, steps) && k <= |steps| && x in cs[k].nodes
    ensures Known(cs[k], x) && Good(cs[k].nodes[x])
    ensures var n := cs[k].nodes[x]; forall a :: a in n.ring <==> a in n.view && n.view[a].status in {Alive, Suspect}
  {
    RunKeepsInv(cs, steps, k);
    assert NodeOk(cs[k].minted, x, cs[k].nodes[x]);
  }

  // ---- refutations ----

  /** Whoever is heard about by a batch, unless it is unknown and only said to be a tombstone, has an entry
      afterwards that is at least as new. */
  lemma {:induction false} UpdateReaches(v: View, me: string, l: seq<Change>, o: Oracle, a: string, incarnation: int)
    requires me in v && a != me
    requires (a in v && incarnation <= v[a].incarnation)
             || exists i :: 0 <= i < |l| && l[i].address == a && incarnation <= l[i].incarnation
                            && (a in v || !l[i].status.Tombstone?)
    ensures var w := UpdateAll(v, me, l, o).view; a in w && w[a].incarnation >= incarnation
  {
    if l == [] {
    } else {
      var n := |l| - 1;
      if a in v {
        UpdateReaches(v, me, l[..n], o, a, v[a].incarnation);
      }
      if i :| 0 <= i < n && l[i].address == a && incarnation <= l[i].incarnation
              && (a in v || !l[i].status.Tombstone?) {
        assert l[..n][i] == l[i];
        UpdateReaches(v, me, l[..n], o, a, incarnation);
      }
    }
  }

  lemma AccusedMints(v: View, x: string, l: seq<Change>, o: Oracle, c: Change)
    requires x in v && DistinctAddresses(l) && c in l && c.address == x && Overrides(StateOf(c), v[x])
    ensures exists i :: UpdateAll(v, x, l, o).view[x] == State(o.clock(i), v[x].status)
  {
    var i :| 0 <= i < |l| && l[i] == c;
    Exchanges.UpdateDistinct(v, x, l, o, |l|);
    assert l[..|l|] == l;
  }

  lemma InNetDistinct(cl: Cluster, l: seq<Change>)
    ensures Inv(cl) && l in cl.net ==> DistinctAddresses(l)
  {
    assert NetOk(cl.minted, cl.net) && l in cl.net ==> ListOk(cl.minted, l);
  }

  lemma AccusedAfter(cl: Cluster, x: string, l: seq<Change>, o: Oracle, c: Change)
    requires Enabled(cl, Deliver(x, l, o)) && DistinctAddresses(l)
    requires c in l && c.address == x && Overrides(StateOf(c), cl.nodes[x].view[x])
    ensures var d := After(cl, Deliver(x, l, o));
            && Known(d, x) && d.nodes[x].view[x].incarnation > cl.nodes[x].view[x].incarnation
            && d.nodes[x].view[x].status == cl.nodes[x].view[x].status
  {
    AccusedMints(cl.nodes[x].view, x, l, o, c);
  }

  /** A node that is told something about itself that overrides its own entry refutes it: in the next state its
      incarnation is higher, and its status is unchanged. */
  lemma AccusedRefutes(cs: seq<Cluster>, steps: seq<Step>, k: nat, x: string, l: seq<Change>, o: Oracle, c: Change)
    requires Run(cs, steps) && k < |steps| && steps[k] == Deliver(x, l, o)
    requires c in l && c.address == x && Known(cs[k], x) && Overrides(StateOf(c), cs[k].nodes[x].view[x])
    ensures Known(cs[k + 1], x)
    ensures cs[k + 1].nodes[x].view[x].incarnation > cs[k].nodes[x].view[x].incarnation
    ensures cs[k + 1].nodes[x].view[x].status == cs[k].nodes[x].view[x].status
  {
    RunKeepsInv(cs, steps, k);
    InNetDistinct(cs[k], l);
    assert Enabled(cs[k], steps[k]) && cs[k + 1] == After(cs[k], steps[k]);
    AccusedAfter(cs[k], x, l, o, c);
  }

  /** Every claim about `x` that exists when `x` mints a state is older than that state. */
  lemma OlderThanMinted(cs: seq<Cluster>, steps: seq<Step>, k: nat, x: string, s: State)
    requires Run(cs, steps) && k < |steps| && Known(cs[k], x) && Known(cs[k + 1], x) && Somewhere(cs[k], x, s)
    requires cs[k + 1].nodes[x].view[x].incarnation > cs[k].nodes[x].view[x].incarnation
    ensures s.incarnation < cs[k + 1].nodes[x].view[x].incarnation
  {
    Ownership(cs, steps, k, x, s);
  }

  lemma DeliveredReaches(cl: Cluster, y: string, l: seq<Change>, o: Oracle, c: Change)
    requires Enabled(cl, Deliver(y, l, o)) && c in l && c.address != y
    requires c.address in cl.nodes[y].view || !c.status.Tombstone?
    ensures var d := After(cl, Deliver(y, l, o));
            && y in d.nodes && c.address in d.nodes[y].view
            && d.nodes[y].view[c.address].incarnation >= c.incarnation
  {
    var i :| 0 <= i < |l| && l[i] == c;
    UpdateReaches(cl.nodes[y].view, y, l, o, c.address, c.incarnation);
  }

  lemma ActorNeverFalls(cl: Cluster, s: Step, x: string)
    requires Enabled(cl, s) && !OnlyLists(s) && Known(cl, s.x) && Good(cl.nodes[s.x])
    requires x != s.x && x in cl.nodes[s.x].view
    ensures var v := NodeAfter(cl, s).view; x in v ==> v[x].incarnation >= cl.nodes[s.x].view[x].incarnation
  {
    var n := cl.nodes[s.x];
    match s
    case Deliver(_, l, o) => UpdateReaches(n.view, n.me, l, o, x, n.view[x].incarnation);
    case TimerFires(_, a, id, now, newId) =>
      var l := [Declared(n.view, n.me, a, n.timers[a].incarnation, TargetOf(n.timers[a].state), id)];
      UpdateReaches(n.view, n.me, l, Oracle(i => now, i => newId), x, n.view[x].incarnation);
    case Accuse(_, a, status, id, now, newId) =>
      var l := [Declared(n.view, n.me, a, n.view[a].incarnation, status, id)];
      UpdateReaches(n.view, n.me, l, Oracle(i => now, i => newId), x, n.view[x].incarnation);
    case _ =>
  }

  /** No step takes a node back to an older incarnation of another one, unless it drops the entry. */
  lemma EntryNeverFalls(cl: Cluster, s: Step, y: string, x: string)
    requires Enabled(cl, s) && Known(cl, y) && Good(cl.nodes[y]) && x != y && x in cl.nodes[y].view
    ensures var d := After(cl, s);
            && y in d.nodes
            && (x in d.nodes[y].view ==> d.nodes[y].view[x].incarnation >= cl.nodes[y].view[x].incarnation)
  {
    if !OnlyLists(s) && s.x == y {
      ActorNeverFalls(cl, s, x);
    }
  }

  /** Node `y` has an entry about `x` in all states from `j` to `m`. */
  ghost predicate Remembers(cs: seq<Cluster>, y: string, x: string, j: nat, m: nat) {
    forall i :: j <= i <= m < |cs| ==> y in cs[i].nodes && x in cs[i].nodes[y].view
  }

  lemma {:induction false} RememberedNeverFalls(cs: seq<Cluster>, steps: seq<Step>, y: string, x: string, j: nat,
                                                m: nat)
    requires Run(cs, steps) && j <= m <= |steps| && x != y && Remembers(cs, y, x, j, m)
    ensures cs[m].nodes[y].view[x].incarnation >= cs[j].nodes[y].view[x].incarnation
  {
    if m == j {
    } else {
      RememberedNeverFalls(cs, steps, y, x, j, m - 1);
      NodesStayGood(cs, steps, m - 1, y);
      EntryNeverFalls(cs[m - 1], steps[m - 1], y, x);
    }
  }

  /** Refutations win: whatever existed about `x` when `x` minted its next state, anywhere in the cluster, loses at
      every other node that later receives that state, in whatever list it comes. As long as that node keeps an entry
      of `x`, the entry is newer than all of it, so that none of it is processed any more. */
  lemma RefutationWins(cs: seq<Cluster>, steps: seq<Step>, k: nat, j: nat, m: nat, x: string, y: string,
                       l: seq<Change>, o: Oracle, c: Change)
    requires Run(cs, steps) && k < j < m <= |steps| && x != y && Known(cs[k], x) && Known(cs[k + 1], x)
    requires cs[k + 1].nodes[x].view[x].incarnation > cs[k].nodes[x].view[x].incarnation
    requires steps[j] == Deliver(y, l, o) && c in l && c.address == x && StateOf(c) == cs[k + 1].nodes[x].view[x]
    requires y in cs[j].nodes && (x in cs[j].nodes[y].view || !c.status.Tombstone?)
    ensures Remembers(cs, y, x, j + 1, j + 1)
    ensures Remembers(cs, y, x, j + 1, m) ==>
              && (forall s :: Somewhere(cs[k], x, s) ==> s.incarnation < cs[m].nodes[y].view[x].incarnation)
              && forall d :: InFlight(cs[k], d) && d.address == x ==>
                   !ShouldProcessGossip(Some(cs[m].nodes[y].view[x]), d)
  {
    assert Enabled(cs[j], steps[j]) && cs[j + 1] == After(cs[j], steps[j]);
    DeliveredReaches(cs[j], y, l, o, c);
    forall s | Somewhere(cs[k], x, s) ensures s.incarnation < c.incarnation {
      OlderThanMinted(cs, steps, k, x, s);
    }
    forall d | InFlight(cs[k], d) && d.address == x ensures d.incarnation < c.incarnation {
      assert Somewhere(cs[k], x, StateOf(d));
    }
    if Remembers(cs, y, x, j + 1, m) {
      RememberedNeverFalls(cs, steps, y, x, j + 1, m);
    }
  }
}
