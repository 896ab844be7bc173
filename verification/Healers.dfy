/** One heal attempt on a node (lib/partition_healing/healer.js:46-178). */
module Healers {
  import opened Wrappers
  import opened Members
  import opened Merging
  import opened Disseminations
  import opened NodeModel
  import opened RBModel
  import opened Nodes
  import opened Exchanges
  import opened Healing

  /** `_.indexBy(list, 'address')` */
  method IndexByAddress(l: seq<Change>, ghost w: View) returns (v: View)
    requires ListsView(l, w)
    ensures v == w
  {
    v := map[];
    for i := 0 to |l|
      invariant v == w - Rest(l, i)
    {
      RestStepView(l, i, w);
      v := v[l[i].address := StateOf(l[i])];
    }
    assert w - Rest(l, |l|) == w;
  }

  lemma RestStepView(l: seq<Change>, i: nat, w: View)
    requires ListsView(l, w) && i <= |l|
    ensures i < |l| ==> w - Rest(l, i + 1) == (w - Rest(l, i))[l[i].address := StateOf(l[i])]
    ensures i == 0 ==> w - Rest(l, i) == map[]
  {
    if i == 0 {
      forall a | a in w ensures a in Rest(l, 0) {
        var k :| 0 <= k < |l| && l[k].address == a;
      }
      assert (w - Rest(l, 0)).Keys == {};
    }
    if i < |l| {
      RestStep(l, i, map[]);
    }
  }

  lemma FullSyncListsView(l: seq<Change>, me: string, w: View)
    requires Lists(l, FullSyncIndex(me, w))
    ensures ListsView(l, w)
  {
    forall a | a in w ensures exists i :: 0 <= i < |l| && l[i].address == a {
      assert a in FullSyncIndex(me, w);
    }
  }

  /** `generateChanges`, from this node's own list and the target's. */
  method ConflictsWith(all: seq<Change>, ghost me: string, ghost v: View, membershipB: seq<Change>)
    returns (changesForA: seq<Change>, changesForB: seq<Change>)
    requires Lists(all, FullSyncIndex(me, v))
    ensures changesForA == AgainstOwn(v, membershipB) && changesForB == AgainstTheirs(v, membershipB)
  {
    FullSyncListsView(all, me, v);
    var membershipA := IndexByAddress(all, v);
    changesForA, changesForB := GenerateChanges(membershipA, membershipB);
  }

  class Healer {
    const ringpop: Node

    constructor (ringpop: Node)
      ensures this.ringpop == ringpop
    {
      this.ringpop := ringpop;
    }

    /** `merge`: apply the target's list, and send the full list back. */
    method Merge(membershipB: seq<Change>, app: string, o: Oracle, places: nat -> nat) returns (ping: PingBody)
      requires ringpop.Valid() && ringpop.isReady
      modifies ringpop.membership, ringpop.membership.membersByAddress.Values, ringpop.stateTransitions`timers
      modifies ringpop.dissemination`changes, ringpop.ring, ringpop.ring.rbtree, Objs(ringpop.ring.rbtree.model)
      ensures ringpop.Valid() && ringpop.State() == Receive(old(ringpop.State()), membershipB, o)
      ensures Pings(ringpop, ping, app)
      ensures Lists(ping.changes.value, FullSyncIndex(ringpop.State().me, ringpop.State().view))
    {
      ringpop.Update(membershipB, o, places);
      var all := ringpop.MembershipAsChanges();
      ping := ringpop.SendChanges(all, app);
    }

    /** `reincarnate`: apply the suspicions against this side; those against the target are sent to it. */
    method Reincarnate(changesForA: seq<Change>, changesForB: seq<Change>, app: string, o: Oracle, places: nat -> nat)
      returns (ping: Option<PingBody>)
      requires ringpop.Valid() && ringpop.isReady
      modifies ringpop.membership, ringpop.membership.membersByAddress.Values, ringpop.stateTransitions`timers
      modifies ringpop.dissemination`changes, ringpop.ring, ringpop.ring.rbtree, Objs(ringpop.ring.rbtree.model)
      ensures ringpop.Valid()
      ensures ringpop.State() == if changesForA == [] then old(ringpop.State())
              else Receive(old(ringpop.State()), changesForA, o)
      ensures ping.Some? <==> changesForB != []
      ensures ping.Some? ==> Pings(ringpop, ping.value, app) && ping.value.changes.value == changesForB
    {
      if changesForA != [] {
        ringpop.Update(changesForA, o, places);
      }
      ping := None;
      if changesForB != [] {
        var body := ringpop.SendChanges(changesForB, app);
        ping := Some(body);
      }
    }

    /** `processChanges`: what is applied here, and what is sent to the target. */
    method ProcessChanges(changesForA: seq<Change>, changesForB: seq<Change>, membershipB: seq<Change>, app: string,
                          o: Oracle, places: nat -> nat) returns (ping: Option<PingBody>)
      requires ringpop.Valid() && ringpop.isReady
      modifies ringpop.membership, ringpop.membership.membersByAddress.Values, ringpop.stateTransitions`timers
      modifies ringpop.dissemination`changes, ringpop.ring, ringpop.ring.rbtree, Objs(ringpop.ring.rbtree.model)
      ensures ringpop.Valid()
      ensures ping.Some? ==> Pings(ringpop, ping.value, app)
      ensures Processed(old(ringpop.State()), changesForA, changesForB, membershipB, o, ringpop.State(), SentBy(ping))
    {
      if changesForA != [] || changesForB != [] {
        ping := Reincarnate(changesForA, changesForB, app, o, places);
      } else {
        var body := Merge(membershipB, app, o, places);
        ping := Some(body);
      }
    }

    /** The attempt as a whole: `membershipB` is the target's reply. */
    method AttemptHeal(membershipB: seq<Change>, app: string, o: Oracle, places: nat -> nat)
      returns (ping: Option<PingBody>)
      requires ringpop.Valid() && ringpop.isReady
      modifies ringpop.membership, ringpop.membership.membersByAddress.Values, ringpop.stateTransitions`timers
      modifies ringpop.dissemination`changes, ringpop.ring, ringpop.ring.rbtree, Objs(ringpop.ring.rbtree.model)
      ensures ringpop.Valid()
      ensures ping.Some? ==> Pings(ringpop, ping.value, app)
      ensures Attempted(old(ringpop.State()), membershipB, o, ringpop.State(), SentBy(ping))
    {
      ghost var n := ringpop.State();
      var all := ringpop.MembershipAsChanges();
      assert allocated(Objs(ringpop.ring.rbtree.model));
      var forA, forB := ConflictsWith(all, n.me, n.view, membershipB);
      ping := ProcessChanges(forA, forB, membershipB, app, o, places);
    }
  }

  /** The ping that a node sends with the changes it holds. */
  ghost predicate Pings(ringpop: Node, ping: PingBody, app: string)
    reads ringpop`isReady, ringpop.membership, ringpop.membership.membersByAddress.Values, ringpop.dissemination
    reads ringpop.stateTransitions, ringpop.ring
  {
    && ringpop.State().me in ringpop.State().view && ping.changes.Some?
    && ping == PingOf(ringpop.State(), ping.changes.value, app, ringpop.membership.hashFunc)
  }

  function SentBy(ping: Option<PingBody>): Option<seq<Change>> {
    if ping.Some? then ping.value.changes else None
  }

  ghost predicate Processed(n: NodeState, forA: seq<Change>, forB: seq<Change>, membershipB: seq<Change>, o: Oracle,
                            after: NodeState, sent: Option<seq<Change>>)
    requires n.me in n.view
  {
    if forA == [] && forB == [] then
      && after == Receive(n, membershipB, o) && sent.Some? && Lists(sent.value, FullSyncIndex(n.me, after.view))
    else
      && after == (if forA == [] then n else Receive(n, forA, o))
      && sent == if forB == [] then None else Some(forB)
  }

  /** With conflicts, both sides get suspicions only; without, both get the whole list of the other. */
  ghost predicate Attempted(n: NodeState, membershipB: seq<Change>, o: Oracle, after: NodeState,
                            sent: Option<seq<Change>>)
    requires n.me in n.view
  {
    Processed(n, AgainstOwn(n.view, membershipB), AgainstTheirs(n.view, membershipB), membershipB, o, after, sent)
  }

  /** Whatever the target replies, the healer keeps its pingable members. */
  lemma AnyReplyIsSafe(n: NodeState, membershipB: seq<Change>, o: Oracle, after: NodeState, sent: Option<seq<Change>>,
                       x: string)
    requires n.me in n.view && Attempted(n, membershipB, o, after, sent) && Pingable(n.view, x)
    ensures Pingable(after.view, x)
  {
    var forA := AgainstOwn(n.view, membershipB);
    AgainstOwnHarmless(n.view, membershipB);
    HarmlessKeeps(n.view, n.me, if forA == [] then membershipB else forA, o, x);
  }
}
