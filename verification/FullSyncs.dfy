/** Bidirectional full sync (lib/gossip/dissemination.js:113-140, 247-286, server/protocol/ping.js:63-70). */
module FullSyncs {
  import opened Wrappers
  import opened Members
  import opened Merging
  import opened Disseminations
  import opened NodeModel
  import opened Checksums
  import opened ChecksumStrings
  import opened Exchanges
  import opened Nodes

  /** A list that says everything a node knows, in its name, and nothing else. */
  ghost predicate SaysAll(l: seq<Change>, b: NodeState) {
    && (forall c :: c in l ==>
          && c.address in b.view
          && c == Change(c.address, b.view[c.address].incarnation, b.view[c.address].status, Some(b.me), None, None))
    && (forall a :: a in b.view ==> exists c :: c in l && c.address == a)
  }

  lemma FullSyncSaysAll(l: seq<Change>, b: NodeState)
    requires Lists(l, FullSyncIndex(b.me, b.view))
    ensures SaysAll(l, b)
  {
    forall a | a in b.view ensures exists c :: c in l && c.address == a {
      ListedAt(l, b.me, b.view, a);
    }
  }

  /** A ping without changes to a node with an empty buffer and another checksum is answered with a full sync,
      and leaves that node as it was. */
  lemma FullSyncStarts(b: NodeState, body: PingBody, o: Oracle, hashFunc: string -> int, max: nat, res: PingResult,
                       after: NodeState)
    requires b.me in b.view && b.buffer == map[] && res.Answered?
    requires body.source.Some? && body.changes == Some([]) && body.checksum.Some?
    requires body.checksum.value != Checksum(hashFunc, b.view)
    ensures Pinged(b, body, o, hashFunc, max, res, after) ==>
              res.fullSync && Lists(res.changes, FullSyncIndex(b.me, b.view)) && SaysAll(res.changes, b) && after == b
  {
    var f := Some(Sender(body.source.value, body.sourceIncarnation));
    assert Receive(b, [], o) == b by {
      assert b.ring + Adds([]) - Removes([]) == b.ring;
    }
    assert ToIssue(b.buffer, f, max).Keys == {};
    assert Unspent(b.buffer, f, max).Keys == {};
    BumpedNothing(res.changes);
    if Pinged(b, body, o, hashFunc, max, res, after) {
      FullSyncSaysAll(res.changes, b);
    }
  }

  lemma {:induction false} BumpedNothing(issued: seq<Change>)
    ensures Bumped(map[], issued) == map[]
  {
    if issued == [] {
    } else {
      BumpedNothing(issued[..|issued| - 1]);
    }
  }

  /** A applies B's full list, and B, in the reverse job, A's list as it was before or after that. */
  ghost predicate Synced(a: NodeState, b: NodeState, la: seq<Change>, oa: Oracle, lb: seq<Change>, ob: Oracle,
                         late: bool)
    requires a.me in a.view && b.me in b.view
  {
    && Lists(la, FullSyncIndex(b.me, b.view))
    && Lists(lb, FullSyncIndex(a.me, if late then Receive(a, la, oa).view else a.view))
  }

  /** Convergence: if neither list overrides the other node's own entry, both nodes generate the same checksum
      string after the two exchanges, whether A's reply was taken before or after its update. */
  lemma Convergence(a: NodeState, b: NodeState, la: seq<Change>, oa: Oracle, lb: seq<Change>, ob: Oracle, late: bool)
    requires a.me in a.view && b.me in b.view && a.me != b.me && Synced(a, b, la, oa, lb, ob, late)
    requires forall c :: c in la && c.address == a.me ==> !Overrides(StateOf(c), a.view[a.me])
    requires forall c :: c in lb && c.address == b.me ==> !Overrides(StateOf(c), b.view[b.me])
    ensures NonTombstones(Receive(a, la, oa).view) == NonTombstones(Receive(b, lb, ob).view)
    ensures ChecksumString(Receive(a, la, oa).view) == ChecksumString(Receive(b, lb, ob).view)
  {
    var i := ListingMeets(a.view, a.me, la, FullSyncIndex(b.me, b.view), oa);
    var va := Receive(a, la, oa).view;
    var reply := if late then va else a.view;
    var j := ListingMeets(b.view, b.me, lb, FullSyncIndex(a.me, reply), ob);
    ListedAt(la, b.me, b.view, a.me);
    ListedAt(lb, a.me, reply, b.me);
    forall x ensures LiveState(va, x) == LiveState(Receive(b, lb, ob).view, x) {
      SyncAt(a.view, a.me, b.view, b.me, oa.clock(i), ob.clock(j), late, x);
    }
    SameLive(va, Receive(b, lb, ob).view);
  }

  lemma NothingToIssue(n: NodeState, filter: Option<Sender>, max: nat, l: seq<Change>)
    requires n.buffer == map[] && Lists(l, ToIssue(n.buffer, filter, max))
    ensures l == []
  {
    assert ToIssue(n.buffer, filter, max).Keys == {};
    ListsEmpty(l, ToIssue(n.buffer, filter, max));
  }

  /** The whole exchange: A pings B, both buffers are empty and the checksums differ. B answers with a full sync and,
      as its reverse job, applies A's list, taken before or after A (then `done`) applied the answer. If neither list
      overrides the other node's own entry, both nodes then generate the same checksum string. */
  lemma PingConverges(a: NodeState, b: NodeState, hashFunc: string -> int, body: PingBody, max: nat, asked: NodeState,
                      o: Oracle, maxB: nat, res: PingResult, after: NodeState, oa: Oracle, done: NodeState,
                      lb: seq<Change>, ob: Oracle, late: bool)
    requires a.me in a.view && b.me in b.view && a.me != b.me && a.ready && a.buffer == map[] && b.buffer == map[]
    requires Checksum(hashFunc, a.view) != Checksum(hashFunc, b.view)
    requires Sent(a, body, hashFunc, max, asked)
    requires res.Answered? && Pinged(b, body, o, hashFunc, maxB, res, after)
    requires done == Replied(asked, false, body.changes.value, Some(res.changes), oa)
    requires Lists(lb, FullSyncIndex(a.me, if late then done.view else a.view))
    requires forall c :: c in res.changes && c.address == a.me ==> !Overrides(StateOf(c), a.view[a.me])
    requires forall c :: c in lb && c.address == b.me ==> !Overrides(StateOf(c), b.view[b.me])
    ensures after.me in after.view && res.fullSync
    ensures ChecksumString(done.view) == ChecksumString(Receive(after, lb, ob).view)
    ensures Checksum(hashFunc, done.view) == Checksum(hashFunc, Receive(after, lb, ob).view)
  {
    NothingToIssue(a, None, max, body.changes.value);
    FullSyncStarts(b, body, o, hashFunc, maxB, res, after);
    assert done.view == Receive(a, res.changes, oa).view;
    Convergence(a, b, res.changes, oa, lb, ob, late);
  }

  lemma ListedAt(l: seq<Change>, me: string, w: View, x: string)
    requires Lists(l, FullSyncIndex(me, w))
    ensures x in w ==> exists c :: c in l && c.address == x && StateOf(c) == w[x]
  {
    if x in w {
      assert x in FullSyncIndex(me, w);
      var i :| 0 <= i < |l| && l[i].address == x;
      assert l[i] in l;
    }
  }

  lemma SyncAt(va: View, a: string, vb: View, b: string, nowA: int, nowB: int, late: bool, x: string)
    requires a in va && b in vb && a != b
    requires a in vb ==> !Overrides(vb[a], va[a])
    requires var w := if late then FirstMeets(va, a, vb, b, nowA) else va; b in w ==> !Overrides(w[b], vb[b])
    ensures var va' := FirstMeets(va, a, vb, b, nowA);
            LiveState(va', x) == LiveState(FirstMeets(vb, b, if late then va' else va, a, nowB), x)
  {
    if b in va {
      OverridesTotal(va[b], vb[b]);
    }
    ExchangeAt(va, a, vb, b, nowA, nowB, late, x);
  }

  /** A's own entry is overridden by B's list, and B does not get to see the refutation. */
  predicate MissedByB(va: View, a: string, vb: View, late: bool)
    requires a in va
  {
    !late && a in vb && Overrides(vb[a], va[a])
  }

  /** B's own entry is overridden by A's list, which A keeps. */
  predicate MissedByA(va: View, vb: View, b: string)
    requires b in vb
  {
    b in va && Overrides(va[b], vb[b])
  }

  lemma SyncIff(va: View, a: string, vb: View, b: string, nowA: int, nowB: int, late: bool, x: string)
    requires a in va && b in vb && a != b && !va[a].status.Tombstone? && !vb[b].status.Tombstone?
    requires a in vb ==> nowA > vb[a].incarnation
    requires b in va ==> nowB > va[b].incarnation
    ensures var va' := FirstMeets(va, a, vb, b, nowA);
            LiveState(va', x) == LiveState(FirstMeets(vb, b, if late then va' else va, a, nowB), x) <==>
            !(x == a && MissedByB(va, a, vb, late)) && !(x == b && MissedByA(va, vb, b))
  {
    if x in va && x in vb {
      OverridesTotal(va[x], vb[x]);
    }
  }

  lemma SameLiveIff(v: View, w: View)
    ensures NonTombstones(v) == NonTombstones(w) <==> forall x :: LiveState(v, x) == LiveState(w, x)
  {
    if forall x :: LiveState(v, x) == LiveState(w, x) {
      SameLive(v, w);
    } else {
      var x :| LiveState(v, x) != LiveState(w, x);
      assert x in NonTombstones(v) || x in NonTombstones(w);
      assert x in NonTombstones(v) && x in NonTombstones(w) ==> NonTombstones(v)[x] != NonTombstones(w)[x];
    }
  }

  /** Exactly when the exchange converges: unless a node refutes and the other one does not hear of it. A late
      reply lets B hear of A's refutation; nothing lets A hear of B's. */
  lemma ConvergesIff(va: View, a: string, vb: View, b: string, nowA: int, nowB: int, late: bool)
    requires a in va && b in vb && a != b && !va[a].status.Tombstone? && !vb[b].status.Tombstone?
    requires a in vb ==> nowA > vb[a].incarnation
    requires b in va ==> nowB > va[b].incarnation
    ensures var va' := FirstMeets(va, a, vb, b, nowA);
            var vb' := FirstMeets(vb, b, if late then va' else va, a, nowB);
            NonTombstones(va') == NonTombstones(vb') <==> !MissedByB(va, a, vb, late) && !MissedByA(va, vb, b)
  {
    var va' := FirstMeets(va, a, vb, b, nowA);
    var vb' := FirstMeets(vb, b, if late then va' else va, a, nowB);
    SameLiveIff(va', vb');
    forall x ensures LiveState(va', x) == LiveState(vb', x) <==>
                     !(x == a && MissedByB(va, a, vb, late)) && !(x == b && MissedByA(va, vb, b))
    {
      SyncIff(va, a, vb, b, nowA, nowB, late, x);
    }
    SyncIff(va, a, vb, b, nowA, nowB, late, a);
    SyncIff(va, a, vb, b, nowA, nowB, late, b);
  }

  /** The same for the whole exchange: A pings B, both buffers are empty and the checksums differ. Then both nodes end
      with the same live entries exactly if neither refutes unheard. */
  lemma PingConvergesIff(a: NodeState, b: NodeState, hashFunc: string -> int, body: PingBody, max: nat,
                         asked: NodeState, o: Oracle, maxB: nat, res: PingResult, after: NodeState, oa: Oracle,
                         done: NodeState, lb: seq<Change>, ob: Oracle, late: bool)
    requires a.me in a.view && b.me in b.view && a.me != b.me && a.ready && a.buffer == map[] && b.buffer == map[]
    requires !a.view[a.me].status.Tombstone? && !b.view[b.me].status.Tombstone?
    requires Checksum(hashFunc, a.view) != Checksum(hashFunc, b.view)
    requires Sent(a, body, hashFunc, max, asked)
    requires res.Answered? && Pinged(b, body, o, hashFunc, maxB, res, after)
    requires done == Replied(asked, false, body.changes.value, Some(res.changes), oa)
    requires Lists(lb, FullSyncIndex(a.me, if late then done.view else a.view))
    requires a.me in b.view ==> forall i :: oa.clock(i) > b.view[a.me].incarnation
    requires b.me in a.view ==> forall i :: ob.clock(i) > a.view[b.me].incarnation
    ensures after.me in after.view && res.fullSync
    ensures NonTombstones(done.view) == NonTombstones(Receive(after, lb, ob).view) <==>
            !MissedByB(a.view, a.me, b.view, late) && !MissedByA(a.view, b.view, b.me)
  {
    NothingToIssue(a, None, max, body.changes.value);
    assert after == b && res.fullSync && Lists(res.changes, FullSyncIndex(b.me, b.view)) by {
      FullSyncStarts(b, body, o, hashFunc, maxB, res, after);
    }
    assert done.view == Receive(a, res.changes, oa).view;
    var i := ListingMeets(a.view, a.me, res.changes, FullSyncIndex(b.me, b.view), oa);
    var j := ListingMeets(b.view, b.me, lb, FullSyncIndex(a.me, if late then done.view else a.view), ob);
    ConvergesIff(a.view, a.me, b.view, b.me, oa.clock(i), ob.clock(j), late);
  }
  /** If no address holds a separator, exactly then both nodes generate the same checksum string. */
  lemma PingStringsConvergeIff(a: NodeState, b: NodeState, hashFunc: string -> int, body: PingBody, max: nat,
                                asked: NodeState, o: Oracle, maxB: nat, res: PingResult, after: NodeState, oa: Oracle,
                                done: NodeState, lb: seq<Change>, ob: Oracle, late: bool)
    requires a.me in a.view && b.me in b.view && a.me != b.me && a.ready && a.buffer == map[] && b.buffer == map[]
    requires !a.view[a.me].status.Tombstone? && !b.view[b.me].status.Tombstone?
    requires Checksum(hashFunc, a.view) != Checksum(hashFunc, b.view)
    requires Sent(a, body, hashFunc, max, asked)
    requires res.Answered? && Pinged(b, body, o, hashFunc, maxB, res, after)
    requires done == Replied(asked, false, body.changes.value, Some(res.changes), oa)
    requires Lists(lb, FullSyncIndex(a.me, if late then done.view else a.view))
    requires a.me in b.view ==> forall i :: oa.clock(i) > b.view[a.me].incarnation
    requires b.me in a.view ==> forall i :: ob.clock(i) > a.view[b.me].incarnation
    requires SeparatorFree(done.view)
    ensures after.me in after.view
    ensures SeparatorFree(Receive(after, lb, ob).view) ==>
              (ChecksumString(done.view) == ChecksumString(Receive(after, lb, ob).view) <==>
               !MissedByB(a.view, a.me, b.view, late) && !MissedByA(a.view, b.view, b.me))
  {
    PingConvergesIff(a, b, hashFunc, body, max, asked, o, maxB, res, after, oa, done, lb, ob, late);
    StringsTell(done.view, Receive(after, lb, ob).view);
  }
}
