/** What the answer to a ping holds back (server/protocol/ping.js:63-73, lib/gossip/dissemination.js:113-150). */
module PingAnswers {
  import opened Wrappers
  import opened Members
  import opened Merging
  import opened Disseminations
  import opened NodeModel
  import opened Exchanges
  import opened Nodes

  /** An answer that is not a full sync leaves out the sender's own changes, which stay in the buffer. */
  lemma AnswerHoldsBack(n: NodeState, to: Sender, max: nat, differ: bool, changes: seq<Change>, fullSync: bool,
                        after: NodeState)
    requires Wellkeyed(n.buffer) && Answer(n, to, max, differ, changes, fullSync, after)
    ensures fullSync <==> differ && OnlyOwn(n.buffer, to.address, to.incarnation, max)
    ensures !fullSync ==> WithholdsOwn(n.buffer, to.address, to.incarnation, max, changes, after.buffer)
  {
    OnlyOwnIff(n.buffer, to.address, to.incarnation, max);
    if !fullSync {
      AnswerWithholds(n.buffer, to.address, to.incarnation, max, changes);
    }
  }

  lemma {:induction false} RecordedKeyed(b: Buffer, updates: seq<Change>)
    requires Wellkeyed(b)
    ensures Wellkeyed(RecordedAll(b, updates))
  {
    if updates == [] {
    } else {
      RecordedKeyed(b, updates[..|updates| - 1]);
    }
  }

  /** Updates with distinct addresses are all in the buffer, fresh. */
  lemma {:induction false} RecordedAt(b: Buffer, updates: seq<Change>, k: nat)
    requires DistinctAddresses(updates) && k < |updates|
    ensures var u, r := updates[k], RecordedAll(b, updates); u.address in r && r[u.address] == Buffered(u, 0)
  {
    var n := |updates| - 1;
    if k == n {
    } else {
      assert updates[..n][k] == updates[k];
      RecordedAt(b, updates[..n], k);
    }
  }

  /** A change about another node that is news to the entries before the batch is applied. */
  lemma {:induction false} NewsIsApplied(v: View, me: string, changes: seq<Change>, o: Oracle, k: nat)
    requires me in v && DistinctAddresses(changes) && k < |changes| && changes[k].address != me
    requires ShouldProcessGossip(Find(v, changes[k].address), changes[k])
    ensures changes[k] in UpdateAll(v, me, changes, o).updates
  {
    var n := |changes| - 1;
    if k == n {
      UpdateDistinct(v, me, changes, o, n);
    } else {
      assert changes[..n][k] == changes[k];
      NewsIsApplied(v, me, changes[..n], o, k);
      UpdateAllSnoc(v, me, changes, o, n);
      assert changes[..n + 1] == changes;
    }
  }

  /** A sender does not get its own news back: a change about another node that the sender made at its present
      incarnation, and that is applied, is not in the answer but stays in the buffer, fresh. Nor is any other change
      that the sender made. */
  lemma OwnNewsStays(b: NodeState, body: PingBody, o: Oracle, hashFunc: string -> int, max: nat, res: PingResult,
                     after: NodeState, c: Change)
    requires b.me in b.view && Wellkeyed(b.buffer) && res.Answered? && !res.fullSync
    requires body.source.Some? && body.changes.Some? && body.checksum.Some?
    requires Pinged(b, body, o, hashFunc, max, res, after)
    requires DistinctAddresses(body.changes.value) && c in body.changes.value && c.address != b.me
    requires MadeBy(c, body.source.value, body.sourceIncarnation) && ShouldProcessGossip(Find(b.view, c.address), c)
    ensures c !in res.changes && c.address in after.buffer && after.buffer[c.address] == Buffered(c, 0)
    ensures forall d :: d in res.changes ==> !MadeBy(d, body.source.value, body.sourceIncarnation)
  {
    var l := body.changes.value;
    var n := Receive(b, l, o);
    var us := UpdateAll(b.view, b.me, l, o).updates;
    RecordedKeyed(b.buffer, us);
    AnswerHoldsBack(n, Sender(body.source.value, body.sourceIncarnation), max,
      Checksum(hashFunc, n.view) != body.checksum.value, res.changes, res.fullSync, after);
    var k :| 0 <= k < |l| && l[k] == c;
    NewsIsApplied(b.view, b.me, l, o, k);
    UpdatesAddresses(b.view, b.me, l, o);
    var i :| 0 <= i < |us| && us[i] == c;
    RecordedAt(b.buffer, us, i);
    assert n.buffer[c.address] == Buffered(c, 0);
  }
  // ---- what is announced ----

  lemma {:induction false} RecordedOthers(b: Buffer, updates: seq<Change>, a: string)
    requires forall i :: 0 <= i < |updates| ==> updates[i].address != a
    ensures a in RecordedAll(b, updates) <==> a in b
    ensures a in b ==> RecordedAll(b, updates)[a] == b[a]
  {
    if updates == [] {
    } else {
      RecordedOthers(b, updates[..|updates| - 1], a);
    }
  }

  /** Every applied update of a list with distinct addresses is announced, and nothing else changes in the buffer. */
  lemma ReceiveAnnounces(n: NodeState, changes: seq<Change>, o: Oracle)
    requires n.me in n.view && DistinctAddresses(changes)
    ensures var us, after := UpdateAll(n.view, n.me, changes, o).updates, Receive(n, changes, o).buffer;
            && (forall u :: u in us ==> u.address in after && after[u.address] == Buffered(u, 0))
            && (forall a :: (forall i :: 0 <= i < |us| ==> us[i].address != a) ==>
                  (a in after <==> a in n.buffer) && (a in after ==> after[a] == n.buffer[a]))
  {
    var us := UpdateAll(n.view, n.me, changes, o).updates;
    UpdatesAddresses(n.view, n.me, changes, o);
    var after := Receive(n, changes, o).buffer;
    forall u | u in us ensures u.address in after && after[u.address] == Buffered(u, 0)
    {
      var k :| 0 <= k < |us| && us[k] == u;
      RecordedAt(n.buffer, us, k);
    }
    forall a | forall i :: 0 <= i < |us| ==> us[i].address != a
      ensures a in RecordedAll(n.buffer, us) <==> a in n.buffer
      ensures a in n.buffer ==> RecordedAll(n.buffer, us)[a] == n.buffer[a]
    {
      RecordedOthers(n.buffer, us, a);
    }
  }

  /** So is every change of the node's own status, under its own name and new incarnation. */
  lemma SetLocalAnnounces(n: NodeState, status: Status, now: int, id: nat)
    ensures var m := SetLocal(n, status, now, id);
            && n.me in m.view && m.view[n.me] == State(now, status)
            && n.me in m.buffer
            && m.buffer[n.me] == Buffered(Change(n.me, now, status, Some(n.me), Some(now), Some(id)), 0)
  {
    var m := if status.Leave? && n.me in n.view then n.(enabled := false, timers := map[]) else n;
    OnUpdatedOne(m.(view := n.view[n.me := State(now, status)]), Refutation(n.me, status, now, id));
  }
}
