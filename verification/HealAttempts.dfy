/** A whole heal attempt (lib/partition_healing/healer.js:46-178): what the healer does and sends, and what the target
    makes of it when it handles the ping (server/protocol/ping.js:26-74), including the reverse full sync that this
    may start (lib/gossip/dissemination.js:221-286). */
module HealAttempts {
  import opened Wrappers
  import opened Members
  import opened Merging
  import opened Disseminations
  import opened NodeModel
  import opened Nodes
  import opened Exchanges
  import opened Healing
  import opened Healers
  import Clusters

  /** What decides the target's half: whether the ping arrives, how the target is configured, how many reverse jobs it
      runs, and whether the healer's list reaches it if it starts another one; `o` and `again` are its clocks. */
  datatype Circumstances = Circumstances(
    delivered: bool, app: string, cfg: PingConfig, hashFunc: string -> int, max: nat, jobs: nat, o: Oracle,
    answered: bool, again: Oracle)

  /** The target, after it handled the ping of the healer (now `a`) and any reverse job that this started. */
  ghost predicate TargetAfter(a: NodeState, sent: Option<seq<Change>>, b: NodeState, c: Circumstances,
                              after: NodeState)
    requires a.me in a.view && b.me in b.view
  {
    if sent.None? || !c.delivered then after == b
    else exists res, reverse, mid :: PingThenSync(a, sent.value, b, c, res, reverse, mid, after)
  }

  ghost predicate PingThenSync(a: NodeState, sent: seq<Change>, b: NodeState, c: Circumstances, res: PingResult,
                               reverse: bool, mid: NodeState, after: NodeState)
    requires a.me in a.view && b.me in b.view
  {
    && HandledPing(b, Some(PingOf(a, sent, c.app, c.hashFunc)), c.cfg, c.o, c.hashFunc, c.max, c.jobs, res, reverse,
                   mid)
    && if reverse && c.answered then Resynced(a, mid, c.again, after) else after == mid
  }

  /** The reverse job: the healer's list, applied by the target. */
  ghost predicate Resynced(a: NodeState, mid: NodeState, again: Oracle, after: NodeState) {
    mid.me in mid.view && exists l :: Lists(l, FullSyncIndex(a.me, a.view)) && after == Receive(mid, l, again)
  }

  /** The target takes the ping: it arrives and is not refused. */
  ghost predicate Accepts(a: NodeState, b: NodeState, c: Circumstances) {
    && c.delivered && b.ready && a.me != "" && c.app == c.cfg.app && Checksum(c.hashFunc, a.view) != 0
  }

  lemma PingTaken(a: NodeState, l: seq<Change>, b: NodeState, c: Circumstances, after: NodeState)
    returns (res: PingResult, mid: NodeState)
    requires a.me in a.view && b.me in b.view && TargetAfter(a, Some(l), b, c, after) && Accepts(a, b, c)
    ensures res.Answered? && Pinged(b, PingOf(a, l, c.app, c.hashFunc), c.o, c.hashFunc, c.max, res, mid)
    ensures if res.fullSync && c.jobs < c.cfg.maxReverseFullSyncJobs && c.answered then Resynced(a, mid, c.again, after)
            else after == mid
  {
    var reverse;
    res, reverse, mid :| PingThenSync(a, l, b, c, res, reverse, mid, after);
  }

  lemma PingIgnored(a: NodeState, l: seq<Change>, b: NodeState, c: Circumstances, after: NodeState)
    requires a.me in a.view && b.me in b.view && TargetAfter(a, Some(l), b, c, after) && !Accepts(a, b, c)
    ensures after == b
  {
  }

  // ---- when a ping of the healer starts a full sync ----

  /** Changes without a source incarnation, which no sender's filter matches. */
  ghost predicate Unsourced(l: seq<Change>) {
    forall c :: c in l ==> c.sourceIncarnation.None?
  }

  /** A batch that tells a node something leaves it with something to issue. */
  lemma NewsIsIssued(n: NodeState, l: seq<Change>, o: Oracle, to: Sender, max: nat)
    requires n.me in n.view && to.address != n.me && Unsourced(l) && max >= 1
    requires UpdateAll(n.view, n.me, l, o).updates != []
    ensures ToIssue(Receive(n, l, o).buffer, Some(to), max) != map[]
  {
    var us := UpdateAll(n.view, n.me, l, o).updates;
    var u := us[|us| - 1];
    UpdatesComeFrom(n.view, n.me, l, o);
    assert u in us && !Filtered(Some(to), u);
    var b := Receive(n, l, o).buffer;
    assert b[u.address] == Buffered(u, 0);
    assert u.address in ToIssue(b, Some(to), max);
  }

  lemma NoNewsNoChange(n: NodeState, l: seq<Change>, o: Oracle)
    requires n.me in n.view && UpdateAll(n.view, n.me, l, o).updates == []
    ensures Receive(n, l, o) == n
  {
    NoUpdatesNoChange(n.view, n.me, l, o);
    assert n.ring + Adds([]) - Removes([]) == n.ring;
  }

  /** A ping with such changes is answered with a full sync exactly if it holds no news, the node has nothing to issue
      and the checksums differ; the node's entries are then as they were. */
  lemma FullSyncIff(b: NodeState, body: PingBody, o: Oracle, hashFunc: string -> int, max: nat, res: PingResult,
                    after: NodeState)
    requires b.me in b.view && max >= 1 && res.Answered?
    requires body.source.Some? && body.source.value != b.me && body.changes.Some? && Unsourced(body.changes.value)
    requires body.checksum.Some? && Pinged(b, body, o, hashFunc, max, res, after)
    ensures var us := UpdateAll(b.view, b.me, body.changes.value, o).updates;
            res.fullSync <==>
            && us == [] && Checksum(hashFunc, b.view) != body.checksum.value
            && ToIssue(b.buffer, Some(Sender(body.source.value, body.sourceIncarnation)), max) == map[]
    ensures after.me == b.me && after.view == Receive(b, body.changes.value, o).view
    ensures res.fullSync ==> after.view == b.view
  {
    var l := body.changes.value;
    if UpdateAll(b.view, b.me, l, o).updates == [] {
      NoNewsNoChange(b, l, o);
    } else {
      NewsIsIssued(b, l, o, Sender(body.source.value, body.sourceIncarnation), max);
    }
  }

  /** Every conflicting member of the target is already suspect at its accuser's incarnation. */
  ghost predicate AllSuspect(vb: View, va: View) {
    forall x :: Conflicts(vb, va, x) ==> vb[x] == State(va[x].incarnation, Suspect)
  }

  /** Suspicions are no news exactly then. */
  lemma SuspicionsAreNewsIff(vb: View, b: string, va: View, forB: seq<Change>, o: Oracle)
    requires b in vb && Lists(forB, Suspicions(vb, va))
    ensures UpdateAll(vb, b, forB, o).updates == [] <==> AllSuspect(vb, va)
  {
    NoUpdatesIff(vb, b, forB, o);
    forall i | 0 <= i < |forB|
      ensures !ShouldProcessGossip(Find(vb, forB[i].address), forB[i]) <==>
              vb[forB[i].address] == State(va[forB[i].address].incarnation, Suspect)
    {
      assert forB[i] == CreateSuspectChange(forB[i].address, va[forB[i].address]);
    }
    if AllSuspect(vb, va) {
      forall i | 0 <= i < |forB| ensures !ShouldProcessGossip(Find(vb, forB[i].address), forB[i]) {
        assert Conflicts(vb, va, forB[i].address);
      }
    } else {
      var x :| Conflicts(vb, va, x) && vb[x] != State(va[x].incarnation, Suspect);
      assert x in Suspicions(vb, va);
      var i :| 0 <= i < |forB| && forB[i].address == x;
    }
  }

  /** Exactly when a ping with suspicions is answered with a full sync, although they carry no source. */
  lemma HealPingFullSyncIff(b: NodeState, va: View, forB: seq<Change>, body: PingBody, o: Oracle,
                            hashFunc: string -> int, max: nat, res: PingResult, after: NodeState)
    requires b.me in b.view && max >= 1 && res.Answered? && Lists(forB, Suspicions(b.view, va))
    requires body.source.Some? && body.source.value != b.me && body.changes == Some(forB) && body.checksum.Some?
    requires Pinged(b, body, o, hashFunc, max, res, after)
    ensures res.fullSync <==>
            && AllSuspect(b.view, va) && Checksum(hashFunc, b.view) != body.checksum.value
            && ToIssue(b.buffer, Some(Sender(body.source.value, body.sourceIncarnation)), max) == map[]
    ensures after.me == b.me && after.view == Receive(b, forB, o).view
    ensures res.fullSync ==> after.view == b.view
  {
    forall s | s in forB ensures s.sourceIncarnation.None? {
      var i :| 0 <= i < |forB| && forB[i] == s;
    }
    FullSyncIff(b, body, o, hashFunc, max, res, after);
    SuspicionsAreNewsIff(b.view, b.me, va, forB, o);
  }

  // ---- attempts with conflicts ----

  lemma NoSuspicions(forA: seq<Change>, v: View, w: View)
    requires Lists(forA, Suspicions(v, w))
    ensures forA == [] <==> Suspicions(v, w) == map[]
    ensures forA == [] ==> forall x :: !Conflicts(v, w, x)
  {
    ListsEmpty(forA, Suspicions(v, w));
    forall x | forA == [] ensures !Conflicts(v, w, x) {
      assert x !in Suspicions(v, w);
    }
  }

  /** A side that is sent its suspicions, or nothing if there are none. */
  lemma SuspicionsMeet(n: NodeState, w: View, l: seq<Change>, o: Oracle, after: NodeState) returns (now: int)
    requires n.me in n.view && Lists(l, Suspicions(n.view, w))
    requires after.view == if l == [] then n.view else Receive(n, l, o).view
    ensures after.view == Met(n.view, n.me, Suspicions(n.view, w), now) && exists i :: now == o.clock(i)
  {
    var i := ListingMeets(n.view, n.me, l, Suspicions(n.view, w), o);
    now := o.clock(i);
    if l == [] {
      NoSuspicions(l, n.view, w);
      assert UpdateAll(n.view, n.me, l, o).view == n.view;
    }
  }

  /** With conflicts, the suspicions against the healer are applied, and those against the target are sent. */
  lemma SuspicionsSent(a: NodeState, vb: View, lb: seq<Change>, o: Oracle, after: NodeState,
                       sent: Option<seq<Change>>) returns (forA: seq<Change>, forB: seq<Change>)
    requires a.me in a.view && Attempted(a, lb, o, after, sent) && ListsView(lb, vb) && !NoConflicts(a.view, vb)
    ensures Lists(forA, Suspicions(a.view, vb)) && after == if forA == [] then a else Receive(a, forA, o)
    ensures Lists(forB, Suspicions(vb, a.view)) && sent == if forB == [] then None else Some(forB)
  {
    forA, forB := AgainstOwn(a.view, lb), AgainstTheirs(a.view, lb);
    GeneratedOnce(a.view, lb, vb);
    NoSuspicions(forA, a.view, vb);
    NoSuspicions(forB, vb, a.view);
  }

  /** What the healer says about a member that is pingable at the target is what it said before the attempt. */
  lemma HealerStillSays(a: NodeState, vb: View, forA: seq<Change>, o: Oracle, after: NodeState, x: string)
    requires a.me in a.view && Lists(forA, Suspicions(a.view, vb))
    requires after == if forA == [] then a else Receive(a, forA, o)
    ensures after.me == a.me && a.me in after.view
    ensures Pingable(vb, x) ==> Find(after.view, x) == Find(a.view, x)
  {
    var now := SuspicionsMeet(a, vb, forA, o, after);
    if x in a.view {
      ConflictOutcome(a.view, a.me, vb, now, x);
    }
  }

  /** The reverse job takes place: the target accepts the ping, finds no news in it and has nothing to issue, the
      checksums differ, there is room for the job, and the healer's list arrives. */
  ghost predicate Resyncs(va: View, a: NodeState, b: NodeState, c: Circumstances)
    requires a.me in a.view
  {
    && Accepts(a, b, c) && c.jobs < c.cfg.maxReverseFullSyncJobs && c.answered
    && AllSuspect(b.view, va) && Checksum(c.hashFunc, b.view) != Checksum(c.hashFunc, a.view)
    && ToIssue(b.buffer, Some(Sender(a.me, Some(a.view[a.me].incarnation))), c.max) == map[]
  }

  /** The target after it was sent suspicions: it applied them, and then the healer's list if the reverse job took
      place, which is only if they were no news. */
  lemma SuspicionsHandled(va: View, a: NodeState, b: NodeState, forB: seq<Change>, c: Circumstances, after: NodeState)
    requires a.me in a.view && b.me in b.view && a.me != b.me && c.max >= 1
    requires Lists(forB, Suspicions(b.view, va)) && TargetAfter(a, Some(forB), b, c, after)
    ensures !Accepts(a, b, c) ==> after == b
    ensures Accepts(a, b, c) && !Resyncs(va, a, b, c) ==> after.view == Receive(b, forB, c.o).view
    ensures Resyncs(va, a, b, c) ==>
              exists mid: NodeState :: mid.me == b.me && mid.view == b.view && Resynced(a, mid, c.again, after)
  {
    if Accepts(a, b, c) {
      var res, mid := PingTaken(a, forB, b, c, after);
      HealPingFullSyncIff(b, va, forB, PingOf(a, forB, c.app, c.hashFunc), c.o, c.hashFunc, c.max, res, mid);
    } else {
      PingIgnored(a, forB, b, c, after);
    }
  }

  /** A reverse job makes exactly those pingable members unpingable that were in conflict, the target apart. */
  lemma ResyncOutcome(va: View, w: View, a: string, vb: View, b: string, now: int, x: string)
    requires b in vb && Pingable(vb, x) && Find(w, x) == Find(va, x)
    ensures var r := FirstMeets(vb, b, w, a, now);
            && x in r
            && if Conflicts(vb, va, x) && x != b then r[x] == va[x] && !Pingable(r, x) else Pingable(r, x)
  {
  }

  lemma ResyncMeets(a: NodeState, mid: NodeState, again: Oracle, after: NodeState) returns (now: int)
    requires Resynced(a, mid, again, after)
    ensures mid.me in mid.view && after.view == FirstMeets(mid.view, mid.me, a.view, a.me, now)
  {
    var l :| Lists(l, FullSyncIndex(a.me, a.view)) && after == Receive(mid, l, again);
    var i := ListingMeets(mid.view, mid.me, l, FullSyncIndex(a.me, a.view), again);
    now := again.clock(i);
  }

  ghost predicate Marked(n: NodeState, w: View, x: string, after: View, o: Oracle)
    requires n.me in n.view && x in n.view
  {
    && x in after && (Pingable(n.view, x) ==> Pingable(after, x))
    && (!Conflicts(n.view, w, x) ==> after[x] == n.view[x])
    && (Conflicts(n.view, w, x) ==> after[x] == State(w[x].incarnation, Suspect)
                                    || (x == n.me && exists i :: after[x] == State(o.clock(i), n.view[x].status)))
  }

  lemma SuspicionsMark(n: NodeState, w: View, l: seq<Change>, o: Oracle, after: NodeState, x: string)
    requires n.me in n.view && Lists(l, Suspicions(n.view, w)) && x in n.view
    requires after.view == if l == [] then n.view else Receive(n, l, o).view
    ensures Marked(n, w, x, after.view, o)
  {
    var now := SuspicionsMeet(n, w, l, o, after);
    ConflictOutcome(n.view, n.me, w, now, x);
  }

  /** What a reverse job makes of a member of the target: one in conflict becomes what the healer says, which is
      unpingable; of the others, and of the target itself, no pingable one does. */
  ghost predicate Undone(b: NodeState, va: View, x: string, after: View) {
    Pingable(b.view, x) ==>
      && x in after
      && if Conflicts(b.view, va, x) && x != b.me then after[x] == va[x] && !Pingable(after, x) else Pingable(after, x)
  }

  /** With conflicts, every conflicting member ends suspect at exactly its accuser's incarnation, or refutes if it is
      the side itself; nobody else moves. At the target this is undone if a reverse job takes place. */
  lemma HealMarksSuspects(a: NodeState, b: NodeState, lb: seq<Change>, o: Oracle, after: NodeState,
                          sent: Option<seq<Change>>, c: Circumstances, bAfter: NodeState, x: string)
    requires a.me in a.view && b.me in b.view && a.me != b.me && c.max >= 1
    requires Attempted(a, lb, o, after, sent) && ListsView(lb, b.view) && !NoConflicts(a.view, b.view)
    requires TargetAfter(after, sent, b, c, bAfter)
    ensures x in a.view ==> Marked(a, b.view, x, after.view, o)
    ensures if sent.None? || !Accepts(after, b, c) then bAfter == b
            else if Resyncs(a.view, after, b, c) then Undone(b, a.view, x, bAfter.view)
            else x in b.view ==> Marked(b, a.view, x, bAfter.view, c.o)
    ensures sent.None? ==> !Conflicts(b.view, a.view, x)
  {
    var forA, forB := SuspicionsSent(a, b.view, lb, o, after, sent);
    HealerStillSays(a, b.view, forA, o, after, x);
    if x in a.view {
      SuspicionsMark(a, b.view, forA, o, after, x);
    }
    if sent.None? {
      NoSuspicions(forB, b.view, a.view);
    } else {
      TargetMarks(a.view, after, b, forB, c, bAfter, x);
    }
  }

  lemma TargetMarks(va: View, a: NodeState, b: NodeState, forB: seq<Change>, c: Circumstances, after: NodeState,
                    x: string)
    requires a.me in a.view && b.me in b.view && a.me != b.me && c.max >= 1
    requires Lists(forB, Suspicions(b.view, va)) && forB != [] && TargetAfter(a, Some(forB), b, c, after)
    requires Pingable(b.view, x) ==> Find(a.view, x) == Find(va, x)
    ensures if !Accepts(a, b, c) then after == b
            else if Resyncs(va, a, b, c) then Undone(b, va, x, after.view)
            else x in b.view ==> Marked(b, va, x, after.view, c.o)
  {
    SuspicionsHandled(va, a, b, forB, c, after);
    if Resyncs(va, a, b, c) {
      var mid: NodeState :| mid.me == b.me && mid.view == b.view && Resynced(a, mid, c.again, after);
      var now := ResyncMeets(a, mid, c.again, after);
      if Pingable(b.view, x) {
        ResyncOutcome(va, a.view, a.me, b.view, b.me, now, x);
      }
    } else if Accepts(a, b, c) && x in b.view {
      SuspicionsMark(b, va, forB, c.o, after, x);
    }
  }

  // ---- attempts without conflicts ----

  /** Without conflicts, the target's list is applied, and the whole list of the healer is sent. */
  lemma MergeSent(a: NodeState, b: NodeState, lb: seq<Change>, o: Oracle, after: NodeState, sent: Option<seq<Change>>)
    returns (now: int)
    requires a.me in a.view && b.me in b.view && Attempted(a, lb, o, after, sent) && NoConflicts(a.view, b.view)
    requires Lists(lb, FullSyncIndex(b.me, b.view))
    ensures after.me == a.me && after.view == FirstMeets(a.view, a.me, b.view, b.me, now)
    ensures exists i :: now == o.clock(i)
    ensures sent.Some? && Lists(sent.value, FullSyncIndex(a.me, after.view))
  {
    FullSyncListsView(lb, b.me, b.view);
    GeneratedOnce(a.view, lb, b.view);
    NoSuspicions(AgainstOwn(a.view, lb), a.view, b.view);
    NoSuspicions(AgainstTheirs(a.view, lb), b.view, a.view);
    var i := ListingMeets(a.view, a.me, lb, FullSyncIndex(b.me, b.view), o);
    now := o.clock(i);
  }

  /** The merged list holds news for the target or leaves both with equal checksums, so no full sync follows it. */
  lemma MergeNeverSyncs(va: View, a: NodeState, b: NodeState, now: int, l: seq<Change>, app: string, o: Oracle,
                        hashFunc: string -> int, max: nat, res: PingResult, after: NodeState)
    requires a.me in va && a.me in a.view && b.me in b.view && a.me != b.me && max >= 1
    requires a.view == FirstMeets(va, a.me, b.view, b.me, now) && (a.me in b.view ==> now > b.view[a.me].incarnation)
    requires Lists(l, FullSyncIndex(a.me, a.view))
    requires res.Answered? && Pinged(b, PingOf(a, l, app, hashFunc), o, hashFunc, max, res, after)
    ensures !res.fullSync
  {
    FullSyncUnsourced(l, a.me, a.view);
    FullSyncIff(b, PingOf(a, l, app, hashFunc), o, hashFunc, max, res, after);
    if res.fullSync {
      NoNewsOfB(va, a, b, now, l, o);
      var j := ListingMeets(b.view, b.me, l, FullSyncIndex(a.me, a.view), o);
      forall x ensures LiveState(a.view, x) == LiveState(b.view, x) {
        MergeAgrees(va, a.me, b.view, b.me, now, o.clock(j), x);
      }
      SameLive(a.view, b.view);
    }
  }

  lemma FullSyncUnsourced(l: seq<Change>, me: string, v: View)
    requires Lists(l, FullSyncIndex(me, v))
    ensures Unsourced(l)
  {
    forall c | c in l ensures c.sourceIncarnation.None? {
      var i :| 0 <= i < |l| && l[i] == c;
    }
  }

  /** A list without news does not override the target's own entry. */
  lemma NoNewsOfB(va: View, a: NodeState, b: NodeState, now: int, l: seq<Change>, o: Oracle)
    requires a.me in va && a.me in a.view && b.me in b.view && a.me != b.me
    requires a.view == FirstMeets(va, a.me, b.view, b.me, now) && Lists(l, FullSyncIndex(a.me, a.view))
    requires UpdateAll(b.view, b.me, l, o).updates == []
    ensures b.me in va ==> !Overrides(va[b.me], b.view[b.me])
  {
    if b.me in va && Overrides(va[b.me], b.view[b.me]) {
      OverridesTotal(va[b.me], b.view[b.me]);
      assert b.me in FullSyncIndex(a.me, a.view) && a.view[b.me] == va[b.me];
      var i :| 0 <= i < |l| && l[i].address == b.me;
      NoUpdatesIff(b.view, b.me, l, o);
    }
  }

  /** The target after it was sent the merged list; a reverse job would only repeat it. */
  lemma MergeHandled(a: NodeState, b: NodeState, l: seq<Change>, c: Circumstances, after: NodeState)
    returns (now: int, repeated: bool, later: int)
    requires a.me in a.view && b.me in b.view && Lists(l, FullSyncIndex(a.me, a.view))
    requires TargetAfter(a, Some(l), b, c, after) && Accepts(a, b, c)
    ensures var v := FirstMeets(b.view, b.me, a.view, a.me, now);
            after.view == if repeated then FirstMeets(v, b.me, a.view, a.me, later) else v
    ensures exists i :: now == c.o.clock(i)
    ensures repeated ==>
              exists res: PingResult, mid :: res.Answered? && res.fullSync
                && Pinged(b, PingOf(a, l, c.app, c.hashFunc), c.o, c.hashFunc, c.max, res, mid)
  {
    var res, mid := PingTaken(a, l, b, c, after);
    var i := ListingMeets(b.view, b.me, l, FullSyncIndex(a.me, a.view), c.o);
    now, later := c.o.clock(i), 0;
    repeated := res.fullSync && c.jobs < c.cfg.maxReverseFullSyncJobs && c.answered;
    if repeated {
      later := ResyncMeets(a, mid, c.again, after);
    }
  }

  lemma MeetAgain(v: View, me: string, w: View, them: string, now: int, later: int, x: string)
    requires me in v
    ensures var r := FirstMeets(v, me, w, them, now);
            me in r && (Pingable(r, x) ==> Pingable(FirstMeets(r, me, w, them, later), x))
  {
  }

  // ---- whole attempts ----

  /** The reverse job takes place and the target had a conflicting member besides itself. */
  ghost predicate UndoneBySync(va: View, a: NodeState, b: NodeState, c: Circumstances)
    requires a.me in a.view
  {
    Resyncs(va, a, b, c) && exists x :: x != b.me && Conflicts(b.view, va, x)
  }

  /** Nobody pingable at `n` has been lost. */
  ghost predicate Kept(n: NodeState, after: NodeState) {
    forall x :: Pingable(n.view, x) ==> Pingable(after.view, x)
  }

  lemma MergeIsSafe(a: NodeState, b: NodeState, lb: seq<Change>, o: Oracle, after: NodeState, sent: Option<seq<Change>>,
                    c: Circumstances, bAfter: NodeState)
    requires a.me in a.view && b.me in b.view && a.me != b.me && Attempted(a, lb, o, after, sent)
    requires Lists(lb, FullSyncIndex(b.me, b.view)) && NoConflicts(a.view, b.view)
    requires TargetAfter(after, sent, b, c, bAfter)
    requires a.me in b.view ==> b.view[a.me].incarnation <= a.view[a.me].incarnation
    ensures Kept(b, bAfter)
  {
    var nowA := MergeSent(a, b, lb, o, after, sent);
    if Accepts(after, b, c) {
      var now, repeated, later := MergeHandled(after, b, sent.value, c, bAfter);
      MergeSafe(a.view, a.me, b.view, b.me, nowA, now);
      forall x | Pingable(b.view, x) ensures Pingable(bAfter.view, x) {
        MeetAgain(b.view, b.me, after.view, a.me, now, later, x);
      }
    } else {
      PingIgnored(after, sent.value, b, c, bAfter);
    }
  }

  lemma SuspicionsAreSafeIff(a: NodeState, b: NodeState, lb: seq<Change>, o: Oracle, after: NodeState,
                             sent: Option<seq<Change>>, c: Circumstances, bAfter: NodeState)
    requires a.me in a.view && b.me in b.view && a.me != b.me && c.max >= 1
    requires Attempted(a, lb, o, after, sent) && ListsView(lb, b.view) && !NoConflicts(a.view, b.view)
    requires after.me in after.view && TargetAfter(after, sent, b, c, bAfter)
    ensures Kept(b, bAfter) <==> !UndoneBySync(a.view, after, b, c)
  {
    forall x ensures Pingable(b.view, x) && !Pingable(bAfter.view, x) <==>
                     Resyncs(a.view, after, b, c) && x != b.me && Conflicts(b.view, a.view, x)
    {
      HealMarksSuspects(a, b, lb, o, after, sent, c, bAfter, x);
    }
  }

  /** Heal safety, given that nobody knows a newer incarnation of the healer than the healer itself: no attempt makes a
      pingable member unpingable at the healer, and none does so at the target exactly if it is not undone by the
      reverse full sync that handling its ping may start. */
  lemma HealIsSafe(a: NodeState, b: NodeState, lb: seq<Change>, o: Oracle, after: NodeState, sent: Option<seq<Change>>,
                   c: Circumstances, bAfter: NodeState)
    requires a.me in a.view && b.me in b.view && a.me != b.me && Attempted(a, lb, o, after, sent)
    requires Lists(lb, FullSyncIndex(b.me, b.view)) && after.me in after.view
    requires TargetAfter(after, sent, b, c, bAfter) && c.max >= 1
    requires a.me in b.view ==> b.view[a.me].incarnation <= a.view[a.me].incarnation
    ensures Kept(a, after)
    ensures Kept(b, bAfter) <==> !UndoneBySync(a.view, after, b, c)
  {
    forall x | Pingable(a.view, x) ensures Pingable(after.view, x) {
      AnyReplyIsSafe(a, lb, o, after, sent, x);
    }
    if NoConflicts(a.view, b.view) {
      MergeIsSafe(a, b, lb, o, after, sent, c, bAfter);
      forall x ensures !Conflicts(b.view, a.view, x) {
        NoConflictsAt(a.view, b.view, x);
      }
    } else {
      FullSyncListsView(lb, b.me, b.view);
      SuspicionsAreSafeIff(a, b, lb, o, after, sent, c, bAfter);
    }
  }

  /** Without conflicts, if the target takes the ping, both sides end with the same live entries, except that the target
      may have refuted what the healer says about it. */
  lemma HealAgrees(a: NodeState, b: NodeState, lb: seq<Change>, o: Oracle, after: NodeState, sent: Option<seq<Change>>,
                   c: Circumstances, bAfter: NodeState, x: string)
    requires a.me in a.view && b.me in b.view && a.me != b.me && Attempted(a, lb, o, after, sent)
    requires Lists(lb, FullSyncIndex(b.me, b.view)) && NoConflicts(a.view, b.view) && after.me in after.view
    requires TargetAfter(after, sent, b, c, bAfter) && Accepts(after, b, c) && c.max >= 1
    requires a.me in b.view ==> forall i :: o.clock(i) > b.view[a.me].incarnation
    ensures if x == b.me && b.me in a.view && Overrides(a.view[b.me], b.view[b.me])
            then b.me in bAfter.view && bAfter.view[b.me].status == b.view[b.me].status
            else LiveState(after.view, x) == LiveState(bAfter.view, x)
  {
    var nowA := MergeSent(a, b, lb, o, after, sent);
    var now, repeated, later := MergeHandled(after, b, sent.value, c, bAfter);
    if repeated {
      var res: PingResult, mid :| res.Answered? && res.fullSync
        && Pinged(b, PingOf(after, sent.value, c.app, c.hashFunc), c.o, c.hashFunc, c.max, res, mid);
      MergeNeverSyncs(a.view, after, b, nowA, sent.value, c.app, c.o, c.hashFunc, c.max, res, mid);
    }
    MergeAgrees(a.view, a.me, b.view, b.me, nowA, now, x);
  }

  /** The same in every run of a cluster, for an attempt between two of its nodes. */
  lemma HealIsSafeInRuns(cs: seq<Clusters.Cluster>, steps: seq<Clusters.Step>, k: nat, a: string, b: string,
                         lb: seq<Change>, o: Oracle, after: NodeState, sent: Option<seq<Change>>, c: Circumstances,
                         bAfter: NodeState)
    requires Clusters.Run(cs, steps) && k <= |steps| && a != b && Clusters.Known(cs[k], a) && Clusters.Known(cs[k], b)
    requires Attempted(cs[k].nodes[a], lb, o, after, sent) && after.me in after.view
    requires Lists(lb, FullSyncIndex(b, cs[k].nodes[b].view))
    requires TargetAfter(after, sent, cs[k].nodes[b], c, bAfter) && c.max >= 1
    ensures Kept(cs[k].nodes[a], after)
    ensures Kept(cs[k].nodes[b], bAfter) <==> !UndoneBySync(cs[k].nodes[a].view, after, cs[k].nodes[b], c)
  {
    var na, nb := cs[k].nodes[a], cs[k].nodes[b];
    if a in nb.view {
      assert Clusters.Somewhere(cs[k], a, nb.view[a]);
      Clusters.Ownership(cs, steps, k, a, nb.view[a]);
    }
    HealIsSafe(na, nb, lb, o, after, sent, c, bAfter);
  }

  /** There, no full sync ever follows a merge. */
  lemma MergeNeverSyncsInRuns(cs: seq<Clusters.Cluster>, steps: seq<Clusters.Step>, k: nat, a: string, b: string,
                              lb: seq<Change>, o: Oracle, after: NodeState, sent: seq<Change>, app: string, ob: Oracle,
                              hashFunc: string -> int, max: nat, res: PingResult, bAfter: NodeState)
    requires Clusters.Run(cs, steps) && k <= |steps| && a != b && Clusters.Known(cs[k], a) && Clusters.Known(cs[k], b)
    requires NoConflicts(cs[k].nodes[a].view, cs[k].nodes[b].view)
    requires forall i :: Clusters.Advanced(cs[k], a, o.clock(i))
    requires Lists(lb, FullSyncIndex(b, cs[k].nodes[b].view)) && Attempted(cs[k].nodes[a], lb, o, after, Some(sent))
    requires after.me in after.view && res.Answered? && max >= 1
    requires Pinged(cs[k].nodes[b], PingOf(after, sent, app, hashFunc), ob, hashFunc, max, res, bAfter)
    ensures !res.fullSync
  {
    var na, nb := cs[k].nodes[a], cs[k].nodes[b];
    var now := MergeSent(na, nb, lb, o, after, Some(sent));
    if a in nb.view {
      assert Clusters.Somewhere(cs[k], a, nb.view[a]);
      Clusters.Ownership(cs, steps, k, a, nb.view[a]);
    }
    MergeNeverSyncs(na.view, after, nb, now, sent, app, ob, hashFunc, max, res, bAfter);
  }

  // ---- an attempt that is undone ----

  /** Everyone is alive, except that `x` is in status `s`. */
  function Three(a: string, b: string, x: string, s: Status): View {
    map[a := State(1, Alive), b := State(1, Alive), x := State(5, s)]
  }

  lemma OnlyXConflicts(a: string, b: string, x: string)
    requires a != b && x != a && x != b
    ensures var va, vb := Three(a, b, x, Faulty), Three(a, b, x, Suspect);
            && Suspicions(va, vb) == map[] && Suspicions(vb, va) == map[x := CreateSuspectChange(x, State(5, Faulty))]
            && Conflicts(vb, va, x) && AllSuspect(vb, va)
  {
    var va, vb := Three(a, b, x, Faulty), Three(a, b, x, Suspect);
    forall y ensures !Conflicts(va, vb, y) && (Conflicts(vb, va, y) <==> y == x) {
      if y in vb && y != x {
        assert va[y] == vb[y];
      }
    }
    assert Suspicions(va, vb).Keys == {};
    assert Suspicions(vb, va).Keys == {x};
  }

  lemma ListsOne(l: seq<Change>, idx: Index, c: Change)
    requires idx == map[c.address := c] && Lists(l, idx)
    ensures l == [c]
  {
    assert c.address in idx;
    forall j | 0 <= j < |l| ensures l[j] == c {
      assert l[j].address in idx;
    }
    assert |l| > 1 ==> l[0].address == l[1].address;
  }

  lemma NoConflictsIfNone(va: View, vb: View, x: string)
    requires Conflicts(vb, va, x)
    ensures !NoConflicts(va, vb)
  {
    assert x in Suspicions(vb, va);
  }

  /** If nothing is in conflict at the healer and the reverse job takes place, every other conflicting member of the
      target ends as the healer has it. */
  lemma UndoneAt(a: NodeState, b: NodeState, x: string, lb: seq<Change>, o: Oracle, after: NodeState,
                 sent: Option<seq<Change>>, c: Circumstances, bAfter: NodeState)
    requires a.me in a.view && b.me in b.view && a.me != b.me && c.max >= 1
    requires Attempted(a, lb, o, after, sent) && ListsView(lb, b.view) && Suspicions(a.view, b.view) == map[]
    requires Resyncs(a.view, a, b, c) && Conflicts(b.view, a.view, x) && x != b.me
    requires after.me in after.view && TargetAfter(after, sent, b, c, bAfter)
    ensures after == a && sent.Some? && Lists(sent.value, Suspicions(b.view, a.view))
    ensures x in bAfter.view && bAfter.view[x] == a.view[x]
  {
    NoConflictsIfNone(a.view, b.view, x);
    var forA, forB := SuspicionsSent(a, b.view, lb, o, after, sent);
    NoSuspicions(forA, a.view, b.view);
    HealMarksSuspects(a, b, lb, o, after, sent, c, bAfter, x);
  }

  lemma RepeatedResyncs(a: NodeState, b: NodeState, x: string, c: Circumstances)
    requires a.me != b.me && x != a.me && x != b.me && b.buffer == map[]
    requires a.view == Three(a.me, b.me, x, Faulty) && b.view == Three(a.me, b.me, x, Suspect)
    requires Accepts(a, b, c) && Checksum(c.hashFunc, a.view) != Checksum(c.hashFunc, b.view)
    requires c.jobs < c.cfg.maxReverseFullSyncJobs && c.answered
    ensures Resyncs(a.view, a, b, c)
  {
    OnlyXConflicts(a.me, b.me, x);
    assert ToIssue(b.buffer, Some(Sender(a.me, Some(1))), c.max).Keys == {};
  }

  /** An input on which the attempt is undone: the target calls `x` suspect at the very incarnation at which the healer
      calls it faulty, as an earlier attempt leaves it, and has nothing to issue. The suspicion is no news, the ping is
      answered with a full sync, and the healer's list makes `x` faulty at the target. */
  lemma RepeatedHealIsUndone(a: NodeState, b: NodeState, x: string, lb: seq<Change>, o: Oracle, after: NodeState,
                             sent: Option<seq<Change>>, c: Circumstances, bAfter: NodeState)
    requires a.me != b.me && x != a.me && x != b.me && b.buffer == map[]
    requires a.view == Three(a.me, b.me, x, Faulty) && b.view == Three(a.me, b.me, x, Suspect)
    requires Lists(lb, FullSyncIndex(b.me, b.view)) && Attempted(a, lb, o, after, sent)
    requires Accepts(a, b, c) && Checksum(c.hashFunc, a.view) != Checksum(c.hashFunc, b.view)
    requires c.jobs < c.cfg.maxReverseFullSyncJobs && c.answered && c.max >= 1
    requires after.me in after.view && TargetAfter(after, sent, b, c, bAfter)
    ensures after == a && sent == Some([CreateSuspectChange(x, State(5, Faulty))])
    ensures Pingable(b.view, x) && x in bAfter.view && bAfter.view[x] == State(5, Faulty)
  {
    FullSyncListsView(lb, b.me, b.view);
    OnlyXConflicts(a.me, b.me, x);
    RepeatedResyncs(a, b, x, c);
    UndoneAt(a, b, x, lb, o, after, sent, c, bAfter);
    ListsOne(sent.value, Suspicions(b.view, a.view), CreateSuspectChange(x, State(5, Faulty)));
  }
}
