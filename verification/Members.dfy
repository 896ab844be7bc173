/** Member states and the update rules (lib/membership/member.js:155-254, lib/membership/index.js:398-428). */
module Members {
  import opened Wrappers

  datatype Status = Alive | Suspect | Faulty | Leave | Tombstone

  function StatusPrecedence(s: Status): int {
    match s
    case Alive => 0
    case Suspect => 1
    case Faulty => 2
    case Leave => 3
    case Tombstone => 4
  }

  predicate IsStatusPingable(s: Status) {
    s.Alive? || s.Suspect?
  }

  /** What a node knows about a member. */
  datatype State = State(incarnation: int, status: Status)

  type View = map<string, State>

  datatype Change = Change(address: string, incarnation: int, status: Status,
                           source: Option<string>, sourceIncarnation: Option<int>, id: Option<nat>)

  function StateOf(c: Change): State {
    State(c.incarnation, c.status)
  }

  function Find(v: View, a: string): Option<State> {
    if a in v then Some(v[a]) else None
  }

  predicate Overrides(new_: State, cur: State) {
    || new_.incarnation > cur.incarnation
    || (new_.incarnation == cur.incarnation && StatusPrecedence(new_.status) > StatusPrecedence(cur.status))
  }

  /** `Member.shouldProcessGossip`. */
  predicate ShouldProcessGossip(member: Option<State>, gossip: Change) {
    if gossip.status.Tombstone? && member.None? then false
    else if member.None? then true
    else if gossip.incarnation < member.value.incarnation then false
    else if gossip.incarnation > member.value.incarnation then true
    else StatusPrecedence(gossip.status) > StatusPrecedence(member.value.status)
  }

  /** The clock and the fresh ids met while a batch is applied. */
  datatype Oracle = Oracle(clock: nat -> int, ids: nat -> nat)

  datatype Outcome = Outcome(view: View, updates: seq<Change>)

  /** The local member's new incarnation and the update that announces it (`_reincarnate`). */
  function Refutation(me: string, status: Status, now: int, id: nat): Change {
    Change(me, now, status, Some(me), Some(now), Some(id))
  }

  /** One change of a batch: applied as it is, refuted if it is about the local member, or ignored. */
  function UpdateOne(o: Outcome, me: string, c: Change, now: int, id: nat): Outcome
    requires me in o.view
  {
    if !ShouldProcessGossip(Find(o.view, c.address), c) then o
    else if c.address == me then
      var status := o.view[me].status;
      Outcome(o.view[me := State(now, status)], o.updates + [Refutation(me, status, now, id)])
    else
      Outcome(o.view[c.address := StateOf(c)], o.updates + [c])
  }

  /** A whole batch, change by change. */
  function UpdateAll(v: View, me: string, changes: seq<Change>, o: Oracle): (r: Outcome)
    requires me in v
    ensures me in r.view
  {
    if changes == [] then Outcome(v, [])
    else
      var n := |changes| - 1;
      UpdateOne(UpdateAll(v, me, changes[..n], o), me, changes[n], o.clock(n), o.ids(n))
  }

  /** The change that node `me` declares about an address (`makeChange`); it has no source before the node has an
      entry of its own. */
  function Declared(v: View, me: string, a: string, incarnation: int, status: Status, id: nat): Change {
    if me in v then Change(a, incarnation, status, Some(me), Some(v[me].incarnation), Some(id))
    else Change(a, incarnation, status, None, None, Some(id))
  }

  /** A change is judged by the entries alone, and the updates only grow. */
  lemma UpdateAllSnoc(v: View, me: string, changes: seq<Change>, o: Oracle, n: nat)
    requires me in v && n < |changes|
    ensures var before, after := UpdateAll(v, me, changes[..n], o), UpdateAll(v, me, changes[..n + 1], o);
            var step := UpdateOne(Outcome(before.view, []), me, changes[n], o.clock(n), o.ids(n));
            after == Outcome(step.view, before.updates + step.updates)
            && (step.updates == [] ==> step.view == before.view)
  {
    assert changes[..n + 1][..n] == changes[..n];
  }

  lemma UpdateSingle(v: View, me: string, c: Change, o: Oracle)
    requires me in v
    ensures UpdateAll(v, me, [c], o) == UpdateOne(Outcome(v, []), me, c, o.clock(0), o.ids(0))
  {
    assert [c][..0] == [];
  }

  lemma AddToSum(v: View, w: View, a: string, s: State)
    requires a !in v && a !in w
    ensures (v + w)[a := s] == v + w[a := s] && a !in v + w
  {
  }

  lemma {:induction false} NoUpdatesNoChange(v: View, me: string, changes: seq<Change>, o: Oracle)
    requires me in v
    ensures UpdateAll(v, me, changes, o).updates == [] ==> UpdateAll(v, me, changes, o).view == v
  {
    if changes == [] {
    } else {
      NoUpdatesNoChange(v, me, changes[..|changes| - 1], o);
    }
  }

  /** A batch has no updates exactly if none of its changes is news to the entries as they are. */
  lemma {:induction false} NoUpdatesIff(v: View, me: string, changes: seq<Change>, o: Oracle)
    requires me in v
    ensures UpdateAll(v, me, changes, o).updates == [] <==>
            forall i :: 0 <= i < |changes| ==> !ShouldProcessGossip(Find(v, changes[i].address), changes[i])
  {
    if changes == [] {
    } else {
      var rest := changes[..|changes| - 1];
      NoUpdatesIff(v, me, rest, o);
      NoUpdatesNoChange(v, me, rest, o);
      forall i | 0 <= i < |rest| ensures rest[i] == changes[i] {}
    }
  }

  /** Every update is a change of the batch or the local member's own refutation. */
  lemma {:induction false} UpdatesComeFrom(v: View, me: string, changes: seq<Change>, o: Oracle)
    requires me in v
    ensures forall u :: u in UpdateAll(v, me, changes, o).updates ==>
              u in changes || (u.address == me && u.source == Some(me) && u.sourceIncarnation == Some(u.incarnation))
  {
    if changes == [] {
    } else {
      UpdatesComeFrom(v, me, changes[..|changes| - 1], o);
    }
  }

  /** At equal incarnations, later in this order wins. */
  lemma StatusOrder(member: State, gossip: Change)
    requires gossip.incarnation == member.incarnation
    ensures var order := [Alive, Suspect, Faulty, Leave, Tombstone];
            && (exists i :: 0 <= i < 5 && order[i] == member.status)
            && (exists j :: 0 <= j < 5 && order[j] == gossip.status)
            && forall i, j :: 0 <= i < 5 && 0 <= j < 5 && order[i] == member.status && order[j] == gossip.status ==>
                 (ShouldProcessGossip(Some(member), gossip) <==> i < j)
  {
    var order := [Alive, Suspect, Faulty, Leave, Tombstone];
    assert order[0] == Alive && order[1] == Suspect && order[2] == Faulty && order[3] == Leave && order[4] == Tombstone;
  }

  // ---- the order of states ----

  lemma OverridesTotal(a: State, b: State)
    ensures a == b || Overrides(a, b) || Overrides(b, a)
    ensures !(Overrides(a, b) && Overrides(b, a)) && !Overrides(a, a)
  {
  }

  lemma OverridesTrans(a: State, b: State, c: State)
    requires Overrides(a, b) && Overrides(b, c)
    ensures Overrides(a, c)
  {
  }

  ghost predicate IsMax(ss: set<State>, m: State) {
    m in ss && forall s :: s in ss ==> !Overrides(s, m)
  }

  lemma {:induction false} MaxExists(ss: set<State>) returns (m: State)
    requires ss != {}
    ensures IsMax(ss, m)
    decreases |ss|
  {
    var x :| x in ss;
    if ss == {x} {
      m := x;
    } else {
      var rest := ss - {x};
      assert rest == {} ==> ss == {x};
      var y := MaxExists(rest);
      m := if Overrides(x, y) then x else y;
      assert ss == rest + {x};
    }
  }

  lemma MaxIsThere(ss: set<State>)
    requires ss != {}
    ensures exists m :: IsMax(ss, m)
  {
    var m := MaxExists(ss);
  }

  /** The greatest state of a set by (incarnation, status precedence), if there is any. */
  ghost function Max(ss: set<State>): Option<State> {
    if ss == {} then None
    else
      MaxIsThere(ss);
      var m :| IsMax(ss, m);
      Some(m)
  }

  lemma MaxUnique(ss: set<State>, m: State)
    requires IsMax(ss, m)
    ensures Max(ss) == Some(m)
  {
    MaxIsThere(ss);
    var n := Max(ss).value;
    OverridesTotal(m, n);
  }

  // ---- join of updates ----

  ghost function StatesAbout(changes: seq<Change>, a: string): set<State> {
    set i | 0 <= i < |changes| && changes[i].address == a :: StateOf(changes[i])
  }

  ghost function StatesKnown(v: View, a: string): set<State> {
    if a in v then {v[a]} else {}
  }

  /** The states about `a` that count: while `a` is unknown, tombstones are dropped. */
  ghost function Heard(known: set<State>, changes: seq<Change>, a: string): set<State> {
    if changes == [] then known
    else
      var h := Heard(known, changes[..|changes| - 1], a);
      var c := changes[|changes| - 1];
      if c.address != a || (h == {} && c.status.Tombstone?) then h else h + {StateOf(c)}
  }

  /** For every input: a batch leaves a remote address at the maximum of what was known and what counts. */
  lemma {:induction false} UpdateIsMaxHeard(v: View, me: string, changes: seq<Change>, o: Oracle, a: string)
    requires me in v && a != me
    ensures Find(UpdateAll(v, me, changes, o).view, a) == Max(Heard(StatesKnown(v, a), changes, a))
  {
    if changes == [] {
      if a in v {
        MaxUnique(StatesKnown(v, a), v[a]);
      }
    } else {
      var n := |changes| - 1;
      UpdateIsMaxHeard(v, me, changes[..n], o, a);
      var h := Heard(StatesKnown(v, a), changes[..n], a);
      var c := changes[n];
      if c.address == a && !(h == {} && c.status.Tombstone?) {
        var before := Find(UpdateAll(v, me, changes[..n], o).view, a);
        if h == {} {
          MaxUnique(h + {StateOf(c)}, StateOf(c));
        } else {
          MaxIsThere(h);
          assert IsMax(h, before.value);
          OverridesTotal(StateOf(c), before.value);
          MaxUnique(h + {StateOf(c)}, if Overrides(StateOf(c), before.value) then StateOf(c) else before.value);
        }
      }
    }
  }

  ghost predicate NoTombstonesAbout(changes: seq<Change>, a: string) {
    forall i :: 0 <= i < |changes| && changes[i].address == a ==> !changes[i].status.Tombstone?
  }

  lemma {:induction false} HeardEverything(known: set<State>, changes: seq<Change>, a: string)
    requires known != {} || NoTombstonesAbout(changes, a)
    ensures Heard(known, changes, a) == known + StatesAbout(changes, a)
  {
    if changes == [] {
    } else {
      var n := |changes| - 1;
      HeardEverything(known, changes[..n], a);
      StatesSnoc(changes[..n], changes[n], a);
      assert changes == changes[..n] + [changes[n]];
    }
  }

  lemma StatesSnoc(changes: seq<Change>, c: Change, a: string)
    ensures StatesAbout(changes + [c], a) ==
            StatesAbout(changes, a) + if c.address == a then {StateOf(c)} else {}
  {
    var d := changes + [c];
    assert d[|changes|] == c;
    forall i | 0 <= i < |changes| ensures d[i] == changes[i] {}
  }

  /** Applying batches one after the other. */
  function UpdateBatches(v: View, me: string, batches: seq<seq<Change>>, o: seq<Oracle>): View
    requires me in v && |o| == |batches|
    decreases |batches|
  {
    if batches == [] then v
    else
      var r := UpdateAll(v, me, batches[0], o[0]).view;
      UpdateBatches(r, me, batches[1..], o[1..])
  }

  ghost function AllStatesAbout(batches: seq<seq<Change>>, a: string): set<State> {
    set i, j | 0 <= i < |batches| && 0 <= j < |batches[i]| && batches[i][j].address == a :: StateOf(batches[i][j])
  }

  ghost predicate NoTombstonesAtAll(batches: seq<seq<Change>>, a: string) {
    forall i :: 0 <= i < |batches| ==> NoTombstonesAbout(batches[i], a)
  }

  lemma MaxOfUnion(ss: set<State>, m: State, ts: set<State>)
    requires IsMax(ss, m)
    ensures Max({m} + ts) == Max(ss + ts)
  {
    MaxIsThere({m} + ts);
    var x := Max({m} + ts).value;
    forall s | s in ss + ts ensures !Overrides(s, x) {
      if s in ss {
        OverridesTotal(s, m);
        OverridesTotal(m, x);
      }
    }
    MaxUnique(ss + ts, x);
  }

  /** Join of updates: the final entry is the maximum of everything ever heard, whatever the order,
      the duplication and the batching. */
  lemma {:induction false} BatchesJoin(v: View, me: string, batches: seq<seq<Change>>, o: seq<Oracle>, a: string)
    requires me in v && |o| == |batches| && a != me
    requires a in v || NoTombstonesAtAll(batches, a)
    ensures Find(UpdateBatches(v, me, batches, o), a) == Max(StatesKnown(v, a) + AllStatesAbout(batches, a))
    decreases |batches|
  {
    if batches == [] {
      assert AllStatesAbout(batches, a) == {};
      assert StatesKnown(v, a) + {} == StatesKnown(v, a);
      if a in v { MaxUnique(StatesKnown(v, a), v[a]); }
    } else {
      var first, rest := StatesAbout(batches[0], a), AllStatesAbout(batches[1..], a);
      var w := UpdateAll(v, me, batches[0], o[0]).view;
      UpdateIsMaxHeard(v, me, batches[0], o[0], a);
      HeardEverything(StatesKnown(v, a), batches[0], a);
      BatchesJoin(w, me, batches[1..], o[1..], a);
      AllStatesSplit(batches, a);
      if a in w {
        MaxIsThere(StatesKnown(v, a) + first);
        MaxOfUnion(StatesKnown(v, a) + first, w[a], rest);
        assert StatesKnown(v, a) + first + rest == StatesKnown(v, a) + AllStatesAbout(batches, a);
      } else {
        assert StatesKnown(v, a) + AllStatesAbout(batches, a) == StatesKnown(w, a) + rest;
      }
    }
  }

  lemma AllStatesSplit(batches: seq<seq<Change>>, a: string)
    requires batches != []
    ensures AllStatesAbout(batches, a) == StatesAbout(batches[0], a) + AllStatesAbout(batches[1..], a)
  {
    forall i, j | 0 <= i < |batches[1..]| && 0 <= j < |batches[1..][i]|
      ensures batches[1..][i][j] == batches[i + 1][j] {}
    forall s | s in AllStatesAbout(batches[1..], a) ensures s in AllStatesAbout(batches, a) {
      var i, j :| 0 <= i < |batches[1..]| && 0 <= j < |batches[1..][i]| && batches[1..][i][j].address == a
                  && s == StateOf(batches[1..][i][j]);
      assert s == StateOf(batches[i + 1][j]);
    }
    forall s | s in AllStatesAbout(batches, a)
      ensures s in StatesAbout(batches[0], a) + AllStatesAbout(batches[1..], a)
    {
      var i, j :| 0 <= i < |batches| && 0 <= j < |batches[i]| && batches[i][j].address == a
                  && s == StateOf(batches[i][j]);
      if i > 0 {
        assert s == StateOf(batches[1..][i - 1][j]);
      }
    }
  }

  /** Hence two histories with the same states about an address end alike. */
  lemma OrderDoesNotMatter(v: View, me: string, b1: seq<seq<Change>>, o1: seq<Oracle>,
                           b2: seq<seq<Change>>, o2: seq<Oracle>, a: string)
    requires me in v && |o1| == |b1| && |o2| == |b2| && a != me
    requires a in v || (NoTombstonesAtAll(b1, a) && NoTombstonesAtAll(b2, a))
    requires AllStatesAbout(b1, a) == AllStatesAbout(b2, a)
    ensures Find(UpdateBatches(v, me, b1, o1), a) == Find(UpdateBatches(v, me, b2, o2), a)
  {
    BatchesJoin(v, me, b1, o1, a);
    BatchesJoin(v, me, b2, o2, a);
  }

  // ---- the join for an unknown member ----

  /** The `i`-th change about `a` counts although `a` was unknown: by then somebody has said that `a` lives. */
  ghost predicate Counts(changes: seq<Change>, a: string, i: int) {
    && 0 <= i < |changes| && changes[i].address == a
    && exists j :: 0 <= j <= i && changes[j].address == a && !changes[j].status.Tombstone?
  }

  ghost function Counted(changes: seq<Change>, a: string): set<State> {
    set i | 0 <= i < |changes| && Counts(changes, a, i) :: StateOf(changes[i])
  }

  lemma CountsSnoc(changes: seq<Change>, c: Change, a: string)
    ensures forall i :: 0 <= i < |changes| ==> (Counts(changes + [c], a, i) <==> Counts(changes, a, i))
    ensures Counts(changes + [c], a, |changes|) <==>
              c.address == a && (!c.status.Tombstone? || Counted(changes, a) != {})
  {
    var d := changes + [c];
    assert d[|changes|] == c;
    forall i | 0 <= i < |changes| ensures d[i] == changes[i] {}
    if s :| s in Counted(changes, a) {
      var i :| 0 <= i < |changes| && Counts(changes, a, i);
      var j :| 0 <= j <= i && changes[j].address == a && !changes[j].status.Tombstone?;
      assert d[j] == changes[j];
    }
    if c.status.Tombstone? && Counts(d, a, |changes|) {
      var j :| 0 <= j <= |changes| && d[j].address == a && !d[j].status.Tombstone?;
      assert d[j] == changes[j];
      assert Counts(changes, a, j);
      assert StateOf(changes[j]) in Counted(changes, a);
    }
  }

  lemma CountedHas(changes: seq<Change>, a: string)
    ensures forall i :: Counts(changes, a, i) ==> StateOf(changes[i]) in Counted(changes, a)
  {
  }

  lemma CountedSnoc(changes: seq<Change>, c: Change, a: string)
    ensures Counted(changes + [c], a) == Counted(changes, a) +
              if c.address == a && (!c.status.Tombstone? || Counted(changes, a) != {}) then {StateOf(c)} else {}
  {
    var d := changes + [c];
    CountsSnoc(changes, c, a);
    assert d[|changes|] == c;
    forall i | 0 <= i < |changes| ensures d[i] == changes[i] {}
  }

  /** What counts about an unknown address is exactly what follows the first sign of life. */
  lemma {:induction false} HeardOfUnknown(changes: seq<Change>, a: string)
    ensures Heard({}, changes, a) == Counted(changes, a)
  {
    if changes == [] {
      assert Counted(changes, a) == {};
    } else {
      var n := |changes| - 1;
      HeardOfUnknown(changes[..n], a);
      CountedSnoc(changes[..n], changes[n], a);
      assert changes == changes[..n] + [changes[n]];
    }
  }

  /** The maximum of everything said about `a` is carried by a change that counts. */
  ghost predicate MaximumCounts(changes: seq<Change>, a: string) {
    exists i :: Counts(changes, a, i) && Max(StatesAbout(changes, a)) == Some(StateOf(changes[i]))
  }

  lemma MaxOfPart(ss: set<State>, part: set<State>)
    requires part <= ss && part != {}
    ensures Max(part) == Max(ss) <==> Max(ss).Some? && Max(ss).value in part
  {
    MaxIsThere(ss);
    MaxIsThere(part);
    var m := Max(ss).value;
    if m in part {
      assert IsMax(part, m);
      MaxUnique(part, m);
    }
  }

  lemma HeardIsSaid(changes: seq<Change>, a: string)
    ensures Heard({}, changes, a) <= StatesAbout(changes, a)
  {
    HeardOfUnknown(changes, a);
  }

  /** Exactly when a batch leaves an unknown member at the maximum of everything said about it: when nothing is
      said, or the maximum comes no earlier than the first change that is not a tombstone. */
  lemma JoinOfUnknownIff(v: View, me: string, changes: seq<Change>, o: Oracle, a: string)
    requires me in v && a != me && a !in v
    ensures Find(UpdateAll(v, me, changes, o).view, a) == Max(StatesAbout(changes, a)) <==>
            StatesAbout(changes, a) == {} || MaximumCounts(changes, a)
  {
    var h, all := Heard({}, changes, a), StatesAbout(changes, a);
    UpdateIsMaxHeard(v, me, changes, o, a);
    HeardOfUnknown(changes, a);
    HeardIsSaid(changes, a);
    CountedHas(changes, a);
    if h == {} {
      if all != {} { MaxIsThere(all); }
    } else {
      MaxOfPart(all, h);
      MaxIsThere(all);
    }
  }

  function Flatten(batches: seq<seq<Change>>): seq<Change> {
    if batches == [] then [] else batches[0] + Flatten(batches[1..])
  }

  lemma {:induction false} HeardConcat(known: set<State>, x: seq<Change>, y: seq<Change>, a: string)
    ensures Heard(known, x + y, a) == Heard(Heard(known, x, a), y, a)
  {
    if y == [] {
      assert x + y == x;
    } else {
      assert (x + y)[..|x + y| - 1] == x + y[..|y| - 1];
      HeardConcat(known, x, y[..|y| - 1], a);
    }
  }

  /** What follows depends on what is known only through its maximum. */
  lemma HeardFromMax(known: set<State>, m: State, y: seq<Change>, a: string)
    requires IsMax(known, m)
    ensures Max(Heard({m}, y, a)) == Max(Heard(known, y, a))
  {
    HeardEverything({m}, y, a);
    HeardEverything(known, y, a);
    MaxOfUnion(known, m, StatesAbout(y, a));
  }

  /** Batching never matters: batches leave a remote address as their concatenation in one batch does. */
  lemma {:induction false} BatchesAreOne(v: View, me: string, batches: seq<seq<Change>>, o: seq<Oracle>, a: string)
    requires me in v && |o| == |batches| && a != me
    ensures Find(UpdateBatches(v, me, batches, o), a) == Max(Heard(StatesKnown(v, a), Flatten(batches), a))
    decreases |batches|
  {
    if batches == [] {
      if a in v { MaxUnique(StatesKnown(v, a), v[a]); }
    } else {
      var w := UpdateAll(v, me, batches[0], o[0]).view;
      var h := Heard(StatesKnown(v, a), batches[0], a);
      UpdateIsMaxHeard(v, me, batches[0], o[0], a);
      BatchesAreOne(w, me, batches[1..], o[1..], a);
      HeardConcat(StatesKnown(v, a), batches[0], Flatten(batches[1..]), a);
      if h != {} {
        MaxIsThere(h);
        HeardFromMax(h, Max(h).value, Flatten(batches[1..]), a);
      }
    }
  }

  /** The same exact condition for any sequence of batches. */
  lemma BatchesJoinUnknownIff(v: View, me: string, batches: seq<seq<Change>>, o: seq<Oracle>, a: string)
    requires me in v && |o| == |batches| && a != me && a !in v
    ensures var all := Flatten(batches);
            Find(UpdateBatches(v, me, batches, o), a) == Max(StatesAbout(all, a)) <==>
            StatesAbout(all, a) == {} || MaximumCounts(all, a)
  {
    var all, one := Flatten(batches), Oracle(i => 0, i => 0);
    BatchesAreOne(v, me, batches, o, a);
    UpdateIsMaxHeard(v, me, all, one, a);
    JoinOfUnknownIff(v, me, all, one, a);
  }

  /** An input on which the order does matter: a tombstone for an unknown member is dropped. */
  lemma TombstoneOrderMatters(v: View, me: string, a: string, o: Oracle)
    requires me in v && a != me && a !in v
    ensures var dead := Change(a, 5, Tombstone, None, None, None);
            var live := Change(a, 3, Alive, None, None, None);
            && Find(UpdateAll(v, me, [dead, live], o).view, a) == Some(State(3, Alive))
            && Find(UpdateAll(v, me, [live, dead], o).view, a) == Some(State(5, Tombstone))
  {
    var dead := Change(a, 5, Tombstone, None, None, None);
    var live := Change(a, 3, Alive, None, None, None);
    assert [dead, live][..1] == [dead] && [dead][..0] == [];
    assert [live, dead][..1] == [live] && [live][..0] == [];
    assert UpdateAll(v, me, [dead], o).view == v;
  }

  /** Gossip never changes the local member's status, and only raises its incarnation to a clock reading. */
  lemma {:induction false} LocalStatusKept(v: View, me: string, changes: seq<Change>, o: Oracle)
    requires me in v
    ensures var r := UpdateAll(v, me, changes, o).view[me];
            r.status == v[me].status &&
            (r == v[me] || exists i: nat :: i < |changes| && r.incarnation == o.clock(i))
  {
    if changes == [] {
    } else {
      LocalStatusKept(v, me, changes[..|changes| - 1], o);
    }
  }
}
