/** Round-robin choice of whom to probe (lib/membership/iterator.js:23-52). */
module Probes {
  import opened Members
  import opened Memberships

  /** `isPingable`: pingable and not the local member. */
  predicate Probed(v: View, me: string, a: string) {
    a in v && IsStatusPingable(v[a].status) && a != me
  }

  function AllProbed(v: View, me: string): set<string> {
    set a | a in v && Probed(v, me, a)
  }

  /** Everyone else who is alive or suspect. */
  lemma ProbedAre(v: View, me: string)
    ensures forall a :: a in AllProbed(v, me) <==> a in v && a != me && v[a].status in {Alive, Suspect}
  {
  }

  /** The pingable members of a list, in its order. */
  ghost function ProbedIn(ms: seq<Member>, v: View, me: string): seq<string> {
    if ms == [] then []
    else (if Probed(v, me, ms[0].address) then [ms[0].address] else []) + ProbedIn(ms[1..], v, me)
  }

  function AddressesOf(ms: seq<Member>): set<string> {
    set i | 0 <= i < |ms| :: ms[i].address
  }

  lemma {:induction false} AddressCount(ms: seq<Member>)
    requires Distinct(ms)
    ensures |AddressesOf(ms)| == |ms|
  {
    if ms == [] {
    } else {
      var r := ms[..|ms| - 1];
      AddressCount(r);
      assert ms[|ms| - 1].address !in AddressesOf(r);
      assert AddressesOf(ms) == AddressesOf(r) + {ms[|ms| - 1].address} by {
        forall i | 0 <= i < |r| ensures ms[i] == r[i] {}
      }
    }
  }

  /** Which of the pingable members the rest of a list starts with. */
  lemma ProbedNext(ms: seq<Member>, v: View, me: string, k: nat)
    requires k < |ms|
    ensures ProbedIn(ms[k..], v, me) ==
            if Probed(v, me, ms[k].address) then [ms[k].address] + ProbedIn(ms[k + 1..], v, me)
            else ProbedIn(ms[k + 1..], v, me)
  {
    assert ms[k..][1..] == ms[k + 1..];
  }

  lemma {:induction false} NoneProbed(ms: seq<Member>, v: View, me: string)
    requires forall i :: 0 <= i < |ms| ==> !Probed(v, me, ms[i].address)
    ensures ProbedIn(ms, v, me) == []
  {
    if ms == [] {
    } else {
      forall i | 0 <= i < |ms[1..]| ensures !Probed(v, me, ms[1..][i].address) { assert ms[1..][i] == ms[i + 1]; }
      NoneProbed(ms[1..], v, me);
    }
  }

  ghost function LeftAt(ms: seq<Member>, v: View, me: string, at: int): seq<string>
    requires at >= -1
  {
    if at >= |ms| then [] else ProbedIn(ms[at + 1..], v, me)
  }

  /** The search of `next` in list `ms`, with `order` the list after a shuffle and `ahead` what was left at its
      start. */
  ghost predicate Searching(ms: seq<Member>, v: View, me: string, at: int, ahead: seq<string>, order: seq<Member>,
                            shuffled: bool, visited: set<string>) {
    && at >= -1 && Distinct(ms) && v.Keys == AddressesOf(ms)
    && visited <= AddressesOf(ms) && (forall a :: a in visited ==> !Probed(v, me, a))
    && (if shuffled
        then ms == order && ahead == [] && LeftAt(ms, v, me, at) == ProbedIn(order, v, me) && 0 <= at < |ms|
             && forall i :: 0 <= i <= at ==> ms[i].address in visited
        else LeftAt(ms, v, me, at) == ahead)
  }

  /** A search does not shuffle twice: by then it has visited everyone. */
  lemma NotTwice(ms: seq<Member>, v: View, me: string, at: int, ahead: seq<string>, order: seq<Member>,
                 shuffled: bool, visited: set<string>)
    requires Searching(ms, v, me, at, ahead, order, shuffled, visited) && |visited| < |ms| && at + 1 >= |ms|
    ensures !shuffled && ahead == []
  {
    if shuffled {
      assert visited == AddressesOf(ms);
      AddressCount(ms);
    }
  }

  ghost function Goal(ahead: seq<string>, order: seq<Member>, v: View, me: string): seq<string> {
    if ahead != [] then ahead else ProbedIn(order, v, me)
  }

  lemma SearchStarts(ms: seq<Member>, idx: map<string, Member>, v: View, me: string, at: int, order: seq<Member>)
    requires at >= -1 && Distinct(ms) && Agree(ms, idx) && v.Keys == idx.Keys
    ensures Searching(ms, v, me, at, LeftAt(ms, v, me, at), order, false, {})
  {
    forall a | a in v ensures a in AddressesOf(ms) {
      assert idx[a] in ms;
    }
  }

  /** The next member of the list is either the answer or joins the visited ones. */
  lemma SearchStep(ms: seq<Member>, v: View, me: string, at: int, ahead: seq<string>, order: seq<Member>,
                   shuffled: bool, visited: set<string>)
    requires Searching(ms, v, me, at, ahead, order, shuffled, visited) && at + 1 < |ms|
    ensures var a := ms[at + 1].address;
            if Probed(v, me, a) then Goal(ahead, order, v, me) == [a] + LeftAt(ms, v, me, at + 1)
            else Searching(ms, v, me, at + 1, ahead, order, shuffled, visited + {a})
  {
    ProbedNext(ms, v, me, at + 1);
    LeftStep(ms, v, me, at + 1);
  }

  lemma LeftStep(ms: seq<Member>, v: View, me: string, at: int)
    requires 0 <= at < |ms|
    ensures LeftAt(ms, v, me, at) == ProbedIn(ms[at + 1..], v, me)
    ensures LeftAt(ms, v, me, at - 1) == ProbedIn(ms[at..], v, me)
  {
  }

  /** The same for the first member after a shuffle. */
  lemma ShuffleStep(ms: seq<Member>, v: View, me: string, at: int, ahead: seq<string>, order: seq<Member>,
                    visited: set<string>)
    requires Searching(ms, v, me, at, ahead, order, false, visited) && ahead == [] && |order| == |ms| > 0
    requires Reorders(order, ms)
    ensures var a := order[0].address;
            if Probed(v, me, a) then Goal(ahead, order, v, me) == [a] + LeftAt(order, v, me, 0)
            else Searching(order, v, me, 0, ahead, order, true, visited + {a})
  {
    forall i | 0 <= i < |ms| ensures ms[i].address in AddressesOf(order) {
      assert ms[i] in order;
    }
    forall i | 0 <= i < |order| ensures order[i].address in AddressesOf(ms) {
      assert order[i] in ms;
    }
    ProbedNext(order, v, me, 0);
    LeftStep(order, v, me, 0);
    assert order[0..] == order;
  }

  /** What looking at the next member tells, in the list as it is then. */
  lemma VisitStep(ms: seq<Member>, v: View, me: string, at: int, ahead: seq<string>, order: seq<Member>, shuffled: bool,
                  visited: set<string>, list: seq<Member>, i: int)
    requires Searching(ms, v, me, at, ahead, order, shuffled, visited) && |visited| < |ms| && Reorders(order, ms)
    requires if at + 1 < |ms| then list == ms && i == at + 1 else list == order && i == 0
    ensures |list| == |ms| && 0 <= i < |list| && Reorders(order, list) && (at + 1 >= |ms| ==> !shuffled)
    ensures Probed(v, me, list[i].address) ==> Goal(ahead, order, v, me) == [list[i].address] + LeftAt(list, v, me, i)
    ensures !Probed(v, me, list[i].address) ==>
              Searching(list, v, me, i, ahead, order, shuffled || at + 1 >= |ms|, visited + {list[i].address})
  {
    if at + 1 < |ms| {
      assert list == ms && i == at + 1;
      SearchStep(ms, v, me, at, ahead, order, shuffled, visited);
    } else {
      assert list == order && i == 0;
      NotTwice(ms, v, me, at, ahead, order, shuffled, visited);
      VisitShuffled(ms, v, me, at, ahead, order, visited);
    }
  }

  lemma VisitShuffled(ms: seq<Member>, v: View, me: string, at: int, ahead: seq<string>, order: seq<Member>,
                      visited: set<string>)
    requires Searching(ms, v, me, at, ahead, order, false, visited) && ahead == [] && ms != [] && Reorders(order, ms)
    ensures |order| == |ms| && Reorders(order, order)
    ensures var a := order[0].address;
            if Probed(v, me, a) then Goal(ahead, order, v, me) == [a] + LeftAt(order, v, me, 0)
            else Searching(order, v, me, 0, ahead, order, true, visited + {a})
  {
    SameCount(ms, order);
    ShuffleStep(ms, v, me, at, ahead, order, visited);
  }

  lemma SameCount(ms: seq<Member>, order: seq<Member>)
    requires Distinct(ms) && Reorders(order, ms)
    ensures |order| == |ms|
  {
    AddressCount(ms);
    AddressCount(order);
    forall i | 0 <= i < |ms| ensures ms[i].address in AddressesOf(order) {
      assert ms[i] in order;
    }
    forall i | 0 <= i < |order| ensures order[i].address in AddressesOf(ms) {
      assert order[i] in ms;
    }
    assert AddressesOf(ms) == AddressesOf(order);
  }

  /** A search that ends without a result has met nobody to probe. */
  lemma NobodyToProbe(ms: seq<Member>, v: View, me: string, at: int, ahead: seq<string>, order: seq<Member>,
                      shuffled: bool, visited: set<string>)
    requires Searching(ms, v, me, at, ahead, order, shuffled, visited) && |visited| >= |ms|
    ensures AllProbed(v, me) == {}
  {
    AddressCount(ms);
    SubsetBySize(visited, AddressesOf(ms));
  }

  lemma {:induction false} SubsetBySize(a: set<string>, b: set<string>)
    requires a <= b && |a| >= |b|
    ensures a == b
  {
    if x :| x in b && x !in a {
      SmallerSubset(a, b - {x});
    }
  }

  lemma {:induction false} SmallerSubset(a: set<string>, b: set<string>)
    requires a <= b
    ensures |a| <= |b|
  {
    if x :| x in a {
      SmallerSubset(a - {x}, b - {x});
    }
  }

  class MembershipIterator {
    const membership: Membership
    var currentIndex: int
    var currentRound: nat

    constructor (membership: Membership)
      ensures this.membership == membership && currentIndex == -1 && currentRound == 0
    {
      this.membership, currentIndex, currentRound := membership, -1, 0;
    }

    ghost predicate Valid()
      reads this, membership, membership.membersByAddress.Values
    {
      membership.Valid() && currentIndex >= -1
    }

    /** The pingable members still ahead in this pass. */
    ghost function Left(): seq<string>
      reads this, membership, membership.membersByAddress.Values
      requires Valid()
    {
      LeftAt(membership.members, membership.View(), membership.whoami, currentIndex)
    }

    predicate IsPingable(member: Member)
      reads member
    {
      member.address != membership.whoami && IsStatusPingable(member.status)
    }

    lemma PingableIsProbed(m: Member)
      requires membership.Valid() && m in membership.members
      ensures IsPingable(m) <==> Probed(membership.View(), membership.whoami, m.address)
    {
      assert membership.membersByAddress[m.address] == m;
    }

    /** One step of the cursor, reshuffling at the end of a pass. */
    method Advance(order: seq<Member>)
      requires Valid() && Reorders(order, membership.members)
      modifies this`currentIndex, this`currentRound, membership`members
      ensures Valid() && membership.View() == old(membership.View())
      ensures if old(currentIndex) + 1 < |old(membership.members)|
              then currentIndex == old(currentIndex) + 1 && membership.members == old(membership.members)
              else currentIndex == 0 && membership.members == order
      ensures currentRound == old(currentRound) + if old(currentIndex) + 1 < |old(membership.members)| then 0 else 1
    {
      currentIndex := currentIndex + 1;
      if currentIndex >= |membership.members| {
        currentIndex := 0;
        currentRound := currentRound + 1;
        MembershipKept(membership);
        membership.Shuffle(order);
      } else {
        MembershipKept(membership);
      }
    }

    /** What the search of `next` knows when it looks at the next member. */
    ghost predicate Scans(ahead: seq<string>, order: seq<Member>, shuffled: bool, visited: set<string>)
      reads this, membership, membership.membersByAddress.Values
    {
      Valid() && Searching(membership.members, membership.View(), membership.whoami, currentIndex, ahead, order,
        shuffled, visited)
    }

    /** One round of the loop of `next`. */
    method Visit(order: seq<Member>, ghost ahead: seq<string>, ghost shuffled: bool, ghost visited: set<string>)
      returns (member: Member, pingable: bool, ghost again: bool)
      requires Scans(ahead, order, shuffled, visited) && |visited| < |membership.members|
      requires Reorders(order, membership.members)
      modifies this`currentIndex, this`currentRound, membership`members
      ensures Valid() && membership.View() == old(membership.View()) && Reorders(order, membership.members)
      ensures currentIndex < |membership.members| == |old(membership.members)|
      ensures membership.members == old(membership.members) || membership.members == order
      ensures pingable ==> member.address in AllProbed(membership.View(), membership.whoami)
      ensures pingable ==> Goal(ahead, order, membership.View(), membership.whoami) == [member.address] + Left()
      ensures !pingable ==> Scans(ahead, order, again, visited + {member.address})
      ensures !again ==> !shuffled && currentIndex == old(currentIndex) + 1
      ensures again && shuffled ==> currentIndex == old(currentIndex) + 1
    {
      again := shuffled || currentIndex + 1 >= |membership.members|;
      ghost var ms, v, at := membership.members, membership.View(), currentIndex;
      Advance(order);
      VisitStep(ms, v, membership.whoami, at, ahead, order, shuffled, visited, membership.members, currentIndex);
      member := membership.members[currentIndex];
      pingable := IsPingable(member);
      PingableIsProbed(member);
    }

    /** `next`, with `order` the order that a shuffle during the call would give. */
    method Next(order: seq<Member>) returns (member: Member?)
      requires Valid() && Reorders(order, membership.members)
      modifies this, membership`members
      ensures Valid() && membership.View() == old(membership.View())
      ensures membership.members == old(membership.members) || membership.members == order
      ensures member == null <==> AllProbed(membership.View(), membership.whoami) == {}
      ensures member == null <==> forall a :: a in membership.View() && a != membership.whoami ==>
                                                membership.View()[a].status !in {Alive, Suspect}
      ensures member != null ==> var a, v := member.address, membership.View();
                                 a in v && a != membership.whoami && v[a].status in {Alive, Suspect}
      ensures member != null ==>
                [member.address] + Left() == Goal(old(Left()), order, membership.View(), membership.whoami)
    {
      var membersVisited: set<string> := {};
      var maxMembersToVisit := |membership.members|;
      ghost var v, ahead, shuffled := membership.View(), Left(), false;
      ProbedAre(v, membership.whoami);
      SearchStarts(membership.members, membership.membersByAddress, v, membership.whoami, currentIndex, order);
      while |membersVisited| < maxMembersToVisit
        invariant Scans(ahead, order, shuffled, membersVisited) && membership.View() == v
        invariant Reorders(order, membership.members) && |membership.members| == maxMembersToVisit
        invariant membership.members == old(membership.members) || membership.members == order
        decreases if shuffled then 0 else 1,
                  if currentIndex < maxMembersToVisit then maxMembersToVisit - currentIndex else 0
      {
        var visited, pingable;
        visited, pingable, shuffled := Visit(order, ahead, shuffled, membersVisited);
        membersVisited := membersVisited + {visited.address};
        if pingable {
          return visited;
        }
      }
      NobodyToProbe(membership.members, v, membership.whoami, currentIndex, ahead, order, shuffled, membersVisited);
      member := null;
    }
  }

  // ---- fairness ----

  /** A list that names every member of a set once. */
  ghost predicate IsRound(f: seq<string>, ps: set<string>) {
    (forall i, j :: 0 <= i < j < |f| ==> f[i] != f[j]) && forall x :: x in f <==> x in ps
  }

  lemma {:induction false} ProbedInProps(ms: seq<Member>, v: View, me: string)
    requires Distinct(ms)
    ensures var f := ProbedIn(ms, v, me);
            && (forall i, j :: 0 <= i < j < |f| ==> f[i] != f[j])
            && (forall x :: x in f <==> x in AddressesOf(ms) && Probed(v, me, x))
  {
    if ms == [] {
    } else {
      var r := ms[1..];
      ProbedInProps(r, v, me);
      assert AddressesOf(ms) == {ms[0].address} + AddressesOf(r) by {
        forall i | 0 <= i < |r| ensures r[i] == ms[i + 1] {}
        forall i | 1 <= i < |ms| ensures ms[i].address in AddressesOf(r) { assert ms[i] == r[i - 1]; }
      }
      assert ms[0].address !in AddressesOf(r);
    }
  }

  /** Whatever the shuffle, the whole list holds every pingable member once. */
  lemma ListIsRound(ms: seq<Member>, v: View, me: string)
    requires Distinct(ms) && v.Keys == AddressesOf(ms)
    ensures IsRound(ProbedIn(ms, v, me), AllProbed(v, me))
  {
    ProbedInProps(ms, v, me);
  }

  lemma {:induction false} RoundSize(f: seq<string>, ps: set<string>)
    requires IsRound(f, ps)
    ensures |f| == |ps|
  {
    if f != [] {
      var r, x := f[..|f| - 1], f[|f| - 1];
      assert f == r + [x];
      RoundSize(r, ps - {x});
    } else {
      assert ps == {};
    }
  }

  /** What is left of a pass never exceeds the pingable members. */
  lemma LeftFits(ms: seq<Member>, v: View, me: string, at: int)
    requires Distinct(ms) && v.Keys == AddressesOf(ms) && at >= -1
    ensures |LeftAt(ms, v, me, at)| <= |AllProbed(v, me)|
  {
    if at < |ms| {
      var r, f := ms[at + 1..], ProbedIn(ms[at + 1..], v, me);
      assert forall i :: 0 <= i < |r| ==> r[i] == ms[at + 1 + i];
      ProbedInProps(r, v, me);
      var here := (set x | x in f);
      RoundSize(f, here);
      SmallerSubset(here, AllProbed(v, me));
    }
  }

  /** Successive calls of `next` with unchanged membership: `lefts[t]` is what is left of the pass before call
      `t`, `results[t]` what it returns, and `rounds[t]` what the list would hold if it had to shuffle. */
  ghost predicate Calls(lefts: seq<seq<string>>, results: seq<string>, rounds: seq<seq<string>>, ps: set<string>) {
    && |lefts| == |results| + 1 && |rounds| == |results| && |lefts[0]| <= |ps|
    && forall t :: 0 <= t < |results| ==> IsCall(lefts[t], results[t], lefts[t + 1], rounds[t], ps)
  }

  /** One call: the first of what is left, or of a new round, is returned, and the others are left. */
  ghost predicate IsCall(left: seq<string>, result: string, rest: seq<string>, round: seq<string>, ps: set<string>) {
    IsRound(round, ps) && [result] + rest == if left != [] then left else round
  }

  lemma {:induction false} LeftBound(lefts: seq<seq<string>>, results: seq<string>, rounds: seq<seq<string>>,
                                     ps: set<string>, t: nat)
    requires Calls(lefts, results, rounds, ps) && t < |lefts|
    ensures |lefts[t]| <= |ps| && (t > 0 ==> |lefts[t]| < |ps|)
  {
    if t == 0 {
    } else {
      LeftBound(lefts, results, rounds, ps, t - 1);
      assert IsCall(lefts[t - 1], results[t - 1], lefts[t], rounds[t - 1], ps);
      RoundSize(rounds[t - 1], ps);
      assert |[results[t - 1]] + lefts[t]| == 1 + |lefts[t]|;
    }
  }

  /** The rest of a pass is returned in order. */
  lemma {:induction false} Drain(lefts: seq<seq<string>>, results: seq<string>, rounds: seq<seq<string>>,
                                 ps: set<string>, t: nat)
    requires Calls(lefts, results, rounds, ps) && t < |lefts| && t + |lefts[t]| <= |results|
    ensures results[t..t + |lefts[t]|] == lefts[t] && lefts[t + |lefts[t]|] == []
    decreases |results| - t
  {
    var l := lefts[t];
    if l == [] {
    } else {
      assert l[1..] == lefts[t + 1] by {
        assert ([results[t]] + lefts[t + 1])[1..] == lefts[t + 1];
      }
      Drain(lefts, results, rounds, ps, t + 1);
      assert results[t..t + |l|] == [results[t]] + results[t + 1..t + |l|];
    }
  }

  /** Each pass returns every pingable member exactly once, in the order of its shuffle. */
  lemma PassVisitsAll(lefts: seq<seq<string>>, results: seq<string>, rounds: seq<seq<string>>, ps: set<string>, t: nat)
    requires Calls(lefts, results, rounds, ps) && t + |ps| <= |results| && lefts[t] == [] && ps != {}
    ensures results[t..t + |ps|] == rounds[t] && IsRound(results[t..t + |ps|], ps) && lefts[t + |ps|] == []
  {
    assert IsCall(lefts[t], results[t], lefts[t + 1], rounds[t], ps);
    RoundSize(rounds[t], ps);
    assert ([results[t]] + lefts[t + 1])[1..] == lefts[t + 1];
    Drain(lefts, results, rounds, ps, t + 1);
    assert results[t..t + |ps|] == [results[t]] + results[t + 1..t + |ps|];
  }

  /** Probe fairness: after any call, every pingable member is returned within the next 2P - 1 calls. */
  lemma Recurs(lefts: seq<seq<string>>, results: seq<string>, rounds: seq<seq<string>>, ps: set<string>, t: nat,
               p: string)
    requires Calls(lefts, results, rounds, ps) && p in ps && 0 < t && t + 2 * |ps| - 1 <= |results|
    ensures p in results[t..t + 2 * |ps| - 1]
  {
    LeftBound(lefts, results, rounds, ps, t);
    Drain(lefts, results, rounds, ps, t);
    var u := t + |lefts[t]|;
    PassVisitsAll(lefts, results, rounds, ps, u);
    var i :| 0 <= i < |ps| && results[u..u + |ps|][i] == p;
    assert results[t..t + 2 * |ps| - 1][u - t + i] == p;
  }

  // ---- successive calls ----

  lemma ReordersTrans(a: seq<Member>, b: seq<Member>, ms: seq<Member>)
    requires Reorders(a, ms) && Reorders(b, ms)
    ensures Reorders(a, b)
  {
    forall i | 0 <= i < |a| ensures a[i] in b {
      assert a[i] in ms;
      var k :| 0 <= k < |ms| && ms[k] == a[i];
    }
    forall i | 0 <= i < |b| ensures b[i] in a {
      assert b[i] in ms;
      var k :| 0 <= k < |ms| && ms[k] == b[i];
    }
  }

  lemma SameAddresses(ms: seq<Member>, idx: map<string, Member>, v: View)
    requires Agree(ms, idx) && v.Keys == idx.Keys
    ensures v.Keys == AddressesOf(ms)
  {
    forall a | a in v ensures a in AddressesOf(ms) {
      assert idx[a] in ms;
    }
  }

  /** The pingable members in the order of a shuffle are a round. */
  lemma OrderIsRound(order: seq<Member>, ms: seq<Member>, v: View, me: string)
    requires Reorders(order, ms) && v.Keys == AddressesOf(ms)
    ensures IsRound(ProbedIn(order, v, me), AllProbed(v, me))
  {
    forall i | 0 <= i < |ms| ensures ms[i].address in AddressesOf(order) {
      assert ms[i] in order;
    }
    forall i | 0 <= i < |order| ensures order[i].address in AddressesOf(ms) {
      assert order[i] in ms;
    }
    ListIsRound(order, v, me);
  }

  lemma CallsSnoc(lefts: seq<seq<string>>, results: seq<string>, rounds: seq<seq<string>>, ps: set<string>,
                  left: seq<string>, result: string, round: seq<string>)
    requires Calls(lefts, results, rounds, ps) && IsCall(lefts[|results|], result, left, round, ps)
    ensures Calls(lefts + [left], results + [result], rounds + [round], ps)
  {
    var ls, rs, os := lefts + [left], results + [result], rounds + [round];
    forall t | 0 <= t < |rs| ensures IsCall(ls[t], rs[t], ls[t + 1], os[t], ps) {
      if t < |results| {
        assert IsCall(lefts[t], results[t], lefts[t + 1], rounds[t], ps);
      }
    }
    assert ls[0] == lefts[0];
  }

  ghost predicate OrdersOf(orders: seq<seq<Member>>, ms: seq<Member>) {
    forall i :: 0 <= i < |orders| ==> Reorders(orders[i], ms)
  }

  /** The orders that are still to come stay orders of the list, shuffled or not. */
  lemma OrdersStay(orders: seq<seq<Member>>, was: seq<Member>, order: seq<Member>, ms: seq<Member>)
    requires OrdersOf(orders, was) && Reorders(order, was) && (ms == was || ms == order)
    ensures OrdersOf(orders, ms)
  {
    forall i | 0 <= i < |orders| ensures Reorders(orders[i], ms) {
      ReordersTrans(orders[i], order, was);
    }
  }

  /** Every pingable member is among the 2P - 1 results from `t` on. */
  ghost predicate AllWithin(results: seq<string>, t: int, ps: set<string>) {
    0 <= t && t + 2 * |ps| - 1 <= |results| && forall p :: p in ps ==> 0 < |ps| && p in results[t..t + 2 * |ps| - 1]
  }

  ghost predicate Fair(results: seq<string>, ps: set<string>) {
    forall t :: 0 < t <= |results| - (2 * |ps| - 1) ==> AllWithin(results, t, ps)
  }

  lemma CallsAreFair(lefts: seq<seq<string>>, results: seq<string>, rounds: seq<seq<string>>, ps: set<string>)
    requires Calls(lefts, results, rounds, ps)
    ensures Fair(results, ps)
  {
    forall t | 0 < t <= |results| - (2 * |ps| - 1) ensures AllWithin(results, t, ps) {
      forall p | p in ps ensures 0 < |ps| && p in results[t..t + 2 * |ps| - 1] {
        Recurs(lefts, results, rounds, ps, t, p);
      }
    }
  }

  lemma LeftIsBounded(iter: MembershipIterator)
    requires iter.Valid()
    ensures Calls([iter.Left()], [], [], AllProbed(iter.membership.View(), iter.membership.whoami))
  {
    var m := iter.membership;
    SameAddresses(m.members, m.membersByAddress, m.View());
    LeftFits(m.members, m.View(), m.whoami, iter.currentIndex);
  }

  /** One call of `next` as an element of a series of calls. */
  method CallOnce(iter: MembershipIterator, order: seq<Member>) returns (address: string, ghost round: seq<string>)
    requires iter.Valid() && Reorders(order, iter.membership.members)
    requires AllProbed(iter.membership.View(), iter.membership.whoami) != {}
    modifies iter, iter.membership`members
    ensures iter.Valid() && iter.membership.View() == old(iter.membership.View())
    ensures iter.membership.members == old(iter.membership.members) || iter.membership.members == order
    ensures IsRound(round, AllProbed(iter.membership.View(), iter.membership.whoami))
    ensures [address] + iter.Left() == if old(iter.Left()) != [] then old(iter.Left()) else round
  {
    ghost var m := iter.membership;
    SameAddresses(m.members, m.membersByAddress, m.View());
    OrderIsRound(order, m.members, m.View(), m.whoami);
    round := ProbedIn(order, m.View(), m.whoami);
    var member := iter.Next(order);
    address := member.address;
  }

  /** Successive calls of `next` with unchanged membership, one for each of `orders`, are such a series. Hence every
      pass returns each pingable member once, and each recurs within any 2P - 1 calls. */
  method CallRepeatedly(iter: MembershipIterator, orders: seq<seq<Member>>)
    returns (results: seq<string>, ghost lefts: seq<seq<string>>, ghost rounds: seq<seq<string>>)
    requires iter.Valid() && AllProbed(iter.membership.View(), iter.membership.whoami) != {}
    requires OrdersOf(orders, iter.membership.members)
    modifies iter, iter.membership`members
    ensures iter.Valid() && iter.membership.View() == old(iter.membership.View()) && |results| == |orders|
    ensures Calls(lefts, results, rounds, AllProbed(iter.membership.View(), iter.membership.whoami))
    ensures lefts[0] == old(iter.Left()) && lefts[|results|] == iter.Left()
    ensures Fair(results, AllProbed(iter.membership.View(), iter.membership.whoami))
  {
    ghost var v := iter.membership.View();
    ghost var ps := AllProbed(v, iter.membership.whoami);
    LeftIsBounded(iter);
    results, lefts, rounds := [], [iter.Left()], [];
    for i := 0 to |orders|
      invariant iter.Valid() && iter.membership.View() == v && OrdersOf(orders, iter.membership.members)
      invariant |results| == i && Calls(lefts, results, rounds, ps)
      invariant lefts[0] == old(iter.Left()) && lefts[i] == iter.Left()
    {
      ghost var was := iter.membership.members;
      var address;
      ghost var round;
      address, round := CallOnce(iter, orders[i]);
      assert OrdersOf(orders, iter.membership.members) by {
        OrdersStay(orders, was, orders[i], iter.membership.members);
      }
      ghost var left := iter.Left();
      CallsSnoc(lefts, results, rounds, ps, left, address, round);
      results, lefts, rounds := results + [address], lefts + [left], rounds + [round];
    }
    CallsAreFair(lefts, results, rounds, ps);
  }
}
