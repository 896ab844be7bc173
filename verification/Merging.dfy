/** Merging change sets (lib/membership/merge.js:23-52) and join responses
    (lib/gossip/join-response-merge.js:25-57). */
module Merging {
  import opened Wrappers
  import opened Members

  type Index = map<string, Change>

  /** One change against the index: only a strictly higher incarnation replaces an entry. */
  function MergeOne(idx: Index, me: string, c: Change): Index {
    if c.address == me then idx
    else if c.address !in idx || idx[c.address].incarnation < c.incarnation then idx[c.address := c]
    else idx
  }

  function MergeChanges(idx: Index, me: string, changes: seq<Change>): Index {
    if changes == [] then idx
    else MergeOne(MergeChanges(idx, me, changes[..|changes| - 1]), me, changes[|changes| - 1])
  }

  function MergeSets(me: string, sets: seq<seq<Change>>): Index {
    if sets == [] then map[]
    else MergeChanges(MergeSets(me, sets[..|sets| - 1]), me, sets[|sets| - 1])
  }

  ghost predicate DistinctAddresses(changes: seq<Change>) {
    forall i, j :: 0 <= i < j < |changes| ==> changes[i].address != changes[j].address
  }

  /** The list holds each entry of the index once. */
  ghost predicate Lists(updates: seq<Change>, idx: Index) {
    && DistinctAddresses(updates)
    && (forall i :: 0 <= i < |updates| ==> updates[i].address in idx && updates[i] == idx[updates[i].address])
    && (forall a :: a in idx ==> exists i :: 0 <= i < |updates| && updates[i].address == a)
  }

  /** Entries sit under their own address, and none is about the local member. */
  ghost predicate Keyed(idx: Index, me: string) {
    forall a :: a in idx ==> idx[a].address == a && a != me
  }

  lemma {:induction false} MergeChangesKeyed(idx: Index, me: string, changes: seq<Change>)
    requires Keyed(idx, me)
    ensures Keyed(MergeChanges(idx, me, changes), me)
  {
    if changes != [] { MergeChangesKeyed(idx, me, changes[..|changes| - 1]); }
  }

  lemma {:induction false} MergeSetsKeyed(me: string, sets: seq<seq<Change>>)
    ensures Keyed(MergeSets(me, sets), me)
  {
    if sets == [] {
    } else {
      MergeSetsKeyed(me, sets[..|sets| - 1]);
      MergeChangesKeyed(MergeSets(me, sets[..|sets| - 1]), me, sets[|sets| - 1]);
    }
  }

  /** Every entry of the index comes from one of the lists. */
  ghost predicate ComesFrom(sets: seq<seq<Change>>, c: Change) {
    exists i :: 0 <= i < |sets| && c in sets[i]
  }

  lemma {:induction false} MergeOnlyRepeats(idx: Index, me: string, changes: seq<Change>, a: string)
    requires a in MergeChanges(idx, me, changes)
    ensures MergeChanges(idx, me, changes)[a] in changes || (a in idx && MergeChanges(idx, me, changes)[a] == idx[a])
  {
    if changes != [] && a in MergeChanges(idx, me, changes[..|changes| - 1]) {
      MergeOnlyRepeats(idx, me, changes[..|changes| - 1], a);
    }
  }

  lemma {:induction false} MergeSetsRepeat(me: string, sets: seq<seq<Change>>, a: string)
    requires a in MergeSets(me, sets)
    ensures ComesFrom(sets, MergeSets(me, sets)[a])
  {
    var n := |sets| - 1;
    MergeOnlyRepeats(MergeSets(me, sets[..n]), me, sets[n], a);
    if MergeSets(me, sets)[a] !in sets[n] {
      MergeSetsRepeat(me, sets[..n], a);
      var i :| 0 <= i < n && MergeSets(me, sets)[a] in sets[..n][i];
      assert sets[i] == sets[..n][i];
    }
  }

  // ---- which change wins ----

  /** The `i`-th of all changes wins: it is about a remote address, none about that address is newer, and none of its
      incarnation comes before it. */
  ghost predicate Wins(all: seq<Change>, i: int, me: string) {
    && 0 <= i < |all| && all[i].address != me
    && forall j :: 0 <= j < |all| && all[j].address == all[i].address ==>
         all[j].incarnation <= all[i].incarnation && (j < i ==> all[j].incarnation < all[i].incarnation)
  }

  ghost predicate Winner(all: seq<Change>, me: string, c: Change) {
    exists i :: Wins(all, i, me) && all[i] == c
  }

  ghost predicate Named(all: seq<Change>, a: string) {
    exists j :: 0 <= j < |all| && all[j].address == a
  }

  /** An index holds the winners: an entry for exactly the remote addresses that are named. */
  ghost predicate HoldsWinners(idx: Index, all: seq<Change>, me: string) {
    forall a ::
      && (a in idx <==> a != me && Named(all, a))
      && (a in idx ==> Winner(all, me, idx[a]) && idx[a].address == a)
  }

  lemma WinsSnoc(all: seq<Change>, c: Change, i: int, me: string)
    requires Wins(all, i, me) && (c.address == all[i].address ==> c.incarnation <= all[i].incarnation)
    ensures Wins(all + [c], i, me) && (all + [c])[i] == all[i]
  {
  }

  lemma NewestWins(all: seq<Change>, c: Change, me: string)
    requires c.address != me
    requires forall j :: 0 <= j < |all| && all[j].address == c.address ==> all[j].incarnation < c.incarnation
    ensures Wins(all + [c], |all|, me)
  {
  }

  lemma WinnersSnoc(idx: Index, all: seq<Change>, c: Change, me: string)
    requires HoldsWinners(idx, all, me)
    ensures HoldsWinners(MergeOne(idx, me, c), all + [c], me)
  {
    var r, l := MergeOne(idx, me, c), all + [c];
    forall a ensures Named(l, a) <==> Named(all, a) || a == c.address {
      NamedSnoc(all, c, a);
    }
    forall a | a in r ensures Winner(l, me, r[a]) && r[a].address == a {
      if a in idx && (a != c.address || c.incarnation <= idx[a].incarnation) {
        var i :| Wins(all, i, me) && all[i] == idx[a];
        WinsSnoc(all, c, i, me);
      } else {
        if a in idx {
          var i :| Wins(all, i, me) && all[i] == idx[a];
        }
        forall j | 0 <= j < |all| && all[j].address == a ensures all[j].incarnation < c.incarnation {
          assert Named(all, a);
        }
        NewestWins(all, c, me);
      }
    }
  }

  lemma NamedSnoc(all: seq<Change>, c: Change, a: string)
    ensures Named(all + [c], a) <==> Named(all, a) || a == c.address
  {
    var l := all + [c];
    assert l[|all|] == c;
    if j :| 0 <= j < |all| && all[j].address == a {
      assert l[j].address == a;
    }
  }

  lemma {:induction false} WinnersOfChanges(idx: Index, all: seq<Change>, changes: seq<Change>, me: string)
    requires HoldsWinners(idx, all, me)
    ensures HoldsWinners(MergeChanges(idx, me, changes), all + changes, me)
  {
    if changes == [] {
      assert all + changes == all;
    } else {
      var n := |changes| - 1;
      WinnersOfChanges(idx, all, changes[..n], me);
      WinnersSnoc(MergeChanges(idx, me, changes[..n]), all + changes[..n], changes[n], me);
      assert all + changes == all + changes[..n] + [changes[n]];
    }
  }

  /** The merged index holds the winners among all changes of all lists. */
  lemma {:induction false} WinnersOfSets(me: string, sets: seq<seq<Change>>)
    ensures HoldsWinners(MergeSets(me, sets), Flatten(sets), me)
  {
    if sets == [] {
    } else {
      var n := |sets| - 1;
      WinnersOfSets(me, sets[..n]);
      WinnersOfChanges(MergeSets(me, sets[..n]), Flatten(sets[..n]), sets[n], me);
      FlattenSnoc(sets);
    }
  }

  lemma {:induction false} FlattenSnoc(sets: seq<seq<Change>>)
    requires sets != []
    ensures Flatten(sets) == Flatten(sets[..|sets| - 1]) + sets[|sets| - 1]
  {
    if |sets| == 1 {
      assert sets[1..] == [];
    } else {
      FlattenSnoc(sets[1..]);
      assert sets[1..][..|sets| - 2] == sets[..|sets| - 1][1..];
    }
  }

  /** A merged list: one winner for each remote address that is named, and nothing else. */
  ghost predicate ListsWinners(updates: seq<Change>, all: seq<Change>, me: string) {
    && DistinctAddresses(updates)
    && (forall k :: 0 <= k < |updates| ==> Winner(all, me, updates[k]))
    && (forall a :: a != me && Named(all, a) ==> Named(updates, a))
  }

  lemma ListedWinners(updates: seq<Change>, me: string, sets: seq<seq<Change>>)
    requires Lists(updates, MergeSets(me, sets))
    ensures ListsWinners(updates, Flatten(sets), me)
  {
    var all, idx := Flatten(sets), MergeSets(me, sets);
    WinnersOfSets(me, sets);
    forall k | 0 <= k < |updates| ensures Winner(all, me, updates[k]) {
      assert updates[k].address in idx;
    }
    forall a | a != me && Named(all, a) ensures Named(updates, a) {
      assert a in idx;
    }
  }

  lemma OneWinner(all: seq<Change>, me: string, c: Change, d: Change)
    requires Winner(all, me, c) && Winner(all, me, d) && c.address == d.address
    ensures c == d
  {
    var i :| Wins(all, i, me) && all[i] == c;
    var j :| Wins(all, j, me) && all[j] == d;
    assert !(i < j) && !(j < i);
  }

  /** What `set()` makes of the winners: a live one becomes the entry of its address. */
  lemma WinnerIsSet(me: string, v: View, sets: seq<seq<Change>>, updates: seq<Change>, c: Change)
    requires Lists(updates, MergeSets(me, sets)) && Winner(Flatten(sets), me, c)
    ensures Find(v + Live(updates), c.address) == if c.status.Tombstone? then Find(v, c.address) else Some(StateOf(c))
  {
    var all := Flatten(sets);
    ListedWinners(updates, me, sets);
    assert Named(all, c.address) && c.address != me;
    var k :| 0 <= k < |updates| && updates[k].address == c.address;
    OneWinner(all, me, c, updates[k]);
    LiveAt(updates, k);
  }

  /** Nobody else gets an entry. */
  lemma OthersAreKept(me: string, v: View, sets: seq<seq<Change>>, updates: seq<Change>, a: string)
    requires Lists(updates, MergeSets(me, sets)) && (a == me || !Named(Flatten(sets), a))
    ensures Find(v + Live(updates), a) == Find(v, a)
  {
    WinnersOfSets(me, sets);
    assert a !in MergeSets(me, sets);
  }

  /** The entries `w` after `set()`, from those before and all stashed changes: every live winner has its state, and
      nothing else has changed. */
  ghost predicate SetFrom(v: View, w: View, me: string, all: seq<Change>) {
    && (forall c :: Winner(all, me, c) ==> Find(w, c.address) == if c.status.Tombstone? then Find(v, c.address)
                                                                else Some(StateOf(c)))
    && (forall a :: a == me || !Named(all, a) ==> Find(w, a) == Find(v, a))
  }

  lemma SetEntries(me: string, v: View, sets: seq<seq<Change>>, updates: seq<Change>)
    requires Lists(updates, MergeSets(me, sets))
    ensures SetFrom(v, v + Live(updates), me, Flatten(sets))
  {
    forall c | Winner(Flatten(sets), me, c)
      ensures Find(v + Live(updates), c.address) == if c.status.Tombstone? then Find(v, c.address) else Some(StateOf(c))
    {
      WinnerIsSet(me, v, sets, updates, c);
    }
    forall a | a == me || !Named(Flatten(sets), a) ensures Find(v + Live(updates), a) == Find(v, a) {
      OthersAreKept(me, v, sets, updates, a);
    }
  }

  /** `mergeMembershipChangesets`. */
  method MergeMembershipChangesets(me: string, changesets: seq<seq<Change>>) returns (updates: seq<Change>)
    ensures Lists(updates, MergeSets(me, changesets))
    ensures ListsWinners(updates, Flatten(changesets), me)
  {
    var mergeIndex: Index := map[];
    for i := 0 to |changesets|
      invariant mergeIndex == MergeSets(me, changesets[..i])
    {
      var changes := changesets[i];
      ghost var before := mergeIndex;
      for j := 0 to |changes|
        invariant mergeIndex == MergeChanges(before, me, changes[..j])
      {
        var change := changes[j];
        assert changes[..j + 1][..j] == changes[..j];
        if change.address == me {
          continue;
        }
        if change.address !in mergeIndex || mergeIndex[change.address].incarnation < change.incarnation {
          mergeIndex := mergeIndex[change.address := change];
        }
      }
      assert changes[..|changes|] == changes;
      assert changesets[..i + 1][..i] == changesets[..i];
    }
    assert changesets[..|changesets|] == changesets;
    MergeSetsKeyed(me, changesets);
    updates := ValuesOf(mergeIndex);
    ListedWinners(updates, me, changesets);
  }

  /** The values of the index, in the order its keys are visited. */
  method ValuesOf(idx: Index) returns (updates: seq<Change>)
    requires forall a :: a in idx ==> idx[a].address == a
    ensures Lists(updates, idx)
  {
    updates := [];
    var indexKeys := idx.Keys;
    while indexKeys != {}
      invariant indexKeys <= idx.Keys && DistinctAddresses(updates)
      invariant forall i :: 0 <= i < |updates| ==>
                  updates[i].address in idx.Keys - indexKeys && updates[i] == idx[updates[i].address]
      invariant forall a :: a in idx && a !in indexKeys ==> exists i :: 0 <= i < |updates| && updates[i].address == a
      decreases indexKeys
    {
      var a :| a in indexKeys;
      ghost var was := updates;
      updates := updates + [idx[a]];
      assert updates[|was|].address == a;
      forall b | b in idx && b !in indexKeys ensures exists i :: 0 <= i < |updates| && updates[i].address == b {
        var i :| 0 <= i < |was| && was[i].address == b;
        assert updates[i].address == b;
      }
      indexKeys := indexKeys - {a};
    }
  }

  // ---- join responses ----

  datatype JoinResponse = JoinResponse(checksum: Option<nat>, members: seq<Change>)

  ghost predicate SameChecksums(rs: seq<JoinResponse>) {
    forall i, j :: 0 <= i < |rs| && 0 <= j < |rs| ==>
      rs[i].checksum.Some? && rs[i].checksum.value != 0 && rs[i].checksum == rs[j].checksum
  }

  method HasSameChecksums(joinResponses: seq<JoinResponse>) returns (same: bool)
    ensures same <==> SameChecksums(joinResponses)
  {
    var lastChecksum: int := -1;
    for i := 0 to |joinResponses|
      invariant SameChecksums(joinResponses[..i])
      invariant lastChecksum == if i == 0 then -1 else joinResponses[0].checksum.value
      invariant i > 0 ==> joinResponses[0].checksum.Some?
    {
      var response := joinResponses[i];
      assert joinResponses[i] in joinResponses;
      if response.checksum.None? || response.checksum.value == 0
         || (lastChecksum != -1 && lastChecksum != response.checksum.value) {
        return false;
      }
      lastChecksum := response.checksum.value;
    }
    assert joinResponses[..|joinResponses|] == joinResponses;
    same := true;
  }

  function MembersOf(rs: seq<JoinResponse>): (ms: seq<seq<Change>>)
    ensures |ms| == |rs| && forall i :: 0 <= i < |rs| ==> ms[i] == rs[i].members
  {
    seq(|rs|, i requires 0 <= i < |rs| => rs[i].members)
  }

  /** Nothing, the first of several responses with equal checksums, or the merge of all responses. */
  ghost predicate Joined(me: string, rs: seq<JoinResponse>, updates: seq<Change>) {
    && (rs == [] ==> updates == [])
    && (rs != [] && SameChecksums(rs) ==> updates == rs[0].members)
    && (!SameChecksums(rs) ==> Lists(updates, MergeSets(me, MembersOf(rs))))
  }

  method MergeJoinResponses(me: string, joinResponses: seq<JoinResponse>) returns (updates: seq<Change>)
    ensures Joined(me, joinResponses, updates)
    ensures joinResponses == [] ==> updates == []
    ensures joinResponses != [] && SameChecksums(joinResponses) ==> updates == joinResponses[0].members
    ensures (exists i, j :: 0 <= i < |joinResponses| && 0 <= j < |joinResponses|
                            && (joinResponses[i].checksum in {None, Some(0)}
                                || joinResponses[i].checksum != joinResponses[j].checksum)) ==>
              ListsWinners(updates, Flatten(MembersOf(joinResponses)), me)
  {
    if joinResponses == [] {
      return [];
    }
    var same := HasSameChecksums(joinResponses);
    if same {
      return joinResponses[0].members;
    }
    updates := MergeMembershipChangesets(me, MembersOf(joinResponses));
  }

  /** The non-tombstone entries of a membership list. */
  ghost function Live(changes: seq<Change>): map<string, State>
    requires DistinctAddresses(changes)
  {
    map i | 0 <= i < |changes| && !changes[i].status.Tombstone? :: changes[i].address := StateOf(changes[i])
  }

  lemma LiveSnoc(changes: seq<Change>, i: nat)
    requires DistinctAddresses(changes) && i < |changes|
    ensures DistinctAddresses(changes[..i]) && DistinctAddresses(changes[..i + 1])
    ensures changes[i].address !in Live(changes[..i])
    ensures Live(changes[..i + 1]) == if changes[i].status.Tombstone? then Live(changes[..i])
                                      else Live(changes[..i])[changes[i].address := StateOf(changes[i])]
  {
    var c, d := changes[..i], changes[..i + 1];
    forall k | 0 <= k < i ensures d[k] == c[k] {}
    assert d[i] == changes[i];
  }

  /** What `set()` makes of an index: tombstones create no member. */
  ghost function LiveOf(idx: Index): map<string, State> {
    map a | a in idx && !idx[a].status.Tombstone? :: StateOf(idx[a])
  }

  /** Every entry of the index is as in `live`, or a tombstone for an address outside it. */
  ghost predicate Within(idx: Index, live: map<string, State>) {
    forall a :: a in idx ==> if a in live then StateOf(idx[a]) == live[a] else idx[a].status.Tombstone?
  }

  lemma LiveAt(changes: seq<Change>, i: nat)
    requires DistinctAddresses(changes) && i < |changes|
    ensures var c := changes[i];
            if c.status.Tombstone? then c.address !in Live(changes)
            else c.address in Live(changes) && Live(changes)[c.address] == StateOf(c)
  {
  }

  lemma MergeOneWithin(idx: Index, me: string, c: Change, live: map<string, State>)
    requires Within(idx, live)
    requires if c.status.Tombstone? then c.address !in live else c.address in live && live[c.address] == StateOf(c)
    ensures Within(MergeOne(idx, me, c), live) && (c.address != me ==> c.address in MergeOne(idx, me, c))
    ensures forall a :: a in idx ==> a in MergeOne(idx, me, c)
  {
  }

  lemma {:induction false} MergeWithin(idx: Index, me: string, all: seq<Change>, k: nat)
    requires DistinctAddresses(all) && k <= |all| && Within(idx, Live(all))
    ensures Within(MergeChanges(idx, me, all[..k]), Live(all))
    ensures forall i :: 0 <= i < k && all[i].address != me ==> all[i].address in MergeChanges(idx, me, all[..k])
    ensures forall a :: a in idx ==> a in MergeChanges(idx, me, all[..k])
  {
    if k == 0 {
    } else {
      var before, live := MergeChanges(idx, me, all[..k - 1]), Live(all);
      MergeWithin(idx, me, all, k - 1);
      assert all[..k][..k - 1] == all[..k - 1];
      LiveAt(all, k - 1);
      MergeOneWithin(before, me, all[k - 1], live);
    }
  }

  /** Lists with the same non-tombstone entries merge to exactly these entries. */
  lemma {:induction false} MergeSetsLive(me: string, sets: seq<seq<Change>>, live: map<string, State>)
    requires sets != []
    requires forall i :: 0 <= i < |sets| ==> DistinctAddresses(sets[i]) && Live(sets[i]) == live
    ensures Within(MergeSets(me, sets), live)
    ensures forall a :: a in live && a != me ==> a in MergeSets(me, sets)
  {
    var n := |sets| - 1;
    var before, last := MergeSets(me, sets[..n]), sets[n];
    if n > 0 {
      MergeSetsLive(me, sets[..n], live);
    }
    MergeWithin(before, me, last, |last|);
    assert last[..|last|] == last;
    if n == 0 {
      forall a | a in live && a != me ensures a in MergeSets(me, sets) {
        var i :| 0 <= i < |last| && !last[i].status.Tombstone? && last[i].address == a;
      }
    }
  }

  ghost predicate Listed(updates: seq<Change>, k: nat, a: string) {
    exists i :: 0 <= i < k && i < |updates| && updates[i].address == a
  }

  lemma ListedStep(updates: seq<Change>, k: nat, a: string)
    requires 0 < k <= |updates|
    ensures Listed(updates, k, a) <==> Listed(updates, k - 1, a) || a == updates[k - 1].address
  {
  }

  lemma {:induction false} MergeListedAt(me: string, updates: seq<Change>, idx: Index, k: nat, a: string)
    requires Keyed(idx, me) && DistinctAddresses(updates) && k <= |updates|
    requires forall i :: 0 <= i < |updates| ==> updates[i].address in idx && updates[i] == idx[updates[i].address]
    ensures var r := MergeChanges(map[], me, updates[..k]);
            (a in r <==> Listed(updates, k, a)) && (a in r ==> a in idx && r[a] == idx[a])
  {
    if k == 0 {
    } else {
      var c := updates[k - 1];
      MergeListedAt(me, updates, idx, k - 1, a);
      MergeListedAt(me, updates, idx, k - 1, c.address);
      assert updates[..k][..k - 1] == updates[..k - 1];
      assert !Listed(updates, k - 1, c.address);
      ListedStep(updates, k, a);
    }
  }

  /** Merging a listing of an index gives that index back. */
  lemma MergeListing(me: string, updates: seq<Change>, idx: Index)
    requires Keyed(idx, me) && Lists(updates, idx)
    ensures MergeSets(me, [updates]) == idx
  {
    assert updates[..|updates|] == updates && [updates][..0] == [];
    var r := MergeChanges(map[], me, updates);
    forall a ensures (a in r <==> a in idx) && (a in r ==> r[a] == idx[a]) {
      MergeListedAt(me, updates, idx, |updates|, a);
    }
  }

  lemma LiveOfListing(me: string, updates: seq<Change>, idx: Index)
    requires Keyed(idx, me) && Lists(updates, idx)
    ensures Live(updates) == LiveOf(idx) && forall c :: c in updates ==> c.address != me
  {
  }

  lemma LiveExactly(me: string, sets: seq<seq<Change>>, live: map<string, State>)
    requires sets != []
    requires forall i :: 0 <= i < |sets| ==> DistinctAddresses(sets[i]) && Live(sets[i]) == live
    ensures LiveOf(MergeSets(me, sets)) == live - {me}
  {
    MergeSetsLive(me, sets, live);
    MergeSetsKeyed(me, sets);
    forall a ensures a in live ==> !live[a].status.Tombstone? {
      LiveIsLive(sets[0], a);
    }
    WithinIsLive(MergeSets(me, sets), live, me);
  }

  lemma WithinIsLive(idx: Index, live: map<string, State>, me: string)
    requires Within(idx, live) && Keyed(idx, me)
    requires forall a :: a in live ==> !live[a].status.Tombstone? && (a != me ==> a in idx)
    ensures LiveOf(idx) == live - {me}
  {
  }

  lemma LiveIsLive(changes: seq<Change>, a: string)
    requires DistinctAddresses(changes)
    ensures a in Live(changes) ==> !Live(changes)[a].status.Tombstone?
  {
  }

  /** The index of the stash is the same with the shortcut as without it, as far as members come of it, provided
      equal checksums mean equal non-tombstone entries. */
  lemma ShortcutIndex(me: string, rs: seq<JoinResponse>, merged: seq<Change>)
    requires rs != [] && SameChecksums(rs) && Lists(merged, MergeSets(me, MembersOf(rs)))
    requires forall i :: 0 <= i < |rs| ==> DistinctAddresses(rs[i].members)
    requires forall i, j :: 0 <= i < |rs| && 0 <= j < |rs| && rs[i].checksum == rs[j].checksum ==>
               Live(rs[i].members) == Live(rs[j].members)
    ensures LiveOf(MergeSets(me, [rs[0].members])) == LiveOf(MergeSets(me, [merged]))
    ensures LiveOf(MergeSets(me, [merged])) == Live(rs[0].members) - {me}
  {
    var live := Live(rs[0].members);
    LiveExactly(me, MembersOf(rs), live);
    LiveExactly(me, [rs[0].members], live);
    MergeSetsKeyed(me, MembersOf(rs));
    MergeListing(me, merged, MergeSets(me, MembersOf(rs)));
  }

  /** The shortcut is right: whatever `set()` makes of a stash with the first of several join responses with equal
      checksums (`u1`), and of one with the merge of all of them (`u2`), the node ends with the same entries,
      namely those it had and the live ones of the responses. */
  lemma JoinShortcut(me: string, v: View, rs: seq<JoinResponse>, merged: seq<Change>, u1: seq<Change>, u2: seq<Change>)
    requires rs != [] && SameChecksums(rs) && Lists(merged, MergeSets(me, MembersOf(rs)))
    requires forall i :: 0 <= i < |rs| ==> DistinctAddresses(rs[i].members)
    requires forall i, j :: 0 <= i < |rs| && 0 <= j < |rs| && rs[i].checksum == rs[j].checksum ==>
               Live(rs[i].members) == Live(rs[j].members)
    requires Lists(u1, MergeSets(me, [rs[0].members])) && Lists(u2, MergeSets(me, [merged]))
    ensures v + Live(u1) == v + Live(u2) == v + (Live(rs[0].members) - {me})
  {
    ShortcutIndex(me, rs, merged);
    MergeSetsKeyed(me, [rs[0].members]);
    MergeSetsKeyed(me, [merged]);
    LiveOfListing(me, u1, MergeSets(me, [rs[0].members]));
    LiveOfListing(me, u2, MergeSets(me, [merged]));
  }
}
