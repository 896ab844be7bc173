/** A node's membership list (lib/membership/index.js). */
module Memberships {
  import opened Wrappers
  import opened Points
  import opened Members
  import opened Checksums
  import Names
  import opened Merging

  class Member {
    const address: string
    var status: Status
    var incarnation: int

    constructor (c: Change)
      ensures address == c.address && status == c.status && incarnation == c.incarnation
    {
      address, status, incarnation := c.address, c.status, c.incarnation;
    }

    /** The status and incarnation part of `applyUpdate`. */
    method ApplyUpdate(c: Change)
      modifies this
      ensures status == c.status && incarnation == c.incarnation
    {
      status, incarnation := c.status, c.incarnation;
    }

    function State(): State
      reads this
    {
      Members.State(incarnation, status)
    }
  }

  // ---- list and index ----

  ghost predicate Distinct(ms: seq<Member>) {
    forall i, j :: 0 <= i < j < |ms| ==> ms[i].address != ms[j].address
  }

  /** The index holds exactly the members of the list, each under its address. */
  ghost predicate Agree(ms: seq<Member>, idx: map<string, Member>) {
    && (forall m :: m in ms ==> m.address in idx && idx[m.address] == m)
    && (forall a :: a in idx ==> idx[a] in ms && idx[a].address == a)
  }

  /** The same members in another order. */
  ghost predicate Reorders(order: seq<Member>, ms: seq<Member>) {
    && Distinct(order)
    && (forall i :: 0 <= i < |order| ==> order[i] in ms)
    && (forall i :: 0 <= i < |ms| ==> ms[i] in order)
  }

  lemma ReorderKeeps(ms: seq<Member>, idx: map<string, Member>, order: seq<Member>)
    requires Agree(ms, idx) && Reorders(order, ms)
    ensures Distinct(order) && Agree(order, idx)
  {
    forall a | a in idx ensures idx[a] in order {
      var i :| 0 <= i < |ms| && ms[i] == idx[a];
    }
  }

  lemma InsertedAt(ms: seq<Member>, at: nat, m: Member)
    requires at <= |ms|
    ensures var r := ms[..at] + [m] + ms[at..];
            && (forall i :: 0 <= i < |r| ==> r[i] == if i < at then ms[i] else if i == at then m else ms[i - 1])
            && (forall x :: x in r <==> x == m || x in ms)
  {
  }

  /** A member that was not listed stands at the drawn place, somewhere before the last member of a list that is not
      empty; nobody else has moved. */
  ghost predicate Placed(before: seq<Member>, was: map<string, Member>, a: string, place: nat, after: seq<Member>,
                         now: map<string, Member>) {
    var at := if before == [] then 0 else place % |before|;
    after == if a in now && a !in was then before[..at] + [now[a]] + before[at..] else before
  }

  lemma InsertDistinct(ms: seq<Member>, at: nat, m: Member)
    requires Distinct(ms) && at <= |ms| && forall i :: 0 <= i < |ms| ==> ms[i].address != m.address
    ensures Distinct(ms[..at] + [m] + ms[at..])
  {
    InsertedAt(ms, at, m);
  }

  lemma InsertKeeps(ms: seq<Member>, idx: map<string, Member>, at: nat, m: Member)
    requires Distinct(ms) && Agree(ms, idx) && m.address !in idx && at <= |ms|
    ensures Distinct(ms[..at] + [m] + ms[at..]) && Agree(ms[..at] + [m] + ms[at..], idx[m.address := m])
  {
    InsertedAt(ms, at, m);
    InsertDistinct(ms, at, m);
  }

  /** `_.without(members, m)` */
  function Without(ms: seq<Member>, m: Member): seq<Member> {
    if ms == [] then []
    else
      var r := Without(ms[..|ms| - 1], m);
      if ms[|ms| - 1] == m then r else r + [ms[|ms| - 1]]
  }

  lemma {:induction false} WithoutKeeps(ms: seq<Member>, m: Member)
    requires Distinct(ms)
    ensures Distinct(Without(ms, m))
    ensures forall x :: x in Without(ms, m) ==> x in ms && x != m
    ensures forall x :: x in ms && x != m ==> x in Without(ms, m)
  {
    if ms == [] {
    } else {
      var s, x := ms[..|ms| - 1], ms[|ms| - 1];
      assert forall i :: 0 <= i < |s| ==> s[i] == ms[i];
      WithoutKeeps(s, m);
      assert ms == s + [x];
      var r := Without(s, m);
      forall k | 0 <= k < |r| ensures r[k].address != x.address {
        assert r[k] in r;
      }
    }
  }

  ghost function ViewOf(idx: map<string, Member>): View
    reads idx.Values
  {
    map a | a in idx :: idx[a].State()
  }

  lemma ViewAfterAdding(idx: map<string, Member>, m: Member)
    ensures ViewOf(idx[m.address := m]) == ViewOf(idx)[m.address := m.State()]
  {
  }

  lemma Overwrite(v: View, a: string, s: State, t: State)
    ensures v[a := s][a := t] == v[a := t] && v[a := s][a] == s
  {
  }

  lemma RemoveKeeps(ms: seq<Member>, idx: map<string, Member>, address: string)
    requires Distinct(ms) && Agree(ms, idx) && address in idx
    ensures Distinct(Without(ms, idx[address])) && Agree(Without(ms, idx[address]), idx - {address})
    ensures ViewOf(idx - {address}) == ViewOf(idx) - {address}
  {
    WithoutKeeps(ms, idx[address]);
  }

  class Membership {
    const whoami: string
    const hashFunc: string -> int
    var members: seq<Member>
    var membersByAddress: map<string, Member>
    var checksum: Option<int>
    var localMember: Member?
    var stashedUpdates: Option<seq<seq<Change>>>

    constructor (whoami: string, hashFunc: string -> int)
      ensures Valid() && members == [] && checksum == None && localMember == null && stashedUpdates == Some([])
      ensures this.whoami == whoami && this.hashFunc == hashFunc && View() == map[]
    {
      this.whoami, this.hashFunc := whoami, hashFunc;
      members, membersByAddress, checksum := [], map[], None;
      localMember, stashedUpdates := null, Some([]);
    }

    /** List and address index hold the same members, each address once. */
    ghost predicate Listed()
      reads this`members, this`membersByAddress
    {
      Distinct(members) && Agree(members, membersByAddress)
    }

    /** In addition, the local member is the one with this node's address. */
    ghost predicate Indexed()
      reads this`members, this`membersByAddress, this`localMember
    {
      Listed() && localMember == FindMemberByAddress(whoami)
    }

    /** The entries of the list. */
    ghost function View(): View
      reads this`membersByAddress, membersByAddress.Values
    {
      ViewOf(membersByAddress)
    }

    /** In addition, the checksum, once computed, is that of the current entries. */
    ghost predicate Valid()
      reads this`members, this`membersByAddress, this`localMember, this`checksum, membersByAddress.Values
    {
      && Indexed()
      && (checksum.None? || checksum == Some(hashFunc(ChecksumString(View()))))
      && (checksum.None? ==> View() == map[])
    }

    /** Members are only added to the index `idx`. */
    ghost predicate Grown(idx: map<string, Member>)
      reads this`membersByAddress
    {
      forall a :: a in idx ==> a in membersByAddress && membersByAddress[a] == idx[a]
    }

    function FindMemberByAddress(address: string): Member?
      reads this`membersByAddress
    {
      if address in membersByAddress then membersByAddress[address] else null
    }

    /** A member with its address not yet in the list, put at a position of the list. */
    method AddMember(m: Member, at: nat)
      requires Indexed() && m.address !in membersByAddress && at <= |members|
      modifies this`members, this`membersByAddress, this`localMember
      ensures Indexed() && View() == old(View())[m.address := m.State()]
      ensures members == old(members[..at] + [m] + members[at..])
      ensures membersByAddress == old(membersByAddress)[m.address := m]
    {
      InsertKeeps(members, membersByAddress, at, m);
      ViewAfterAdding(membersByAddress, m);
      members := members[..at] + [m] + members[at..];
      membersByAddress := membersByAddress[m.address := m];
      if m.address == whoami {
        localMember := m;
      }
    }

    /** One change of a batch, as the loop of `update` treats it. */
    method ApplyOne(change: Change, now: int, id: nat, place: nat) returns (applied: Option<Change>)
      requires Indexed() && localMember != null
      modifies this`members, this`membersByAddress, this`localMember, membersByAddress.Values
      ensures Indexed() && localMember == old(localMember)
      ensures Grown(old(membersByAddress))
      ensures forall a :: a in membersByAddress && a !in old(membersByAddress) ==> fresh(membersByAddress[a])
      ensures Placed(old(members), old(membersByAddress), change.address, place, members, membersByAddress)
      ensures var r := UpdateOne(Outcome(old(View()), []), whoami, change, now, id);
              View() == r.view && r.updates == if applied.Some? then [applied.value] else []
    {
      var member := FindMemberByAddress(change.address);
      if ShouldProcessGossip(if member == null then None else Some(member.State()), change) {
        if change.address == whoami {
          localMember.incarnation := now;
          return Some(Refutation(whoami, localMember.status, now, id));
        } else if member == null {
          var created := new Member(change);
          AddMember(created, if members == [] then 0 else place % |members|);
        } else {
          member.ApplyUpdate(change);
        }
        return Some(change);
      }
      return None;
    }

    /** The same, wherever a new member is placed. */
    method ApplyAnywhere(change: Change, now: int, id: nat, place: nat) returns (applied: Option<Change>)
      requires Indexed() && localMember != null
      modifies this`members, this`membersByAddress, this`localMember, membersByAddress.Values
      ensures Indexed() && localMember == old(localMember)
      ensures Grown(old(membersByAddress))
      ensures forall a :: a in membersByAddress && a !in old(membersByAddress) ==> fresh(membersByAddress[a])
      ensures var r := UpdateOne(Outcome(old(View()), []), whoami, change, now, id);
              View() == r.view && r.updates == if applied.Some? then [applied.value] else []
    {
      applied := ApplyOne(change, now, id, place);
    }

    /** `generateChecksumString`: over the members in address order, skipping tombstones. */
    method GenerateChecksumString() returns (checksumString: string)
      requires Listed()
      ensures checksumString == ChecksumString(View())
    {
      var addresses := Names.Sort(set a | a in membersByAddress);
      checksumString := "";
      ghost var v, done := View(), [];
      for i := 0 to |addresses|
        invariant RowsUpTo(done, addresses, i, v, checksumString)
      {
        assert addresses[i] in addresses;
        RowsStep(done, addresses, i, v, checksumString);
        var member := membersByAddress[addresses[i]];
        if member.status == Tombstone {
          continue;
        }
        done := done + [addresses[i]];
        checksumString := checksumString + Row(member.address, member.State());
      }
      RowsEnd(done, addresses, v, checksumString);
      checksumString := DropLast(checksumString);
    }

    method ComputeChecksum()
      requires Listed()
      modifies this`checksum
      ensures View() == old(View()) && checksum == Some(hashFunc(ChecksumString(View())))
      ensures Indexed() ==> Valid()
    {
      var s := GenerateChecksumString();
      checksum := Some(hashFunc(s));
    }

    method ApplyAll(changes: seq<Change>, o: Oracle, places: nat -> nat) returns (updates: seq<Change>)
      requires Indexed() && localMember != null
      modifies this`members, this`membersByAddress, this`localMember, membersByAddress.Values
      ensures Indexed() && localMember == old(localMember)
      ensures Grown(old(membersByAddress))
      ensures forall a :: a in membersByAddress && a !in old(membersByAddress) ==> fresh(membersByAddress[a])
      ensures Outcome(View(), updates) == UpdateAll(old(View()), whoami, changes, o)
    {
      updates := [];
      ghost var v := View();
      ghost var r := Outcome(v, []);
      for i := 0 to |changes|
        invariant Indexed() && localMember == old(localMember)
        invariant Grown(old(membersByAddress))
        invariant forall a :: a in membersByAddress && a !in old(membersByAddress) ==> fresh(membersByAddress[a])
        invariant View() == r.view && updates == r.updates && r == UpdateAll(v, whoami, changes[..i], o)
      {
        UpdateAllSnoc(v, whoami, changes, o, i);
        r := UpdateAll(v, whoami, changes[..i + 1], o);
        ghost var idx := membersByAddress;
        var applied := ApplyAnywhere(changes[i], o.clock(i), o.ids(i), places(i));
        assert Grown(idx);
        assert forall a :: a in idx && a !in old(membersByAddress) ==> fresh(membersByAddress[a]);
        updates := if applied.Some? then updates + [applied.value] else updates;
      }
      assert changes[..|changes|] == changes;
    }

    /** `update`. Until the node is ready, changes are stashed; `places` are the random join positions. */
    method Update(changes: seq<Change>, ready: bool, o: Oracle, places: nat -> nat) returns (updates: seq<Change>)
      requires Valid() && (ready && changes != [] ==> localMember != null)
      modifies this, membersByAddress.Values
      ensures Valid() && localMember == old(localMember)
      ensures Grown(old(membersByAddress))
      ensures forall a :: a in membersByAddress && a !in old(membersByAddress) ==> fresh(membersByAddress[a])
      ensures var r := if ready && changes != [] then UpdateAll(old(View()), whoami, changes, o)
                       else Outcome(old(View()), []);
              View() == r.view && updates == r.updates
      ensures stashedUpdates == Stashed(old(stashedUpdates), changes, ready)
    {
      if changes == [] {
        return [];
      }
      if !ready {
        Stash(changes);
        return [];
      }
      updates := UpdateReady(changes, o, places);
    }

    method Stash(changes: seq<Change>)
      requires Valid() && changes != []
      modifies this`stashedUpdates
      ensures Valid() && View() == old(View())
      ensures stashedUpdates == Stashed(old(stashedUpdates), changes, false)
    {
      if stashedUpdates.Some? {
        stashedUpdates := Some(stashedUpdates.value + [changes]);
      }
    }

    method UpdateReady(changes: seq<Change>, o: Oracle, places: nat -> nat) returns (updates: seq<Change>)
      requires Valid() && localMember != null
      modifies this`members, this`membersByAddress, this`localMember, this`checksum, membersByAddress.Values
      ensures Valid() && localMember == old(localMember)
      ensures Grown(old(membersByAddress))
      ensures forall a :: a in membersByAddress && a !in old(membersByAddress) ==> fresh(membersByAddress[a])
      ensures Outcome(View(), updates) == UpdateAll(old(View()), whoami, changes, o)
    {
      NoUpdatesNoChange(View(), whoami, changes, o);
      updates := ApplyAll(changes, o, places);
      FinishUpdate(updates);
    }

    method FinishUpdate(updates: seq<Change>)
      requires Indexed() && (updates == [] ==> Valid())
      modifies this`checksum
      ensures Valid() && View() == old(View())
    {
      if updates != [] {
        ComputeChecksum();
      }
    }

    /** `setLocalStatus`: creates the local member if need be, and reincarnates it at `now`. */
    method SetLocalStatus(status: Status, now: int, id: nat) returns (update: Change)
      requires Valid()
      modifies this`members, this`membersByAddress, this`localMember, this`checksum, membersByAddress.Values
      ensures Valid() && localMember != null
      ensures localMember == old(localMember) || fresh(localMember)
      ensures membersByAddress == old(membersByAddress)[whoami := localMember]
      ensures View() == old(View())[whoami := State(now, status)] && update == Refutation(whoami, status, now, id)
    {
      ghost var born := HaveLocal(status, now);
      Overwrite(old(View()), whoami, State(born, status), State(now, status));
      update := Reincarnate(now, id);
      ComputeChecksum();
    }

    method HaveLocal(status: Status, now: int) returns (ghost born: int)
      requires Indexed()
      modifies this`members, this`membersByAddress, this`localMember, membersByAddress.Values
      ensures Indexed() && localMember != null && localMember.status == status
      ensures localMember == old(localMember) || fresh(localMember)
      ensures membersByAddress == old(membersByAddress)[whoami := localMember]
      ensures View() == old(View())[whoami := State(born, status)]
    {
      if localMember != null {
        born := localMember.incarnation;
        localMember.status := status;
      } else {
        born := now;
        var created := new Member(Change(whoami, now, status, None, None, None));
        AddMember(created, |members|);
      }
    }

    method Reincarnate(now: int, id: nat) returns (update: Change)
      requires Indexed() && localMember != null
      modifies localMember
      ensures Indexed() && View() == old(View())[whoami := State(now, old(View()[whoami].status))]
      ensures update == Refutation(whoami, old(View()[whoami].status), now, id)
    {
      localMember.incarnation := now;
      update := Refutation(whoami, localMember.status, now, id);
    }

    /** `makeChange`: a change declared by the local member, put through the update rules. */
    method MakeChange(address: string, incarnation: int, status: Status, ready: bool, id: nat, now: int, newId: nat,
                      place: nat) returns (updates: seq<Change>)
      requires Valid() && (ready ==> localMember != null)
      modifies this, membersByAddress.Values
      ensures Valid() && localMember == old(localMember)
      ensures Grown(old(membersByAddress))
      ensures forall a :: a in membersByAddress && a !in old(membersByAddress) ==> fresh(membersByAddress[a])
      ensures stashedUpdates ==
                Stashed(old(stashedUpdates), [Declared(old(View()), whoami, address, incarnation, status, id)], ready)
      ensures var c := Declared(old(View()), whoami, address, incarnation, status, id);
              var r := if ready then UpdateOne(Outcome(old(View()), []), whoami, c, now, newId)
                       else Outcome(old(View()), []);
              View() == r.view && updates == r.updates
    {
      var source, sourceIncarnation := None, None;
      if localMember != null {
        source, sourceIncarnation := Some(localMember.address), Some(localMember.incarnation);
      }
      var change := Change(address, incarnation, status, source, sourceIncarnation, Some(id));
      if ready {
        UpdateSingle(View(), whoami, change, Oracle(i => now, i => newId));
      }
      updates := Update([change], ready, Oracle(i => now, i => newId), i => place);
    }

    /** Whoever is removed leaves list and index. `localMember` is not reset, so the local member must stay. */
    method RemoveMember(address: string)
      requires Valid()
      modifies this`members, this`membersByAddress, this`checksum
      ensures Listed() && (address != whoami ==> Valid())
      ensures checksum.Some? ==> checksum == Some(hashFunc(ChecksumString(View())))
      ensures View() == old(View()) - {address} && membersByAddress == old(membersByAddress) - {address}
    {
      if address !in membersByAddress {
        assert View() - {address} == View() && membersByAddress - {address} == membersByAddress;
        return;
      }
      DeleteEntry(address);
      ComputeChecksum();
    }

    method DeleteEntry(address: string)
      requires Indexed() && address in membersByAddress
      modifies this`members, this`membersByAddress
      ensures Listed() && (address != whoami ==> Indexed())
      ensures View() == old(View()) - {address} && membersByAddress == old(membersByAddress) - {address}
    {
      RemoveKeeps(members, membersByAddress, address);
      var memberToDelete := membersByAddress[address];
      membersByAddress := membersByAddress - {address};
      members := Without(members, memberToDelete);
    }

    /** `evict`: everyone but the local member may be evicted. */
    method Evict(address: string)
      requires Valid() && localMember != null
      modifies this`members, this`membersByAddress, this`checksum
      ensures Valid()
      ensures View() == if address == whoami then old(View()) else old(View()) - {address}
      ensures membersByAddress == if address == whoami then old(membersByAddress) else old(membersByAddress) - {address}
    {
      if localMember.address == address {
        return;
      }
      RemoveMember(address);
    }

    /** `set`: the merged stash becomes the list, at the end of the bootstrap. None of its live members is listed
        yet, since everything has been stashed. No result if there is nothing to set. */
    method Set(ready: bool) returns (updates: Option<seq<Change>>)
      requires Valid()
      requires !ready && stashedUpdates.Some? ==> LiveOf(MergeSets(whoami, stashedUpdates.value)).Keys !! View().Keys
      modifies this`members, this`membersByAddress, this`localMember, this`checksum, this`stashedUpdates
      ensures Valid() && localMember == old(localMember) && Grown(old(membersByAddress))
      ensures forall a :: a in membersByAddress && a !in old(membersByAddress) ==> fresh(membersByAddress[a])
      ensures updates.Some? <==> !ready && old(stashedUpdates).Some? && old(stashedUpdates).value != []
      ensures updates.None? ==> View() == old(View()) && stashedUpdates == old(stashedUpdates)
      ensures updates.Some? ==> Lists(updates.value, MergeSets(whoami, old(stashedUpdates).value))
      ensures updates.Some? ==> View() == old(View()) + Live(updates.value) && stashedUpdates == None
      ensures updates.Some? ==> SetFrom(old(View()), View(), whoami, Flatten(old(stashedUpdates).value))
    {
      if ready || stashedUpdates == None || stashedUpdates.value == [] {
        return None;
      }
      var merged := MergedStash(stashedUpdates.value);
      LiveAreNew(merged, MergeSets(whoami, stashedUpdates.value), View());
      SetEntries(whoami, View(), stashedUpdates.value, merged);
      CreateAll(merged);
      updates := Some(merged);
    }

    method MergedStash(stash: seq<seq<Change>>) returns (merged: seq<Change>)
      ensures Lists(merged, MergeSets(whoami, stash))
      ensures forall c :: c in merged ==> c.address != whoami
    {
      merged := MergeMembershipChangesets(whoami, stash);
      MergeSetsKeyed(whoami, stash);
      LiveOfListing(whoami, merged, MergeSets(whoami, stash));
    }

    method CreateAll(merged: seq<Change>)
      requires Valid() && DistinctAddresses(merged) && AllNew(merged, View())
      requires forall c :: c in merged ==> c.address != whoami
      modifies this`members, this`membersByAddress, this`localMember, this`checksum, this`stashedUpdates
      ensures Valid() && localMember == old(localMember) && Grown(old(membersByAddress)) && stashedUpdates == None
      ensures forall a :: a in membersByAddress && a !in old(membersByAddress) ==> fresh(membersByAddress[a])
      ensures View() == old(View()) + Live(merged)
    {
      CreateMembers(merged);
      FinishSet();
    }

    method FinishSet()
      requires Indexed()
      modifies this`checksum, this`stashedUpdates
      ensures Valid() && View() == old(View()) && stashedUpdates == None
    {
      stashedUpdates := None;
      ComputeChecksum();
    }

    method CreateMembers(updates: seq<Change>)
      requires Indexed() && DistinctAddresses(updates) && AllNew(updates, View())
      requires forall c :: c in updates ==> c.address != whoami
      modifies this`members, this`membersByAddress, this`localMember
      ensures Indexed() && localMember == old(localMember) && Grown(old(membersByAddress))
      ensures forall a :: a in membersByAddress && a !in old(membersByAddress) ==> fresh(membersByAddress[a])
      ensures old(members) <= members && View() == old(View()) + Live(updates)
    {
      ghost var v, live := View(), map[];
      for i := 0 to |updates|
        invariant Indexed() && localMember == old(localMember) && Grown(old(membersByAddress))
        invariant forall a :: a in membersByAddress && a !in old(membersByAddress) ==> fresh(membersByAddress[a])
        invariant View() == v + live && live == Live(updates[..i]) && old(members) <= members
      {
        assert updates[i] in updates;
        LiveSnoc(updates, i);
        if updates[i].status == Tombstone {
          continue;
        }
        CreateOne(updates[i], v, live);
        live := live[updates[i].address := StateOf(updates[i])];
      }
      assert updates[..|updates|] == updates;
    }

    method CreateOne(update: Change, ghost v: View, ghost live: View)
      requires Indexed() && View() == v + live && update.address !in live && update.address !in v
      requires update.address != whoami
      modifies this`members, this`membersByAddress, this`localMember
      ensures Indexed() && localMember == old(localMember)
      ensures Grown(old(membersByAddress))
      ensures forall a :: a in membersByAddress && a !in old(membersByAddress) ==> fresh(membersByAddress[a])
      ensures View() == v + live[update.address := StateOf(update)] && old(members) <= members
    {
      AddToSum(v, live, update.address, StateOf(update));
      assert update.address !in membersByAddress by {
        assert View().Keys == membersByAddress.Keys;
      }
      var member := new Member(update);
      assert View() == v + live;
      AddMember(member, |members|);
    }

    /** `shuffle`: any reordering of the list. */
    method Shuffle(order: seq<Member>)
      requires Valid() && Reorders(order, members)
      modifies this`members
      ensures Valid() && members == order && View() == old(View())
    {
      ghost var v := View();
      ReorderKeeps(members, membersByAddress, order);
      members := order;
      assert View() == v;
    }
  }

  /** Everything that arrives before readiness is stashed, in the order of arrival. */
  lemma StashedInOrder(stash: seq<seq<Change>>, changes: seq<Change>)
    ensures var s := Stashed(Some(stash), changes, false); s.Some? && Flatten(s.value) == Flatten(stash) + changes
  {
    if changes == [] {
      assert Flatten(stash) + changes == Flatten(stash);
    } else {
      FlattenSnoc(stash + [changes]);
      assert (stash + [changes])[..|stash|] == stash;
    }
  }

  /** None of the live members of a list has an entry. */
  ghost predicate AllNew(updates: seq<Change>, v: View) {
    forall i :: 0 <= i < |updates| && !updates[i].status.Tombstone? ==> updates[i].address !in v
  }

  lemma LiveAreNew(updates: seq<Change>, idx: Index, v: View)
    requires Lists(updates, idx) && LiveOf(idx).Keys !! v.Keys
    ensures AllNew(updates, v)
  {
    forall i | 0 <= i < |updates| && !updates[i].status.Tombstone? ensures updates[i].address !in v {
      assert updates[i].address in LiveOf(idx);
    }
  }

  twostate lemma MembershipKept(m: Membership)
    requires old(m.Valid()) && unchanged(m) && forall a :: a in m.membersByAddress ==> unchanged(m.membersByAddress[a])
    ensures m.Valid() && m.View() == old(m.View())
  {
  }

  /** What is stashed after `update`. */
  function Stashed(stash: Option<seq<seq<Change>>>, changes: seq<Change>, ready: bool): Option<seq<seq<Change>>> {
    if ready || changes == [] || stash.None? then stash else Some(stash.value + [changes])
  }
}
