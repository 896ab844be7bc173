/** The piggyback buffer (lib/gossip/dissemination.js:26-245). */
module Disseminations {
  import opened Wrappers
  import opened Members
  import opened Merging

  /** A change waiting to be piggybacked, and how often it has been. */
  datatype Buffered = Buffered(change: Change, piggybackCount: nat)

  type Buffer = map<string, Buffered>

  ghost predicate Wellkeyed(b: Buffer) {
    forall a :: a in b ==> b[a].change.address == a
  }

  function Recorded(b: Buffer, c: Change): Buffer {
    b[c.address := Buffered(c, 0)]
  }

  function RecordedAll(b: Buffer, updates: seq<Change>): Buffer {
    if updates == [] then b
    else Recorded(RecordedAll(b, updates[..|updates| - 1]), updates[|updates| - 1])
  }

  /** Who asked for the changes, if a receiver issues them. */
  datatype Sender = Sender(address: string, incarnation: Option<int>)

  function Truthy(s: Option<string>): bool {
    s.Some? && s.value != ""
  }

  /** Numbers: 0 is falsy as well. */
  function TruthyNumber(n: Option<int>): bool {
    n.Some? && n.value != 0
  }

  /** `filterChange`: changes the asking sender itself made are not sent back to it. */
  predicate Filtered(filter: Option<Sender>, c: Change) {
    && filter.Some? && filter.value.address != "" && TruthyNumber(filter.value.incarnation)
    && Truthy(c.source) && TruthyNumber(c.sourceIncarnation)
    && c.source == Some(filter.value.address) && c.sourceIncarnation == filter.value.incarnation
  }

  /** What stays in the buffer when it is issued: filtered changes, and those not yet sent `max` times. */
  function Unspent(b: Buffer, filter: Option<Sender>, max: nat): Buffer {
    map a | a in b && (Filtered(filter, b[a].change) || b[a].piggybackCount < max) :: b[a]
  }

  /** What is issued. */
  function ToIssue(b: Buffer, filter: Option<Sender>, max: nat): Index {
    map a | a in b && !Filtered(filter, b[a].change) && b[a].piggybackCount < max :: b[a].change
  }

  /** What a receiver does with its buffer `b` for a sender, and what remains of it: nothing the sender made itself, at
      its present incarnation, is sent back to it, and that stays in the buffer as it was. Of everything else, the
      changes not yet sent `max` times are sent and counted once more, and the others are dropped. A sender without an
      address or without an incarnation has made nothing. */
  ghost predicate WithholdsOwn(b: Buffer, sender: string, incarnation: Option<int>, max: nat, sent: seq<Change>,
                               after: Buffer) {
    && (forall a :: a in b ==>
         var c, own := b[a].change, MadeBy(b[a].change, sender, incarnation);
         && (c in sent <==> !own && b[a].piggybackCount < max)
         && (a in after <==> own || b[a].piggybackCount < max)
         && (a in after ==> after[a] == Buffered(c, b[a].piggybackCount + if own then 0 else 1)))
    && (forall c :: c in sent ==> c.address in b && b[c.address].change == c)
    && (forall a :: a in after ==> a in b)
  }

  /** Everything in the buffer was made by the sender or has been sent `max` times. */
  ghost predicate OnlyOwn(b: Buffer, sender: string, incarnation: Option<int>, max: nat) {
    forall a :: a in b ==> MadeBy(b[a].change, sender, incarnation) || b[a].piggybackCount >= max
  }

  predicate MadeBy(c: Change, sender: string, incarnation: Option<int>) {
    && sender != "" && incarnation.Some? && incarnation.value != 0
    && c.source == Some(sender) && c.sourceIncarnation == incarnation
  }

  /** One issued change is counted if the buffer still holds that very change (equal ids). */
  function BumpOne(b: Buffer, c: Change): Buffer {
    if c.address in b && b[c.address].change.id == c.id
    then b[c.address := Buffered(b[c.address].change, b[c.address].piggybackCount + 1)]
    else b
  }

  function Bumped(b: Buffer, issued: seq<Change>): Buffer {
    if issued == [] then b
    else BumpOne(Bumped(b, issued[..|issued| - 1]), issued[|issued| - 1])
  }

  /** The changes of a full sync: every entry, with neither id nor source incarnation. */
  function FullSyncChange(me: string, a: string, s: State): Change {
    Change(a, s.incarnation, s.status, Some(me), None, None)
  }

  function FullSyncIndex(me: string, v: View): Index {
    map a | a in v :: FullSyncChange(me, a, v[a])
  }

  class Dissemination {
    var changes: Buffer
    var maxPiggybackCount: nat
    var reverseFullSyncJobs: nat

    constructor ()
      ensures changes == map[] && maxPiggybackCount == 1 && reverseFullSyncJobs == 0
    {
      changes, maxPiggybackCount, reverseFullSyncJobs := map[], 1, 0;
    }

    method RecordChange(change: Change)
      modifies this`changes
      ensures changes == Recorded(old(changes), change)
    {
      changes := changes[change.address := Buffered(change, 0)];
    }

    /** `_issueAs`. */
    method IssueAs(filterChange: Option<Sender>) returns (changesToDisseminate: seq<Change>)
      requires Wellkeyed(changes)
      modifies this`changes
      ensures changes == Unspent(old(changes), filterChange, maxPiggybackCount) && Wellkeyed(changes)
      ensures Lists(changesToDisseminate, ToIssue(old(changes), filterChange, maxPiggybackCount))
    {
      changesToDisseminate := [];
      var changedNodes := changes.Keys;
      ghost var kept := Unspent(changes, filterChange, maxPiggybackCount);
      ghost var toIssue := ToIssue(changes, filterChange, maxPiggybackCount);
      while changedNodes != {}
        invariant changedNodes <= old(changes).Keys
        invariant forall a :: a in changes <==> a in changedNodes || a in kept
        invariant forall a :: a in changes ==> changes[a] == old(changes)[a]
        invariant Lists(changesToDisseminate, toIssue - changedNodes)
        decreases changedNodes
      {
        var address :| address in changedNodes;
        var change := changes[address].change;
        var rest := changedNodes - {address};
        if Filtered(filterChange, change) {
          assert toIssue - rest == toIssue - changedNodes;
        } else if changes[address].piggybackCount >= maxPiggybackCount {
          changes := changes - {address};
          assert toIssue - rest == toIssue - changedNodes;
        } else {
          assert toIssue - rest == (toIssue - changedNodes)[address := change];
          ListsSnoc(changesToDisseminate, toIssue - changedNodes, change);
          changesToDisseminate := changesToDisseminate + [change];
        }
        changedNodes := rest;
      }
      assert toIssue - {} == toIssue;
    }

    method Bump(issued: seq<Change>)
      modifies this`changes
      ensures changes == Bumped(old(changes), issued)
    {
      for i := 0 to |issued|
        invariant changes == Bumped(old(changes), issued[..i])
      {
        assert issued[..i + 1][..i] == issued[..i];
        var issuedChange := issued[i];
        if issuedChange.address in changes {
          var localChange := changes[issuedChange.address];
          if localChange.change.id == issuedChange.id {
            changes := changes[issuedChange.address := localChange.(piggybackCount := localChange.piggybackCount + 1)];
          }
        }
      }
      assert issued[..|issued|] == issued;
    }

    /** `issueAsSender`, up to the call of `issue`. */
    method IssueAsSender() returns (membershipChanges: seq<Change>)
      requires Wellkeyed(changes)
      modifies this`changes
      ensures changes == Unspent(old(changes), None, maxPiggybackCount) && Wellkeyed(changes)
      ensures Lists(membershipChanges, ToIssue(old(changes), None, maxPiggybackCount))
    {
      membershipChanges := IssueAs(None);
    }

    /** The callback `onIssue`: the changes count as piggybacked only when they got through. */
    method OnIssue(err: bool, membershipChanges: seq<Change>)
      modifies this`changes
      ensures changes == if err then old(changes) else Bumped(old(changes), membershipChanges)
    {
      if err {
        return;
      }
      Bump(membershipChanges);
    }

    /** `issueAsReceiver`; `all` is `membershipAsChanges()`. */
    method IssueAsReceiver(senderAddr: string, senderIncarnation: Option<int>, senderChecksum: Option<int>,
                           localChecksum: Option<int>, all: seq<Change>)
      returns (membershipChanges: seq<Change>, fullSync: bool)
      requires Wellkeyed(changes)
      modifies this`changes
      ensures var f, max := Some(Sender(senderAddr, senderIncarnation)), maxPiggybackCount;
              var toIssue := ToIssue(old(changes), f, max);
              && (fullSync <==> toIssue == map[] && localChecksum != senderChecksum)
              && (if fullSync then membershipChanges == all else Lists(membershipChanges, toIssue))
              && changes == Bumped(Unspent(old(changes), f, max), membershipChanges)
      ensures !fullSync ==> WithholdsOwn(old(changes), senderAddr, senderIncarnation, maxPiggybackCount,
                                         membershipChanges, changes)
      ensures fullSync <==> localChecksum != senderChecksum
                            && OnlyOwn(old(changes), senderAddr, senderIncarnation, maxPiggybackCount)
    {
      OnlyOwnIff(changes, senderAddr, senderIncarnation, maxPiggybackCount);
      membershipChanges := IssueAs(Some(Sender(senderAddr, senderIncarnation)));
      ListsEmpty(membershipChanges,
        ToIssue(old(changes), Some(Sender(senderAddr, senderIncarnation)), maxPiggybackCount));
      fullSync := false;
      if membershipChanges == [] && localChecksum != senderChecksum {
        fullSync := true;
        membershipChanges := all;
      }
      if !fullSync {
        AnswerWithholds(old(changes), senderAddr, senderIncarnation, maxPiggybackCount, membershipChanges);
      }
      Bump(membershipChanges);
    }

    /** `tryStartReverseFullSync`: true if a job was started. */
    method TryStartReverseFullSync(maxReverseFullSyncJobs: nat) returns (started: bool)
      modifies this`reverseFullSyncJobs
      ensures started <==> old(reverseFullSyncJobs) < maxReverseFullSyncJobs
      ensures reverseFullSyncJobs == old(reverseFullSyncJobs) + if started then 1 else 0
    {
      if reverseFullSyncJobs >= maxReverseFullSyncJobs {
        return false;
      }
      reverseFullSyncJobs := reverseFullSyncJobs + 1;
      return true;
    }

    method OnReverseFullSync()
      requires reverseFullSyncJobs > 0
      modifies this`reverseFullSyncJobs
      ensures reverseFullSyncJobs == old(reverseFullSyncJobs) - 1
    {
      reverseFullSyncJobs := reverseFullSyncJobs - 1;
    }
  }

  lemma ListsSnoc(updates: seq<Change>, idx: Index, c: Change)
    requires Lists(updates, idx) && c.address !in idx
    ensures Lists(updates + [c], idx[c.address := c])
  {
    var r := updates + [c];
    assert r[|updates|] == c;
    forall a | a in idx ensures exists i :: 0 <= i < |r| && r[i].address == a {
      var i :| 0 <= i < |updates| && updates[i].address == a;
      assert r[i].address == a;
    }
  }

  lemma ListsEmpty(updates: seq<Change>, idx: Index)
    requires Lists(updates, idx)
    ensures updates == [] <==> idx == map[]
  {
    if updates != [] {
      assert updates[0].address in idx;
    } else {
      assert idx.Keys == {};
    }
  }

  // ---- what a receiver holds back ----

  lemma FilteredIsOwn(sender: string, incarnation: Option<int>, c: Change)
    ensures Filtered(Some(Sender(sender, incarnation)), c) <==> MadeBy(c, sender, incarnation)
  {
  }

  lemma OnlyOwnIff(b: Buffer, sender: string, incarnation: Option<int>, max: nat)
    ensures ToIssue(b, Some(Sender(sender, incarnation)), max) == map[] <==> OnlyOwn(b, sender, incarnation, max)
  {
    var toIssue := ToIssue(b, Some(Sender(sender, incarnation)), max);
    forall a | a in b ensures a !in toIssue <==> MadeBy(b[a].change, sender, incarnation) || b[a].piggybackCount >= max
    {
      FilteredIsOwn(sender, incarnation, b[a].change);
    }
    if OnlyOwn(b, sender, incarnation, max) {
      assert toIssue.Keys == {};
    }
  }

  /** What is issued to a sender and counted leaves out and keeps exactly its own changes. */
  lemma AnswerWithholds(b: Buffer, sender: string, incarnation: Option<int>, max: nat, sent: seq<Change>)
    requires Wellkeyed(b) && Lists(sent, ToIssue(b, Some(Sender(sender, incarnation)), max))
    ensures var kept := Unspent(b, Some(Sender(sender, incarnation)), max);
            WithholdsOwn(b, sender, incarnation, max, sent, Bumped(kept, sent))
  {
    var f := Some(Sender(sender, incarnation));
    var kept := Unspent(b, f, max);
    var after := Bumped(kept, sent);
    forall a ensures a in after <==> a in kept {
      BumpedAt(kept, sent, a);
    }
    forall c | c in sent ensures c.address in b && b[c.address].change == c && c.address in ToIssue(b, f, max) {
      var i :| 0 <= i < |sent| && sent[i] == c;
    }
    forall a | a in b
      ensures var c, own := b[a].change, MadeBy(b[a].change, sender, incarnation);
              && (c in sent <==> !own && b[a].piggybackCount < max)
              && (a in after <==> own || b[a].piggybackCount < max)
              && (a in after ==> after[a] == Buffered(c, b[a].piggybackCount + if own then 0 else 1))
    {
      FilteredIsOwn(sender, incarnation, b[a].change);
      BumpedAt(kept, sent, a);
      if a in ToIssue(b, f, max) {
        var i :| 0 <= i < |sent| && sent[i].address == a;
        assert sent[i] in sent;
        assert Carries(sent, a, b[a].change.id);
      } else if a in kept {
        NotCarried(b, f, max, sent, a);
      }
    }
  }

  lemma NotCarried(b: Buffer, f: Option<Sender>, max: nat, sent: seq<Change>, a: string)
    requires Wellkeyed(b) && Lists(sent, ToIssue(b, f, max)) && a in b && a !in ToIssue(b, f, max)
    ensures !Carries(sent, a, b[a].change.id)
  {
  }

  // ---- exhaustion ----

  ghost predicate Carries(issued: seq<Change>, a: string, id: Option<nat>) {
    exists i :: 0 <= i < |issued| && issued[i].address == a && issued[i].id == id
  }

  lemma CarriesSnoc(issued: seq<Change>, c: Change, a: string, id: Option<nat>)
    ensures Carries(issued + [c], a, id) <==> Carries(issued, a, id) || (c.address == a && c.id == id)
  {
    var r := issued + [c];
    assert r[|issued|] == c;
    if i :| 0 <= i < |issued| && issued[i].address == a && issued[i].id == id {
      assert r[i] == issued[i];
    }
  }

  /** Counting a list of distinct addresses raises exactly the counts of the changes it carries. */
  lemma {:induction false} BumpedAt(b: Buffer, issued: seq<Change>, a: string)
    requires DistinctAddresses(issued)
    ensures Bumped(b, issued).Keys == b.Keys
    ensures a in b ==> Bumped(b, issued)[a] == Buffered(b[a].change,
              b[a].piggybackCount + if Carries(issued, a, b[a].change.id) then 1 else 0)
  {
    if issued == [] {
    } else {
      var n := |issued| - 1;
      BumpedAt(b, issued[..n], a);
      if a in b {
        assert issued == issued[..n] + [issued[n]];
        CarriesSnoc(issued[..n], issued[n], a, b[a].change.id);
      }
    }
  }

  lemma {:induction false} BumpedKeyed(b: Buffer, issued: seq<Change>)
    requires Wellkeyed(b)
    ensures Wellkeyed(Bumped(b, issued))
  {
    if issued == [] {
    } else {
      BumpedKeyed(b, issued[..|issued| - 1]);
    }
  }

  /** One unfiltered round that got through. */
  function Round(b: Buffer, max: nat): Buffer {
    map a | a in b && b[a].piggybackCount < max :: Buffered(b[a].change, b[a].piggybackCount + 1)
  }

  lemma RoundIsIssueAndAck(b: Buffer, max: nat, issued: seq<Change>)
    requires Wellkeyed(b) && Lists(issued, ToIssue(b, None, max))
    ensures Bumped(Unspent(b, None, max), issued) == Round(b, max)
  {
    var kept, bumped := Unspent(b, None, max), Bumped(Unspent(b, None, max), issued);
    forall a ensures a in bumped <==> a in kept {
      BumpedAt(kept, issued, a);
    }
    forall a | a in kept ensures bumped[a] == Round(b, max)[a] {
      BumpedAt(kept, issued, a);
      KeptIsCarried(b, max, issued, a);
    }
  }

  lemma KeptIsCarried(b: Buffer, max: nat, issued: seq<Change>, a: string)
    requires Wellkeyed(b) && Lists(issued, ToIssue(b, None, max)) && a in Unspent(b, None, max)
    ensures Carries(issued, a, b[a].change.id)
  {
    assert a in ToIssue(b, None, max);
    var i :| 0 <= i < |issued| && issued[i].address == a;
  }

  function Rounds(b: Buffer, max: nat, k: nat): Buffer {
    if k == 0 then b else Round(Rounds(b, max, k - 1), max)
  }

  lemma {:induction false} RoundsAt(b: Buffer, max: nat, k: nat)
    ensures forall a :: a in Rounds(b, max, k) <==>
              a in b && (k == 0 || b[a].piggybackCount + k <= max)
    ensures forall a :: a in Rounds(b, max, k) ==>
              Rounds(b, max, k)[a] == Buffered(b[a].change, b[a].piggybackCount + k)
  {
    if k == 0 {
    } else {
      RoundsAt(b, max, k - 1);
    }
  }

  /** With no new changes, a change goes out until it has been sent `max` times, and max + 1 rounds empty
      the buffer. */
  lemma Exhaustion(b: Buffer, max: nat)
    ensures Rounds(b, max, max + 1) == map[]
    ensures forall a, k: nat :: a in b ==>
              (a in ToIssue(Rounds(b, max, k), None, max) <==> b[a].piggybackCount + k < max)
  {
    RoundsAt(b, max, max + 1);
    assert Rounds(b, max, max + 1).Keys == {};
    forall a, k: nat | a in b
      ensures a in ToIssue(Rounds(b, max, k), None, max) <==> b[a].piggybackCount + k < max
    {
      RoundsAt(b, max, k);
    }
  }
}
