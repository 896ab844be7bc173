# Ringpop: a verified model of the hash ring and the membership protocol

This project models the two cores of the repository and proves what they are for.

**The consistent-hash ring.** A heap-allocated red-black tree with top-down insertion and removal (`RBTrees`,
on `RingNode` records) is proved against a value tree with a zipper (`RBModel`, `RBInsertModel`,
`RBRemoveModel`); the value tree is proved red-black, sorted and of the right contents. The iterator with its
ancestor stack is `RBIterators`. `RingSpec` defines the ring as a set of points, whose names are numbered as
`Numerals` says, and proves minimal disruption and preference lists on it; `HashRings` proves that the code on
the tree computes exactly that.

**The membership protocol.** `Members` holds the update rule and proves when gossip is a join.
`ChecksumStrings` proves that checksum strings tell entries apart. `Memberships`, `Transitions`,
`Disseminations` and `HashRings` are the mutable parts of a node; `Nodes` is the node with its listeners,
proved step by step against the pure node of `NodeModel`, on which ring agreement, timer safety and buffer
freshness are invariants; `ArmedTimers` and `PingAnswers` say which timers are armed and which changes a
ping's answer holds back. `Clusters` puts nodes, lists in flight and a clock together and proves incarnation
ownership for every run. On top of that stand partition healing (`Healing`, `Healers`, `HealAttempts`), full
sync (`Exchanges`, `FullSyncs`), the join shortcut (`Merging`), probe fairness (`Probes`) and the damping
quorum (`Damping`). `Refinements` shows that sending and handling a ping, its reply, the bootstrap and a heal
attempt are runs of cluster steps.

`dafny verify dfyconfig.toml` checks everything.

## Reading the model

- `hashFunc` is any function from strings to integers; nothing assumes that it is injective.
- Clock readings, fresh update ids, random join positions and shuffles are parameters (`Oracle`, `places`,
  `order`), so every statement holds for all of them. Where a step of `Clusters` mints an incarnation, the
  clock is ahead of every number that node minted before.
- `net` in `Clusters` never forgets a list, so loss, duplication and reordering are all covered.
- A timer is the entry kept in `timers`; it stays there after it fired, as in the source, and a fired
  entry still makes a schedule in the same state redundant (`lib/gossip/state_transitions.js:114-121`).
- The piggyback maximum of a node that is sent suspicions is at least 1: it is 1 at first, at least 15
  while the ring has a server, and 0 only once the ring was emptied (`lib/gossip/dissemination.js:42-59`). A `Circumstances` says what a target
  does with the ping of a healer: whether it arrives, and everything its handling depends on.
- The listeners of one event run in the order in which they are registered
  (`lib/on_membership_event.js:151-162`).
- `ghost` parameters of methods are there for proofs only; `Node`, `Membership`, `Dissemination`,
  `StateTransitions`, `HashRing`, `RBTree`, `RBIterator`, `MembershipIterator`, `Healer` and `Fanout` have the
  fields of the source.

## Where code and comments differ

- `upperBound` says it returns the entry after the key (`lib/ring/rbtree.js:264`); it returns the entry at
  or after it, since its loop guard is false once `lowerBound` has returned. So the comment holds exactly when
  the key is absent (`RBIterators.AfterIff`) and fails on a tree of one pair asked for its own key
  (`RBIterators.BoundOfPresentKey`). The model has the guard as an assertion in place of the loop.
- `lookupN` asked for no server collects one, because its body runs before the test
  (`lib/ring/index.js:212-225`); it collects none if the hash lies past the last point, where the first round
  only restarts at the front. `HashRings.HashRing.LookupN` states both.
- `shouldProcessGossip` drops tombstones of unknown members (`lib/membership/member.js:228-231`). Updates
  about a known member, and tombstone-free ones, are always a join (`Members.BatchesJoin`); about an unknown
  member they are one exactly under the condition of `Members.BatchesJoinUnknownIff`, and
  `Members.TombstoneOrderMatters` is a list in two orders of which only one meets it.
- The healer leaves the source out of its suspicions, which is said to keep the target from a reverse full
  sync (`lib/partition_healing/healer.js:116`). A target to which they are no news starts one all the same
  (`lib/gossip/dissemination.js:117-140`), and the reverse job makes the members unpingable that the attempt
  was to save. `HealAttempts.HealPingFullSyncIff` says exactly when it starts, `HealAttempts.HealIsSafe`
  exactly when it does harm, and `HealAttempts.RepeatedHealIsUndone` is an input.
- The ring listener adds everything and then removes everything (`lib/on_membership_event.js:144-147`), so
  it agrees with the entries exactly under the condition of `NodeModel.RingAgreesIff`, which looks at the
  entries and the list before the call. Lists with distinct addresses meet it, and
  `NodeModel.IssuedIsCurrent`, `Healing.GeneratedOnce` and `Merging.MergeMembershipChangesets` prove that
  those are the lists nodes produce.
- A damp-req response that names a member twice counts twice (`lib/gossip/damper.js:80-81`). `Damping.QuorumIff`
  says exactly when that breaks the quorum, and `Damping.DampingDecision` proves that it never does with
  responders that answer by `collectDampScores` for distinct addresses.

## Model

| member | source | states |
|---|---|---|
| RBRotate.SingleRotate | lib/ring/rbtree.js:54-64 | on the heap, the rotated subtree with its colours, all other records untouched and the same set of records |
| RBRotate.DoubleRotate | lib/ring/rbtree.js:66-69 | on the heap, the doubly rotated subtree, same records, sound links |
| RBModel.RotatedInOrder | lib/ring/rbtree.js:54-64 | a rotation keeps the in-order sequence of pairs |
| RBModel.DoubleRotatedInOrder | lib/ring/rbtree.js:66-69 | a double rotation keeps the in-order sequence of pairs |
| RBInsertModel.ViolationIsPlain | lib/ring/rbtree.js:96-112 | whenever the loop is about to rotate, a grandparent exists, the node was just flipped, and the last step was not the one after a double rotation: the stale helpers are never used |
| RBTrees.HelpersNext | lib/ring/rbtree.js:121-131 | after every iteration the parent variable is right, and grandparent and great-grandparent are right except in states from which no rotation can follow |
| RBTrees.RemainingDecreases | lib/ring/rbtree.js:90-132 | a measure that falls in every iteration, across the step back after a double rotation: the insertion loop ends |
| RBInsertModel.RepairedShape | lib/ring/rbtree.js:103-112 | a repair removes the red-red edge and keeps equal black heights and every other edge |
| RBInsertModel.StepSettles | lib/ring/rbtree.js:96-119 | flip and repair leave a tree with the same pairs, no violation and the search still on its way to the key |
| RBInsertModel.NewLeaf | lib/ring/rbtree.js:91-112 | a new red leaf lands between the smaller and the greater pairs, and its possible violation is repairable |
| RBInsert.FlipColors | lib/ring/rbtree.js:96-101 | the colour flip on the heap |
| RBInsert.Repair | lib/ring/rbtree.js:103-112 | the repair on the heap, through whatever variables the loop holds, is the repair of the tree model |
| RBTrees.VisitNode | lib/ring/rbtree.js:96-112 | one visit of an existing node: flip if both children are red, repair if that made a red-red edge |
| RBTrees.InsertBelow | lib/ring/rbtree.js:76-136 | the insertion loop below the fake root: contents, balance, no red-red edge, return value |
| RBTrees.RBTree.Insert | lib/ring/rbtree.js:72-146 | insert keeps a valid red-black search tree, adds exactly the new pair, or returns false and changes nothing on a duplicate; size is the number of pairs |
| RBRemoveModel.PushDownShape | lib/ring/rbtree.js:184-216 | every rebalancing step keeps black heights and colours right and passes on the pretended red node |
| RBRemoveModel.PushDownSplit | lib/ring/rbtree.js:184-216 | no rebalancing step changes the pairs before or after the place being searched |
| RBRemoveModel.TracksOn | lib/ring/rbtree.js:175-182 | the remembered node always holds the key, and the search stays next to it |
| RBRemoveModel.SplicedContents | lib/ring/rbtree.js:219-225 | copying the payload and unlinking the bottom node removes exactly the pair of the key |
| RBRemoveModel.AbsentContents | lib/ring/rbtree.js:220-233 | without a hit, the loop has found that the key is absent |
| RBRemoveModel.SplicedShape | lib/ring/rbtree.js:219-225 | the unlinked node was red or hung below a red node, so black heights survive |
| RBRemove.Rebalance | lib/ring/rbtree.js:184-216 | one iteration on the heap, through the loop variables, is the step of the tree model |
| RBRemove.Splice | lib/ring/rbtree.js:219-225 | payload copy and unlinking on the heap |
| RBTrees.RemoveBelow | lib/ring/rbtree.js:159-233 | the removal loop below the fake root: contents, balance, return value |
| RBTrees.RBTree.Remove | lib/ring/rbtree.js:154-234 | remove keeps a valid red-black search tree for any key, drops exactly that pair, returns true iff it was there; size is the number of pairs |
| RBIterators.RBIterator.AtIndex | lib/ring/rbtree.js:299-305 | key and value are those of the entry at the cursor position; null exactly at the end |
| RBIterators.RBIterator.MinNode | lib/ring/rbtree.js:338-344 | the cursor lands on the least entry of the subtree, with the exact path as ancestors |
| RBIterators.RBIterator.Climb | lib/ring/rbtree.js:316-327 | climbing the stack moves on by exactly one entry |
| RBIterators.RBIterator.Next | lib/ring/rbtree.js:308-335 | the next entry in key order, null after the last one, the first one after null; the ancestors stay the exact root path |
| RBIterators.HeightBound | lib/ring/rbtree.js:237-249 | a red-black tree of n pairs is at most 2 log2(n + 1) high |
| RBIterators.Descend | lib/ring/rbtree.js:241-261 | the search of lowerBound, with the number of nodes it compares |
| RBIterators.ClimbToBound | lib/ring/rbtree.js:251-261 | the last ancestor above the key, with its own path, or the end |
| RBIterators.LowerBound | lib/ring/rbtree.js:237-262 | the first entry at or after the key, after at most 2 log2(size + 1) compared nodes |
| RBIterators.Land | lib/ring/rbtree.js:241-249 | a hit: the cursor stops at the node that holds the key |
| RBIterators.LowerBoundUnique | lib/ring/rbtree.js:236-262 | there is only one such position |
| RBIterators.UpperBound | lib/ring/rbtree.js:265-273 | also the first entry at or after the key, since its loop never runs; it is the one after the key if and only if the key is absent |
| RBIterators.AfterIff | lib/ring/rbtree.js:264-273 | the comment on upperBound holds exactly when the key is absent |
| RBIterators.BoundOfPresentKey | lib/ring/rbtree.js:264-273 | an input on which it does not: a tree of one pair, asked for its key |
| RBIterators.Min | lib/ring/rbtree.js:276-287 | the first pair, null for the empty tree |
| Points.CompareTotal | lib/ring/index.js:38-57 | the comparator is a strict total order and 0 exactly on equal points |
| Points.LessTrans | lib/ring/index.js:38-57 | the order is transitive |
| Points.StrLessMeans | lib/ring/index.js:45-50 | strings are compared at their first difference, a proper prefix is less |
| Points.EmptyAddressLeast | lib/ring/index.js:45-46 | a key without address sorts before every point of its hash |
| Numerals.DecimalIsNumeral | lib/ring/index.js:73-74 | the number of a replica is appended in digits only, without a leading zero, and their value is the number |
| Numerals.NumeralUnique | lib/ring/index.js:73-74 | there is only one such string, so different replicas hash different names |
| RingSpec.PointsAreReplicas | lib/ring/index.js:73-91 | the points of the servers are exactly the hashes of a name followed by the number of a replica below the count |
| RingSpec.PointCount | lib/ring/index.js:83-91 | there are as many points as replicas if and only if no server has two replicas at one point |
| RingSpec.SortedUnique | lib/ring/index.js:83-91 | a set of points has exactly one sorted list of entries |
| HashRings.InsertReplica | lib/ring/index.js:73-91 | one replica point more, even if it collides |
| HashRings.RemoveReplica | lib/ring/index.js:172-180 | one replica point less |
| HashRings.HashRing.constructor | lib/ring/index.js:27-36 | an empty ring; 0 replica points means 100 |
| HashRings.HashRing.ComputeChecksum | lib/ring/index.js:131-142 | the hash of the sorted server names joined by semicolons |
| HashRings.HashRing.AddServerReplicas | lib/ring/index.js:83-91 | the tree holds exactly the replica points of the enlarged server set |
| HashRings.HashRing.RemoveServerReplicas | lib/ring/index.js:172-180 | the tree holds exactly the replica points of the reduced server set |
| HashRings.HashRing.AddServer | lib/ring/index.js:62-71 | server set and checksum after adding, nothing if present; the keys of the tree are exactly the hashes of the names of the servers followed by replica numbers |
| HashRings.HashRing.RemoveServer | lib/ring/index.js:161-170 | server set and checksum after removing, nothing if absent; the keys of the tree are exactly the replica points left |
| HashRings.HashRing.AddRemoveServers | lib/ring/index.js:93-129 | the servers are (old + added) minus removed, and the keys of the tree exactly their replica points; true iff some step changed the set, and then the checksum is current |
| HashRings.SameServersSameRing | lib/ring/index.js:83-142 | history independence: rings with equal server sets hold the same entries and, once computed, the same checksum |
| HashRings.RingSize | lib/ring/index.js:83-91 | the tree has a node for each replica of each server if and only if no server has two replicas with one hash |
| HashRings.ChecksumTellsApart | lib/ring/index.js:131-142 | but for collisions of the hash, the checksums of two sets of servers are equal if and only if the sets are, given names without semicolons |
| Names.JoinInjective | lib/ring/index.js:134-135 | joined lists of names without the separator differ, apart from the empty list and the empty name |
| Names.JoinSnoc | lib/ring/index.js:134-135 | joining puts the separator between neighbours, from the last name on |
| RingSpec.SearchFindsOwner | lib/ring/index.js:182-192 | the entry at or after the hash, or else the first one, is the owner in the sense of the point set |
| RingSpec.AddMovesOnlyTo | lib/ring/index.js:62-71 | minimal disruption: adding a server moves keys only to it |
| RingSpec.RemoveMovesOnlyFrom | lib/ring/index.js:161-170 | minimal disruption: removing a server moves only the keys it owned |
| HashRings.HashRing.Lookup | lib/ring/index.js:182-192 | null iff there is no server; else a server with the first replica at or after the hash, or else the first of all |
| HashRings.OneRound | lib/ring/index.js:212-224 | one round of the walk: collect a new server or restart at the front |
| HashRings.WalkFrom | lib/ring/index.js:211-227 | the walk ends after at most one lap with the first distinct servers of the lap |
| HashRings.HashRing.LookupN | lib/ring/index.js:195-228 | for n of at least 1 the first min(n, servers) of the full preference list; for smaller n the do-while still collects one, or none if the hash lies past the last point |
| HashRings.PreferencesStartWithOwner | lib/ring/index.js:182-228 | a preference list starts with what lookup returns |
| HashRings.PreferenceOwns | lib/ring/index.js:195-228 | the k-th name of a preference list is what lookup returns once the names before it are removed |
| RingSpec.PreferencesComplete | lib/ring/index.js:195-228 | a full preference list names every server once |
| RingSpec.PreferencesAfterRemoval | lib/ring/index.js:195-228 | removing a server deletes it from every full preference list and keeps the rest in order |
| Names.Sort | lib/membership/index.js:115-125 | the sorted list of a set of names |
| Names.ListsUnique | lib/membership/index.js:115-125 | a set of names has one sorted list |
| Checksums.RowsStep | lib/membership/index.js:129-142 | one member of the checksum loop: a row, or nothing for a tombstone |
| Numerals.NumberIsNumeral | lib/membership/index.js:138-140 | an incarnation is appended in digits of its value, without a leading zero, after a minus sign if it is negative |
| ChecksumStrings.TailUnique | lib/membership/index.js:138-140 | status and incarnation can be read off the end of a row, whatever the address |
| ChecksumStrings.ChecksumStringTells | lib/membership/index.js:115-144 | if no address holds a semicolon: equal checksum strings if and only if equal live entries |
| ChecksumStrings.ChecksumStringTellsStates | lib/membership/index.js:115-144 | for any addresses: among entries about the same live members, equal strings if and only if equal states |
| ChecksumStrings.ChecksumStringIsJoined | lib/membership/index.js:61-75 | the string joins address, status and incarnation of each live member, in address order, by semicolons |
| ChecksumStrings.ChecksumStringExample | lib/membership/index.js:61-75 | the string of five members, one in each status |
| Members.NoUpdatesIff | lib/membership/index.js:398-436 | a batch has no updates if and only if none of its changes is news to the entries before it |
| Members.UpdatesComeFrom | lib/membership/index.js:398-428 | every update is a change of the batch or the own refutation, under the own name and new incarnation |
| Members.StatusOrder | lib/membership/member.js:200-206 | at equal incarnations alive, suspect, faulty, leave and tombstone override in this order |
| Members.OverridesTotal | lib/membership/member.js:227-254 | by (incarnation, status precedence), of two different states exactly one overrides the other |
| Members.OverridesTrans | lib/membership/member.js:227-254 | and transitive |
| Members.UpdateIsMaxHeard | lib/membership/index.js:375-436 | for every batch: a remote entry ends as the maximum of what was known and of what counts, where tombstones count only once the address is known |
| Members.HeardEverything | lib/membership/index.js:398-428 | everything counts if the address is known or no tombstone is among the changes |
| Members.BatchesJoin | lib/membership/index.js:375-436 | after any sequence of batches the entry is the maximum of everything ever heard |
| Members.BatchesAreOne | lib/membership/index.js:375-436 | batching never matters: batches leave a remote entry as their concatenation does |
| Members.JoinOfUnknownIff | lib/membership/member.js:228-231 | exactly when a batch takes an unknown member to the maximum of everything said about it: nothing is said, or the maximum stands no earlier than the first change that is not a tombstone |
| Members.BatchesJoinUnknownIff | lib/membership/member.js:228-231 | the same condition for any sequence of batches |
| Members.OrderDoesNotMatter | lib/membership/index.js:375-436 | histories with the same states about an address end alike, whatever order, duplication and batching |
| Members.TombstoneOrderMatters | lib/membership/member.js:228-231 | an input on which order does matter: a tombstone for an unknown member is dropped |
| Members.LocalStatusKept | lib/membership/index.js:405-408 | gossip never changes the local status; its incarnation only changes to a clock reading |
| Members.NoUpdatesNoChange | lib/membership/index.js:429-436 | a batch without applied updates leaves every entry as it was |
| Memberships.Membership.GenerateChecksumString | lib/membership/index.js:115-144 | the rows of the non-tombstones by address, independent of list order |
| Memberships.Membership.ComputeChecksum | lib/membership/index.js:61-89 | the checksum is that of the current entries |
| Memberships.Membership.ApplyOne | lib/membership/index.js:398-428 | one change: ignored, refuted, applied to its member, or a new member at the drawn place; nobody else moves, and list and index stay in step |
| Memberships.Membership.Update | lib/membership/index.js:375-436 | the entries and updates of the pure update rule; checksum current; before readiness the batch is stashed |
| Memberships.StashedInOrder | lib/membership/index.js:384-391 | what arrives before readiness is all stashed, in the order of arrival |
| Memberships.Membership.SetLocalStatus | lib/membership/index.js:227-248 | creates the local member if need be, sets its status, reincarnates it and returns the announcing update |
| Memberships.Membership.Reincarnate | lib/membership/index.js:215-219 | only the local incarnation changes, to the clock reading |
| Memberships.Membership.MakeChange | lib/membership/index.js:266-280 | the declared change is put through the update rule, or stashed before readiness |
| Memberships.Membership.RemoveMember | lib/membership/index.js:306-315 | exactly that entry goes, from list and index, whoever it is; checksum current |
| Memberships.Membership.Evict | lib/membership/index.js:317-323 | everybody but the local member can be evicted |
| Memberships.Membership.Set | lib/membership/index.js:329-373 | the merged stash becomes the list: the first newest change of each remote address becomes its entry, unless it is a tombstone, and nothing else changes; nothing if ready or nothing stashed |
| Memberships.Membership.CreateMembers | lib/membership/index.js:351-361 | the members of a set, appended one by one behind those listed |
| Memberships.Membership.Shuffle | lib/membership/index.js:438-440 | a shuffle changes neither entries nor checksum |
| Merging.MergeMembershipChangesets | lib/membership/merge.js:23-52 | one change for each remote address named, and no other: the first, in list order, of those with the highest incarnation |
| Merging.WinnersOfSets | lib/membership/merge.js:28-43 | the merged index holds the first newest change of exactly the remote addresses named |
| Merging.WinnerIsSet | lib/membership/index.js:351-361 | after set() a live winner is the entry of its address, and a tombstone changes nothing |
| Merging.OthersAreKept | lib/membership/index.js:351-361 | the local member and whoever no change names keep their entries |
| Merging.HasSameChecksums | lib/gossip/join-response-merge.js:25-39 | true iff all responses carry the same truthy checksum |
| Merging.MergeJoinResponses | lib/gossip/join-response-merge.js:41-57 | nothing, the first response, or the first newest change of each remote address |
| Merging.MergeSetsLive | lib/membership/merge.js:28-43 | lists with the same non-tombstone entries merge to exactly these |
| Merging.MergeListing | lib/membership/merge.js:28-52 | merging a listing of a merged index gives that index back |
| Merging.JoinShortcut | lib/gossip/join-response-merge.js:46-50 | the shortcut is right: whatever lists set() makes of the two stashes, the entries end the same as with all responses merged |
| Merging.ShortcutIndex | lib/gossip/join-response-merge.js:46-50 | the merged indexes of both stashes hold the same live entries |
| Merging.MergeSetsRepeat | lib/membership/merge.js:28-52 | merging only repeats changes of the lists merged |
| Transitions.StateTransitions.HandleUpdate | lib/gossip/state_transitions.js:55-71 | alive and leave leave no timer; suspect, faulty and tombstone leave a timer in that status, the old one if it had it, else a pending one at the incarnation of the update, unless disabled or local; all others stay |
| Transitions.StateTransitions.Schedule | lib/gossip/state_transitions.js:96-136 | for any state: no timer when disabled or local; a timer of the same state stays as it is; another is replaced |
| Transitions.StateTransitions.Cancel | lib/gossip/state_transitions.js:138-154 | exactly that timer goes |
| Transitions.StateTransitions.Enable | lib/gossip/state_transitions.js:40-53 | timers may be armed again; none is |
| Transitions.StateTransitions.Disable | lib/gossip/state_transitions.js:156-177 | no timers are left |
| ArmedTimers.ReceiveReacts | lib/on_membership_event.js:113-121 | after a received list of distinct addresses, the address of every applied update has the timer its status calls for, and all others keep theirs |
| ArmedTimers.AllReact | lib/on_membership_event.js:113-121 | the same for any updates with distinct addresses |
| ArmedTimers.ArmedAfterUpdates | lib/on_membership_event.js:113-121 | any batch leaves a timer in the right status for every suspect, faulty and tombstone member, if there was one before |
| ArmedTimers.EnableKeepsArmedIff | lib/gossip/state_transitions.js:40-53 | enabling transitions again keeps this if and only if no such member is known |
| ArmedTimers.ArmedInRuns | lib/gossip/state_transitions.js:55-136 | in every run, a node that was not enabled again after leaving has a timer in the right status for every suspect, faulty and tombstone member |
| Disseminations.Dissemination.RecordChange | lib/gossip/dissemination.js:156-161 | the change replaces that of its address, with count 0 |
| Disseminations.Dissemination.IssueAs | lib/gossip/dissemination.js:175-219 | lists once what is neither filtered nor exhausted, and drops exactly the exhausted changes |
| Disseminations.Dissemination.Bump | lib/gossip/dissemination.js:103-110 | counts are raised for changes with equal ids only |
| Disseminations.Dissemination.IssueAsSender | lib/gossip/dissemination.js:86-90 | unfiltered issue; counts are untouched until the acknowledgement |
| Disseminations.Dissemination.OnIssue | lib/gossip/dissemination.js:90-110 | counts are raised on success only |
| Disseminations.Dissemination.IssueAsReceiver | lib/gossip/dissemination.js:113-150 | a full sync iff the checksums differ and nothing is due for the sender; else exactly the due changes go out and are counted, without those the sender made itself at its incarnation, which stay as they are |
| Disseminations.AnswerWithholds | lib/gossip/dissemination.js:142-149 | what an answer sends, counts, drops and holds back for a sender |
| Disseminations.OnlyOwnIff | lib/gossip/dissemination.js:113-124 | nothing is due for a sender if and only if it made all changes that are not exhausted |
| PingAnswers.AnswerHoldsBack | server/protocol/ping.js:63-73 | the same for the answer of a node to a ping |
| PingAnswers.OwnNewsStays | server/protocol/ping.js:63-73 | a node that applies the own news of a sender does not send it back, but keeps it to pass on |
| PingAnswers.ReceiveAnnounces | lib/on_membership_event.js:113-121 | every applied update of a list of distinct addresses is in the buffer, fresh, and nothing else changes there |
| PingAnswers.SetLocalAnnounces | lib/membership/index.js:227-257 | so is every change of the own status, under the own name and incarnation |
| Disseminations.Dissemination.TryStartReverseFullSync | lib/gossip/dissemination.js:221-245 | a job starts iff fewer than the maximum are running |
| Disseminations.Dissemination.OnReverseFullSync | lib/gossip/dissemination.js:240-244 | a finished job makes room for another |
| Disseminations.BumpedAt | lib/gossip/dissemination.js:103-110 | a list of distinct addresses raises each carried count by exactly one |
| Disseminations.RoundIsIssueAndAck | lib/gossip/dissemination.js:86-110 | an acknowledged unfiltered issue is one round: every count goes up by one, exhausted changes go |
| Disseminations.Exhaustion | lib/gossip/dissemination.js:175-219 | with no new changes, a change goes out until it has been sent the maximum number of times, and one round more empties the buffer |
| NodeModel.UpdatesAddresses | lib/membership/index.js:398-428 | distinct change lists give updates with distinct addresses, all among those of the list |
| NodeModel.TimersAfterUpdates | lib/on_membership_event.js:113-121 | after any batch, every timer waits in its current status at an incarnation no newer than the entry |
| NodeModel.BufferAfterUpdates | lib/on_membership_event.js:113-121 | after any batch, every buffered change is the current entry or the tombstone of an evicted member |
| NodeModel.RingBounds | lib/on_membership_event.js:123-149 | for any batch: who ends pingable is in the ring or added, and who is in it or added and not removed ends pingable |
| NodeModel.RingAgreesIff | lib/on_membership_event.js:123-149 | for any list: after it the ring agrees with the entries if and only if no change in it about another node is unpingable, news to everything heard before it, and about an address whose maximum over the whole list is pingable |
| NodeModel.UpdatesAreNews | lib/membership/index.js:398-428 | the remote updates of a batch are exactly the changes that override everything heard before them |
| NodeModel.RemovedMeans | lib/on_membership_event.js:123-149 | an address that ends pingable is removed exactly if such a change is about it |
| NodeModel.DuplicatesCanBreakTheRing | lib/on_membership_event.js:144-147 | a list with two changes about one address after which a live member is outside the ring |
| NodeModel.ReceiveKeeps | lib/on_membership_event.js:113-149 | with distinct addresses, a batch keeps ring, timers and buffer in step with the entries |
| NodeModel.StartIsGood | lib/membership/index.js:227-248 | a node starts in step |
| NodeModel.SetLocalKeeps | lib/membership/index.js:227-248 | a local status change, leaving included, keeps everything in step |
| NodeModel.FireDeclares | lib/gossip/state_transitions.js:73-87 | a fired suspect timer makes its member faulty and a faulty timer tombstone, only at the incarnation it was armed for, and announces that under the own name and incarnation |
| NodeModel.EvictIsInvisible | lib/gossip/state_transitions.js:89-94 | a fired tombstone timer removes a tombstone and changes neither checksum string nor ring |
| NodeModel.FireKeeps | lib/gossip/state_transitions.js:73-94 | firing any timer keeps everything in step |
| NodeModel.BootKeeps | lib/on_membership_event.js:56-80 | the bootstrap keeps everything in step |
| NodeModel.IssuedIsCurrent | lib/gossip/dissemination.js:65-80 | every list a node issues has distinct addresses and says what the node currently knows |
| Nodes.SplitByPingable | lib/on_membership_event.js:125-138 | the addresses to add and to remove |
| Nodes.Node.OnUpdatedGossip | lib/on_membership_event.js:113-121 | timers and buffer after the updates, in order |
| Nodes.Node.OnUpdatedRing | lib/on_membership_event.js:123-149 | the ring after the updates: all added, then all removed |
| Nodes.Node.OnSet | lib/on_membership_event.js:56-80 | timers and ring after the bootstrap set |
| Nodes.Node.Update | lib/membership/index.js:375-436 | membership, timers, buffer and ring together take the step Receive |
| Nodes.Node.OnLeave | lib/on_membership_event.js:45-54 | leaving disables and clears the timers |
| Nodes.Node.SetLocalStatus | lib/membership/index.js:227-257 | membership, timers, buffer and ring together take the step SetLocal |
| Nodes.Node.FireTimer | lib/gossip/state_transitions.js:73-94 | membership, timers, buffer and ring together take the step Fire |
| Nodes.Node.MakeChange | lib/membership/index.js:266-280 | a declared change runs through update and listeners, or is stashed before readiness |
| Nodes.Node.Bootstrapped | lib/membership/index.js:329-367 | set, its listener and readiness together take the step Boot; the entries are those of the first newest stashed changes |
| Nodes.Node.MembershipAsChanges | lib/gossip/dissemination.js:65-80 | lists every entry once |
| Nodes.Node.SendChanges | lib/gossip/ping-sender.js:60-79 | any changes, under the own name, incarnation and checksum |
| Nodes.Node.SendPing | lib/gossip/ping-sender.js:60-91 | the due changes go out under the own name, incarnation and checksum; exhausted ones are dropped, nothing is counted yet |
| Nodes.Node.OnPing | lib/gossip/ping-sender.js:29-58 | unless the ping failed, what was sent is counted and, if there is a callback, the changes of the reply are applied |
| Nodes.RefusedWhen | server/protocol/ping.js:29-52 | which pings are accepted, and what the others are refused with |
| Nodes.Node.HandlePing | server/protocol/ping.js:26-74 | refusals leave the node alone; else the changes are applied, the answer is issued from the new state, and a reverse job starts iff the answer was a full sync and there is room |
| Clusters.MintingGrows | lib/membership/index.js:215-219 | a newer minted state disowns nothing |
| Clusters.UpdateEntries | lib/membership/index.js:398-428 | a batch leaves known entries, entries of the batch and the own minting only |
| Clusters.ReceiveLawful | lib/membership/index.js:375-436 | receiving an owned list keeps ownership |
| Clusters.FireLawful | lib/gossip/state_transitions.js:73-94 | firing a timer keeps ownership |
| Clusters.BootLawful | lib/membership/index.js:329-367 | the bootstrap keeps ownership |
| Clusters.SentOk | lib/gossip/dissemination.js:65-80 | whatever is sent, healing suspicions included, is owned |
| Clusters.StepKeepsInv | lib/membership/index.js:227-436 | every step of a cluster keeps incarnation ownership |
| Clusters.RunKeepsInv | lib/membership/index.js:227-436 | incarnation ownership holds throughout every run |
| Clusters.Ownership | lib/membership/index.js:215-219 | in every run, nothing known or sent about x is newer than what x says about itself, and alive and leave entries repeat what x said |
| Clusters.NodesStayGood | lib/on_membership_event.js:113-149 | in every run, every node keeps ring, timers and buffer in step with its entries, and its ring holds exactly its alive and suspect members |
| Clusters.AccusedRefutes | lib/membership/index.js:405-408 | in every run, a node that receives a claim about itself that overrides its own entry has a higher incarnation and the same status in the next state |
| Clusters.OlderThanMinted | lib/membership/index.js:215-219 | in every run, whatever exists anywhere about x when x mints a state is older than that state |
| Clusters.DeliveredReaches | lib/membership/index.js:398-428 | a node that receives a list is at least as new about an address as the list, tombstones of unknown members apart |
| Clusters.EntryNeverFalls | lib/membership/index.js:398-428 | no step takes a node back to an older incarnation of another one, unless it drops the entry |
| Clusters.RememberedNeverFalls | lib/membership/index.js:398-428 | nor does any part of a run in which the node keeps the entry |
| Clusters.RefutationWins | lib/membership/index.js:405-408 | in every run: after x minted a state, any other node that later receives it, in any list, is newer about x than every claim that existed at the minting and processes none of them, from then on for as long as it keeps an entry of x |
| Healing.UnPingableMeans | lib/partition_healing/healer.js:124-146 | the healer predicts exactly when the update rules would turn an alive or suspect entry into another |
| Healing.GenerateChanges | lib/partition_healing/healer.js:85-111 | for any reply: the suspicions of both sides, claim by claim |
| Healing.GeneratedOnce | lib/partition_healing/healer.js:85-111 | from a list with one claim per entry, both lists hold exactly the conflicting members, each address once |
| Healing.HarmlessKeeps | lib/partition_healing/healer.js:124-146 | a list without a claim that makes a pingable entry unpingable leaves them all pingable, however often it repeats an address |
| Healing.ConflictOutcome | lib/partition_healing/healer.js:158-170 | suspicions lose no pingable member; conflicting members end suspect at the accuser incarnation or refute; nobody else changes |
| Healing.MergeSafeForA | lib/partition_healing/healer.js:172-175 | without conflicts the merge loses no pingable member of the healer |
| Healing.MergeSafeForB | lib/partition_healing/healer.js:172-178 | sending the merged list back is safe for the target if and only if the healer was not unpingable and refuting a newer claim about itself |
| Healing.MergeSafe | lib/partition_healing/healer.js:172-178 | so it is safe if nobody knows a newer incarnation of the healer than the healer |
| Healing.MergeAgrees | lib/partition_healing/healer.js:172-178 | after the merge both sides have the same live entries, except for a refutation by the target |
| Healers.Healer.ProcessChanges | lib/partition_healing/healer.js:148-178 | what is applied here and what is sent |
| Healers.Healer.AttemptHeal | lib/partition_healing/healer.js:82-178 | with conflicts both sides get suspicions only; without, each gets the whole list of the other |
| Healers.AnyReplyIsSafe | lib/partition_healing/healer.js:82-178 | whatever the target replies, the healer loses no pingable member |
| HealAttempts.FullSyncIff | lib/gossip/dissemination.js:113-124 | a ping whose changes have no source incarnation is answered with a full sync if and only if it holds no news, the target has nothing to issue and the checksums differ |
| HealAttempts.SuspicionsAreNewsIff | lib/partition_healing/healer.js:115-122 | suspicions are no news to the target if and only if every conflicting member is suspect there at the accuser incarnation already |
| HealAttempts.HealPingFullSyncIff | lib/partition_healing/healer.js:115-122 | so suspicions do start a full sync, exactly then, if the target has nothing to issue and the checksums differ |
| HealAttempts.MergeNeverSyncs | lib/partition_healing/healer.js:172-178 | a merged list holds news for the target or leaves equal checksums: it never starts a full sync, given that the clock of the healer is ahead of what the target knows about it |
| HealAttempts.MergeNeverSyncsInRuns | lib/partition_healing/healer.js:172-178 | in every run of a cluster |
| HealAttempts.ResyncOutcome | lib/gossip/dissemination.js:247-286 | the reverse job makes exactly the conflicting members unpingable at the target, itself apart |
| HealAttempts.HealMarksSuspects | lib/partition_healing/healer.js:85-170 | at the healer, conflicting members end suspect at the accuser incarnation or refute, and nobody else moves; so they do at a target that takes the ping, unless a reverse job undoes it |
| HealAttempts.HealIsSafe | lib/partition_healing/healer.js:82-178 | if nobody knows a newer incarnation of the healer than the healer: no attempt makes a pingable member unpingable at the healer; none does so at the target, its handling of the ping and the reverse job included, if and only if no reverse job takes place while a member other than the target is in conflict |
| HealAttempts.HealAgrees | lib/partition_healing/healer.js:172-178 | a conflict-free attempt on a target that takes the ping leaves equal live entries, self-refutations apart |
| HealAttempts.HealIsSafeInRuns | lib/partition_healing/healer.js:82-178 | in every run of a cluster, the same condition decides for attempts between any two of its nodes |
| HealAttempts.UndoneAt | lib/partition_healing/healer.js:115-122 | with no conflict at the healer and a reverse job, every other conflicting member of the target ends as the healer has it |
| HealAttempts.RepeatedHealIsUndone | lib/partition_healing/healer.js:115-122 | an input on which that happens: the second attempt, with the suspicion in place and exhausted, makes the member faulty at the target |
| Exchanges.ListingMeets | lib/membership/index.js:375-436 | a full list of distinct addresses has the same effect in any order |
| FullSyncs.FullSyncStarts | lib/gossip/dissemination.js:113-124 | a ping without changes to a node with an empty buffer and another checksum is answered with every entry |
| FullSyncs.FullSyncSaysAll | lib/gossip/dissemination.js:65-80 | it says what the node knows about each member, in its own name, without an incarnation of its own |
| FullSyncs.PingConverges | lib/gossip/dissemination.js:113-124 | the whole exchange: A pings B, both buffers empty and the checksums different; B answers with a full sync and runs its reverse job, and both end with the same checksum string and checksum, unless a list overrides the own entry of its receiver |
| FullSyncs.ConvergesIff | lib/gossip/dissemination.js:247-286 | exactly when it does: unless a node refutes and the other does not hear of it; a late reply lets the target hear |
| FullSyncs.PingConvergesIff | lib/gossip/dissemination.js:113-124 | the same condition for the whole exchange, from the ping to the reverse job |
| FullSyncs.PingStringsConvergeIff | lib/gossip/dissemination.js:113-124 | and for equal checksum strings, if no address holds a semicolon |
| Refinements.PingIsSteps | server/protocol/ping.js:63-73 | a handled ping is a run of cluster steps, so ownership and agreement hold across it |
| Refinements.SendIsStep | lib/gossip/ping-sender.js:81-91 | sending a ping is a cluster step that puts its changes in flight |
| Refinements.ReplyIsSteps | lib/gossip/ping-sender.js:29-58 | counting what was sent and applying the reply is a run of cluster steps |
| Refinements.BootIsSteps | lib/membership/index.js:329-373 | merging the join responses, stashing the merge and the bootstrap are a run of cluster steps |
| Refinements.HealIsSteps | lib/partition_healing/healer.js:82-178 | a heal attempt is a run of cluster steps |
| Refinements.LeadsKeepsInv | lib/membership/index.js:227-436 | any run of steps between two clusters keeps ownership |
| FullSyncs.Convergence | lib/gossip/dissemination.js:247-286 | after both exchanges the two nodes generate the same checksum string, whether the join reply was taken before or after the update |
| Probes.MembershipIterator.Next | lib/membership/iterator.js:29-52 | ends; null iff nobody else is alive or suspect; otherwise such a member, the next of the pass, reshuffling only when none is left |
| Probes.MembershipIterator.Visit | lib/membership/iterator.js:33-47 | one round of the loop, which shuffles at most once per call |
| Probes.ListIsRound | lib/membership/iterator.js:36-40 | any shuffle holds every pingable member once |
| Probes.LeftFits | lib/membership/iterator.js:29-52 | what is left of a pass never exceeds the pingable members |
| Probes.OrderIsRound | lib/membership/iterator.js:36-40 | so does any order that a later call may shuffle to |
| Probes.CallRepeatedly | lib/membership/iterator.js:29-52 | successive calls of next, each with any shuffle at hand, return the passes of the next two rows, and each pingable member within any 2P - 1 calls after the first |
| Probes.CallsAreFair | lib/membership/iterator.js:29-52 | every series of such calls returns each pingable member within any 2P - 1 calls after the first |
| Probes.PassVisitsAll | lib/membership/iterator.js:29-52 | each pass returns every pingable member exactly once, in shuffle order |
| Probes.Recurs | lib/membership/iterator.js:29-52 | with P pingable members, each is returned within any 2P - 1 further calls |
| Damping.Fanout.OnDampReq | lib/gossip/damper.js:429-466 | the state after one reply |
| Damping.DecisionSoFar | lib/gossip/damper.js:424-466 | at any moment: success as soon as rVal replies succeeded, failure as soon as that is out of reach, else no decision |
| Damping.ExactlyOneDecision | lib/gossip/damper.js:405-468 | one reply per member gives exactly one decision, a success iff at least rVal replies succeed, with the first rVal of them |
| Damping.GroupDampScoresByFlapper | lib/gossip/damper.js:68-87 | each reported member with all its scores in order |
| Damping.FindFlappersToDamp | lib/gossip/damper.js:89-113 | exactly the members with at least rVal scores, all at or above the limit |
| Damping.GetMembersToDamp | lib/gossip/damper.js:117-121 | selection, for any responses |
| Damping.QuorumIff | lib/gossip/damper.js:89-113 | for any rVal responses: selection means that all of them reported the member at or above the limit, except exactly when one does not name it and the others name it often enough |
| Damping.Quorum | lib/gossip/damper.js:89-113 | so it means that if no response names the member twice |
| Damping.RepeatedScoresCount | lib/gossip/damper.js:80-81 | an input on which it does not: one response naming a member twice counts twice |
| Damping.CollectDampScores | lib/membership/index.js:49-59 | what a responder answers: a score for each address it knows, in order |
| Damping.CollectedOnce | lib/membership/index.js:49-59 | asked about distinct addresses, a responder names each at most once |
| Damping.DampingDecision | lib/gossip/damper.js:405-468 | one reply per contacted member, each collected so: exactly one decision, and after a success a member is selected if and only if all of the first rVal successful responders reported it at or above the limit |

## Left out

- TChannel, HTTP proxying, admin endpoints, tracing, logging, stats, events without listeners in the core and configuration: wiring.
- Farmhash itself and the wire encoding of tombstones: the hash is an arbitrary function, the encoding the identity.
- Real timers, clocks and randomness: steps, clock readings and arbitrary orders.
- The `index` field of a replica point: nothing reads it.
- String order is by character, as in JavaScript by UTF-16 code unit; other encodings are not modelled.
- `maxPiggybackCount` is any number: its size from the server count (`lib/gossip/dissemination.js:42-59`) is not computed.
- Damp scores and their decay (`lib/membership/member.js:68-103`, `137-161`), and the flapper and damped-member tables of the damper.
- The order in which JavaScript visits object keys: the loops over keys take them in any order.
- Object keys that clash with JavaScript prototypes, statuses outside the five of `Member.Status`, and restarts that reuse an incarnation number.
- The join requests and their retries, and the ping-req, heal-scheduling and self-evict drivers: only their effects appear, as the steps Bootstrap, Accuse, Suspicions and LocalStatus of `Clusters`.
- The host list that a heal attempt reports back (`lib/partition_healing/healer.js:180-192`).
- The loop body of `insert` is split into helper methods, and the loop stops right after placing a new node, where the source compares that node with the key and stops one test later.
- RBRemove.Rebalance: the colour assignments and links of one iteration are grouped into helper methods by case.
- Memberships.Membership.Set: none of the live members in the stash is listed yet, which `Nodes.Node.Valid` guarantees from construction on; `set()` is called once, at the end of the bootstrap (`lib/membership/index.js:325-328`), and would list such a member twice.
- Memberships.Membership.CreateMembers: the same condition.
- FullSyncs.Convergence: stated for lists that do not override the own entry of the receiving node; `FullSyncs.PingConvergesIff` says what happens otherwise.
- HealAttempts.HealIsSafe: healer and target take no other step between the reply of the target and the end of the attempt, its reverse job included.
- HealAttempts.HealMarksSuspects: the same.
- Probes.Recurs: stated for unchanged membership.
