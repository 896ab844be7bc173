/** The damping quorum (lib/gossip/damper.js:68-121, 405-468). */
module Damping {
  import opened Wrappers

  datatype Score = Score(member: string, dampScore: int)

  /** A damp-req response; `scores` may be missing. */
  datatype Response = Response(dampReqAddr: string, scores: Option<seq<Score>>)

  datatype Reply = Failed(err: string) | Answered(res: Response)

  /** What the fan-out's callback is called with. */
  datatype Decision = Success(results: seq<Response>) | Unattainable(errors: seq<string>)

  // ---- the fan-out ----

  class Fanout {
    const rVal: nat
    var numPendingReqs: int
    var errors: seq<string>
    var results: seq<Response>
    /** Every call of the callback; once there is one, `callback` is null. */
    var decisions: seq<Decision>

    constructor (contacted: nat, rVal: nat)
      ensures this.rVal == rVal && State() == Pending(contacted, [], [], [])
    {
      this.rVal, numPendingReqs, errors, results, decisions := rVal, contacted, [], [], [];
    }

    function State(): Progress
      reads this
    {
      Pending(numPendingReqs, errors, results, decisions)
    }

    /** `onDampReq` */
    method OnDampReq(reply: Reply)
      modifies this
      ensures State() == Replied(old(State()), rVal, reply)
    {
      if decisions != [] {
        return;
      }
      numPendingReqs := numPendingReqs - 1;
      match reply {
        case Failed(err) => errors := errors + [err];
        case Answered(res) => results := results + [res];
      }
      if |results| >= rVal {
        decisions := decisions + [Success(results)];
        return;
      }
      if numPendingReqs < rVal - |results| {
        decisions := decisions + [Unattainable(errors)];
        return;
      }
    }
  }

  datatype Progress = Pending(pending: int, errors: seq<string>, results: seq<Response>, decisions: seq<Decision>)

  function Replied(p: Progress, rVal: nat, reply: Reply): Progress {
    if p.decisions != [] then p
    else
      var errors := if reply.Failed? then p.errors + [reply.err] else p.errors;
      var results := if reply.Answered? then p.results + [reply.res] else p.results;
      var pending := p.pending - 1;
      Pending(pending, errors, results,
              if |results| >= rVal then [Success(results)]
              else if pending < rVal - |results| then [Unattainable(errors)]
              else [])
  }

  /** All replies so far, in the order they came in. */
  function AllReplied(contacted: nat, rVal: nat, replies: seq<Reply>): Progress {
    if replies == [] then Pending(contacted, [], [], [])
    else Replied(AllReplied(contacted, rVal, replies[..|replies| - 1]), rVal, replies[|replies| - 1])
  }

  function Successes(replies: seq<Reply>): seq<Response> {
    if replies == [] then []
    else
      var s := Successes(replies[..|replies| - 1]);
      if replies[|replies| - 1].Answered? then s + [replies[|replies| - 1].res] else s
  }

  function Failures(replies: seq<Reply>): seq<string> {
    if replies == [] then []
    else
      var s := Failures(replies[..|replies| - 1]);
      if replies[|replies| - 1].Failed? then s + [replies[|replies| - 1].err] else s
  }

  lemma {:induction false} RepliesSplit(replies: seq<Reply>)
    ensures |Successes(replies)| + |Failures(replies)| == |replies|
  {
    if replies != [] { RepliesSplit(replies[..|replies| - 1]); }
  }

  /** At any moment, whatever the order of the replies: the callback has been called with the first rVal
      successes as soon as there are that many, with an error as soon as they are out of reach, and else not. */
  lemma {:induction false} DecisionSoFar(contacted: nat, rVal: nat, replies: seq<Reply>)
    requires 1 <= rVal <= contacted && |replies| <= contacted
    ensures var p, s, f := AllReplied(contacted, rVal, replies), Successes(replies), Failures(replies);
            if |s| >= rVal then p.decisions == [Success(s[..rVal])]
            else if |f| > contacted - rVal then p.decisions == [Unattainable(f[..contacted - rVal + 1])]
            else p == Pending(contacted - |replies|, f, s, [])
  {
    if replies == [] {
    } else {
      var rest, k := replies[..|replies| - 1], contacted - rVal + 1;
      DecisionSoFar(contacted, rVal, rest);
      RepliesSplit(rest);
      RepliesSplit(replies);
      var s, f := Successes(replies), Failures(replies);
      assert Successes(rest) <= s && Failures(rest) <= f;
      assert |Successes(rest)| >= rVal ==> s[..rVal] == Successes(rest)[..rVal];
      assert |Failures(rest)| >= k ==> f[..k] == Failures(rest)[..k];
      assert |s| == rVal ==> s[..rVal] == s;
      assert |f| == k ==> f[..k] == f;
    }
  }

  /** With one reply per contacted member, the callback is called exactly once, and succeeds if and only if at
      least rVal replies do; it then gets the first rVal of them. */
  lemma ExactlyOneDecision(contacted: nat, rVal: nat, replies: seq<Reply>)
    requires 1 <= rVal <= contacted && |replies| == contacted
    ensures var d := AllReplied(contacted, rVal, replies).decisions;
            && |d| == 1 && (d[0].Success? <==> |Successes(replies)| >= rVal)
            && (d[0].Success? ==> d[0].results == Successes(replies)[..rVal])
  {
    DecisionSoFar(contacted, rVal, replies);
    RepliesSplit(replies);
  }

  // ---- selection ----

  /** The scores that a list gives a member, in order. */
  function ScoresIn(scores: seq<Score>, m: string): seq<int> {
    if scores == [] then []
    else
      var s := ScoresIn(scores[..|scores| - 1], m);
      if scores[|scores| - 1].member == m then s + [scores[|scores| - 1].dampScore] else s
  }

  function ListOf(r: Response): seq<Score> {
    if r.scores.Some? then r.scores.value else []
  }

  /** The scores that all responses give a member. */
  function ScoresOf(all: seq<Response>, m: string): seq<int> {
    if all == [] then [] else ScoresOf(all[..|all| - 1], m) + ScoresIn(ListOf(all[|all| - 1]), m)
  }

  ghost predicate Groups(g: map<string, seq<int>>, scoresOf: string -> seq<int>) {
    forall m :: (m in g <==> scoresOf(m) != []) && (m in g ==> g[m] == scoresOf(m))
  }

  /** `groupDampScoresByFlapper` */
  method GroupDampScoresByFlapper(allResponses: seq<Response>) returns (dampScoresByFlapper: map<string, seq<int>>)
    ensures Groups(dampScoresByFlapper, m => ScoresOf(allResponses, m))
  {
    dampScoresByFlapper := map[];
    for i := 0 to |allResponses|
      invariant Groups(dampScoresByFlapper, m => ScoresOf(allResponses[..i], m))
    {
      assert allResponses[..i + 1][..i] == allResponses[..i];
      if allResponses[i].scores.None? {
        continue;
      }
      dampScoresByFlapper := AddScores(dampScoresByFlapper, allResponses[i].scores.value,
        m => ScoresOf(allResponses[..i], m));
    }
    assert allResponses[..|allResponses|] == allResponses;
  }

  method AddScores(grouped: map<string, seq<int>>, responseScores: seq<Score>, ghost before: string -> seq<int>)
    returns (g: map<string, seq<int>>)
    requires Groups(grouped, before)
    ensures Groups(g, m => before(m) + ScoresIn(responseScores, m))
  {
    g := grouped;
    for j := 0 to |responseScores|
      invariant Groups(g, m => before(m) + ScoresIn(responseScores[..j], m))
    {
      assert responseScores[..j + 1][..j] == responseScores[..j];
      var score := responseScores[j];
      g := g[score.member := (if score.member in g then g[score.member] else []) + [score.dampScore]];
    }
    assert responseScores[..|responseScores|] == responseScores;
  }

  predicate AllExceed(scores: seq<int>, suppressLimit: int) {
    forall k :: 0 <= k < |scores| ==> scores[k] >= suppressLimit
  }

  /** `findFlappersToDamp` */
  method FindFlappersToDamp(dampScoresByFlapper: map<string, seq<int>>, rVal: nat, suppressLimit: int)
    returns (membersToDamp: seq<string>)
    ensures forall m :: m in membersToDamp <==>
              m in dampScoresByFlapper && |dampScoresByFlapper[m]| >= rVal
              && AllExceed(dampScoresByFlapper[m], suppressLimit)
    ensures forall i, j :: 0 <= i < j < |membersToDamp| ==> membersToDamp[i] != membersToDamp[j]
  {
    membersToDamp := [];
    var flapperAddrs := dampScoresByFlapper.Keys;
    while flapperAddrs != {}
      invariant flapperAddrs <= dampScoresByFlapper.Keys
      invariant forall m :: m in membersToDamp <==>
                  m in dampScoresByFlapper.Keys - flapperAddrs && |dampScoresByFlapper[m]| >= rVal
                  && AllExceed(dampScoresByFlapper[m], suppressLimit)
      invariant forall i, j :: 0 <= i < j < |membersToDamp| ==> membersToDamp[i] != membersToDamp[j]
      decreases flapperAddrs
    {
      var a :| a in flapperAddrs;
      var scores := dampScoresByFlapper[a];
      if |scores| >= rVal && AllExceed(scores, suppressLimit) {
        membersToDamp := membersToDamp + [a];
      }
      flapperAddrs := flapperAddrs - {a};
    }
  }

  /** `getMembersToDamp` */
  method GetMembersToDamp(allResponses: seq<Response>, rVal: nat, suppressLimit: int)
    returns (membersToDamp: seq<string>)
    ensures forall m :: m in membersToDamp <==> Selected(allResponses, rVal, suppressLimit, m)
  {
    var grouped := GroupDampScoresByFlapper(allResponses);
    membersToDamp := FindFlappersToDamp(grouped, rVal, suppressLimit);
  }

  /** A member is selected by the number and size of its scores, whoever gave them. */
  predicate Selected(all: seq<Response>, rVal: nat, suppressLimit: int, m: string) {
    var scores := ScoresOf(all, m);
    scores != [] && |scores| >= rVal && AllExceed(scores, suppressLimit)
  }

  ghost predicate OncePerResponse(all: seq<Response>, m: string) {
    forall i :: 0 <= i < |all| ==> |ScoresIn(ListOf(all[i]), m)| <= 1
  }

  /** The responder reported the member, at or above the limit each time. */
  predicate Reported(r: Response, suppressLimit: int, m: string) {
    ScoresIn(ListOf(r), m) != [] && AllExceed(ScoresIn(ListOf(r), m), suppressLimit)
  }

  lemma {:induction false} ScoresBound(all: seq<Response>, suppressLimit: int, m: string)
    requires OncePerResponse(all, m)
    ensures |ScoresOf(all, m)| <= |all|
    ensures |ScoresOf(all, m)| == |all| && AllExceed(ScoresOf(all, m), suppressLimit) <==>
            forall i :: 0 <= i < |all| ==> Reported(all[i], suppressLimit, m)
  {
    if all == [] {
    } else {
      var rest, last := all[..|all| - 1], all[|all| - 1];
      ScoresBound(rest, suppressLimit, m);
      AllExceedConcat(ScoresOf(rest, m), ScoresIn(ListOf(last), m), suppressLimit);
      forall i | 0 <= i < |rest| ensures all[i] == rest[i] {}
      assert (forall i :: 0 <= i < |all| ==> Reported(all[i], suppressLimit, m)) <==>
             (forall i :: 0 <= i < |rest| ==> Reported(rest[i], suppressLimit, m)) && Reported(last, suppressLimit, m);
    }
  }

  lemma AllExceedConcat(a: seq<int>, b: seq<int>, limit: int)
    ensures AllExceed(a + b, limit) <==> AllExceed(a, limit) && AllExceed(b, limit)
  {
    forall k | 0 <= k < |a| ensures (a + b)[k] == a[k] {}
    forall k | 0 <= k < |b| ensures (a + b)[|a| + k] == b[k] {}
  }

  ghost predicate AllReported(all: seq<Response>, suppressLimit: int, m: string) {
    forall i :: 0 <= i < |all| ==> Reported(all[i], suppressLimit, m)
  }

  /** The member is selected although some responder did not report it at all. */
  ghost predicate OverCounted(all: seq<Response>, rVal: nat, suppressLimit: int, m: string) {
    && (exists i :: 0 <= i < |all| && ScoresIn(ListOf(all[i]), m) == [])
    && |ScoresOf(all, m)| >= rVal && AllExceed(ScoresOf(all, m), suppressLimit)
  }

  /** All scores exceed the limit exactly if those of every responder do. */
  lemma {:induction false} ScoresByResponder(all: seq<Response>, suppressLimit: int, m: string)
    ensures AllExceed(ScoresOf(all, m), suppressLimit) <==>
            forall i :: 0 <= i < |all| ==> AllExceed(ScoresIn(ListOf(all[i]), m), suppressLimit)
  {
    if all == [] {
    } else {
      var rest, last := all[..|all| - 1], all[|all| - 1];
      ScoresByResponder(rest, suppressLimit, m);
      AllExceedConcat(ScoresOf(rest, m), ScoresIn(ListOf(last), m), suppressLimit);
      forall i | 0 <= i < |rest| ensures all[i] == rest[i] {}
      assert (forall i :: 0 <= i < |all| ==> AllExceed(ScoresIn(ListOf(all[i]), m), suppressLimit)) <==>
             (forall i :: 0 <= i < |rest| ==> AllExceed(ScoresIn(ListOf(rest[i]), m), suppressLimit))
             && AllExceed(ScoresIn(ListOf(last), m), suppressLimit);
    }
  }

  /** If every responder names the member, that is at least one score each. */
  lemma {:induction false} ScoresCount(all: seq<Response>, m: string)
    requires forall i :: 0 <= i < |all| ==> ScoresIn(ListOf(all[i]), m) != []
    ensures |ScoresOf(all, m)| >= |all|
  {
    if all == [] {
    } else {
      ScoresCount(all[..|all| - 1], m);
    }
  }

  /** Exactly when selection means that all of the first rVal successful responders reported the member at or
      above the limit: unless others' repeated scores make up for a responder that did not report it. */
  lemma QuorumIff(all: seq<Response>, rVal: nat, suppressLimit: int, m: string)
    requires |all| == rVal >= 1
    ensures (Selected(all, rVal, suppressLimit, m) <==> AllReported(all, suppressLimit, m)) <==>
            !OverCounted(all, rVal, suppressLimit, m)
  {
    ScoresByResponder(all, suppressLimit, m);
    if AllReported(all, suppressLimit, m) {
      forall i | 0 <= i < |all| ensures ScoresIn(ListOf(all[i]), m) != [] {
        assert Reported(all[i], suppressLimit, m);
      }
      ScoresCount(all, m);
    }
  }

  /** In particular if each responder names the member at most once. */
  lemma Quorum(all: seq<Response>, rVal: nat, suppressLimit: int, m: string)
    requires |all| == rVal >= 1 && OncePerResponse(all, m)
    ensures Selected(all, rVal, suppressLimit, m) <==> AllReported(all, suppressLimit, m)
  {
    ScoresBound(all, suppressLimit, m);
  }

  // ---- what the responders answer ----

  /** The scores a node answers with: one for each address that it knows. */
  function CollectedScores(known: map<string, int>, addresses: seq<string>): seq<Score> {
    if addresses == [] then []
    else
      var a := addresses[|addresses| - 1];
      var scores := CollectedScores(known, addresses[..|addresses| - 1]);
      if a in known then scores + [Score(a, known[a])] else scores
  }

  /** `collectDampScores` (lib/membership/index.js:49-59), from the damp scores of the members by address. */
  method CollectDampScores(known: map<string, int>, memberAddresses: seq<string>) returns (result: seq<Score>)
    ensures result == CollectedScores(known, memberAddresses)
  {
    result := [];
    for i := 0 to |memberAddresses|
      invariant result == CollectedScores(known, memberAddresses[..i])
    {
      assert memberAddresses[..i + 1][..i] == memberAddresses[..i];
      var address := memberAddresses[i];
      if address in known {
        result := result + [Score(address, known[address])];
      }
    }
    assert memberAddresses[..|memberAddresses|] == memberAddresses;
  }

  ghost predicate DistinctNames(names: seq<string>) {
    forall i, j :: 0 <= i < j < |names| ==> names[i] != names[j]
  }

  /** A node answers once for each distinct address it knows, and for nobody else. */
  lemma {:induction false} CollectedOnce(known: map<string, int>, addresses: seq<string>, m: string)
    requires DistinctNames(addresses)
    ensures ScoresIn(CollectedScores(known, addresses), m) == if m in addresses && m in known then [known[m]] else []
  {
    if addresses == [] {
    } else {
      var rest, a := addresses[..|addresses| - 1], addresses[|addresses| - 1];
      CollectedOnce(known, rest, m);
      assert addresses == rest + [a];
      assert a !in rest;
      var scores := CollectedScores(known, rest);
      if a in known {
        assert (scores + [Score(a, known[a])])[..|scores|] == scores;
      }
    }
  }

  /** A successful reply is what some node collected for the flappers asked about. */
  ghost predicate Honest(reply: Reply, flapperAddrs: seq<string>) {
    reply.Answered? ==> exists known: map<string, int> :: reply.res.scores == Some(CollectedScores(known, flapperAddrs))
  }

  lemma {:induction false} SuccessesHonest(replies: seq<Reply>, flapperAddrs: seq<string>, m: string)
    requires DistinctNames(flapperAddrs) && forall i :: 0 <= i < |replies| ==> Honest(replies[i], flapperAddrs)
    ensures OncePerResponse(Successes(replies), m)
  {
    if replies == [] {
    } else {
      var rest, last := replies[..|replies| - 1], replies[|replies| - 1];
      forall i | 0 <= i < |rest| ensures Honest(rest[i], flapperAddrs) { assert rest[i] == replies[i]; }
      SuccessesHonest(rest, flapperAddrs, m);
      assert Honest(last, flapperAddrs);
      if last.Answered? {
        var known: map<string, int> :| last.res.scores == Some(CollectedScores(known, flapperAddrs));
        CollectedOnce(known, flapperAddrs, m);
      }
    }
  }

  /** The whole subprotocol: with one reply per contacted member, in any order, there is one decision. It is a
      success iff at least rVal replies succeed, and then a member is selected iff all of the first rVal
      successful responders reported it at or above the limit. */
  lemma DampingDecision(contacted: nat, rVal: nat, replies: seq<Reply>, flapperAddrs: seq<string>, limit: int,
                        m: string)
    requires 1 <= rVal <= contacted && |replies| == contacted && DistinctNames(flapperAddrs)
    requires forall i :: 0 <= i < |replies| ==> Honest(replies[i], flapperAddrs)
    ensures var d, s := AllReplied(contacted, rVal, replies).decisions, Successes(replies);
            && |d| == 1 && (d[0].Success? <==> |s| >= rVal)
            && (d[0].Success? ==> (Selected(d[0].results, rVal, limit, m) <==> AllReported(s[..rVal], limit, m)))
  {
    var s := Successes(replies);
    ExactlyOneDecision(contacted, rVal, replies);
    SuccessesHonest(replies, flapperAddrs, m);
    if |s| >= rVal {
      forall i | 0 <= i < rVal ensures s[..rVal][i] == s[i] {}
      Quorum(s[..rVal], rVal, limit, m);
    }
  }

  /** A responder that names a member twice counts twice: one response alone can meet a quorum of two. */
  lemma RepeatedScoresCount(m: string, limit: int)
    ensures var all := [Response("a", Some([Score(m, limit), Score(m, limit)])), Response("b", Some([]))];
            Selected(all, 2, limit, m) && !Reported(all[1], limit, m) && OverCounted(all, 2, limit, m)
  {
    var twice := [Score(m, limit), Score(m, limit)];
    var all := [Response("a", Some(twice)), Response("b", Some([]))];
    assert twice[..1] == [Score(m, limit)] && twice[..0] == [];
    assert ScoresIn(twice[..1], m) == [limit];
    assert ScoresIn(twice, m) == [limit, limit];
    assert all[..1] == [all[0]] && all[..1][..0] == [];
    assert ScoresOf(all[..1], m) == [limit, limit];
    assert ScoresIn(ListOf(all[1]), m) == [];
  }
}
