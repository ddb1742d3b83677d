/** The instant-runoff rules, stated on the positions of the ballots and on the log of the rounds, without
    reference to how the count is computed; and that the count is the one outcome that follows them. */
module RunoffRules {
  import opened Wrappers
  import opened Sets
  import opened InstantRunoff

  predicate IsFirst(prefs: seq<int>, standing: set<nat>, c: nat, k: nat)
    requires k < |prefs|
  {
    prefs[k] == c && forall j | 0 <= j < k :: prefs[j] !in standing
  }

  /** The candidate stands, and the ballot puts nobody before it who stands. */
  predicate CountsFor(prefs: seq<int>, standing: set<nat>, c: nat) {
    c in standing && exists k | 0 <= k < |prefs| :: IsFirst(prefs, standing, c, k)
  }

  ghost function BallotsFor(rankings: seq<seq<int>>, standing: set<nat>, c: nat): set<nat> {
    set i: nat | i < |rankings| && CountsFor(rankings[i], standing, c)
  }

  /** The ballots that name someone who stands. */
  ghost function ActiveBallots(rankings: seq<seq<int>>, standing: set<nat>): set<nat> {
    set i: nat | i < |rankings| && exists k :: 0 <= k < |rankings[i]| && rankings[i][k] in standing
  }

  predicate HasMajority(round: Round, c: nat) {
    c in round.counts && 2 * round.counts[c] > round.totalActive
  }

  ghost predicate IsDecided(round: Round) {
    exists c: nat :: HasMajority(round, c)
  }

  /** Every ballot counts for its first candidate who stands. If nobody has more than half of the active ballots,
      all who have the fewest are eliminated. */
  ghost predicate IsRound(rankings: seq<seq<int>>, standing: set<nat>, round: Round) {
    && |standing| > 1 && round.counts.Keys == standing
    && (forall c | c in standing :: round.counts[c] == |BallotsFor(rankings, standing, c)|)
    && round.totalActive == |ActiveBallots(rankings, standing)|
    && round.eliminated == if IsDecided(round) then {}
                           else set c | c in standing && forall d | d in standing :: round.counts[c] <= round.counts[d]
  }

  /** Who stands when the given number of rounds are over. */
  function StandingAfter(active: set<nat>, rounds: seq<Round>, i: nat): set<nat>
    requires i <= |rounds|
  {
    if i == 0 then active else rounds[i - 1].counts.Keys - rounds[i - 1].eliminated
  }

  /** Round i follows the rules, and the count goes on after it only if nobody has a majority. */
  ghost predicate FollowsAt(rankings: seq<seq<int>>, active: set<nat>, rounds: seq<Round>, i: nat)
    requires i < |rounds|
  {
    && IsRound(rankings, StandingAfter(active, rounds, i), rounds[i])
    && (i + 1 < |rounds| ==> !IsDecided(rounds[i]))
  }

  /** Who has a majority in the last round wins; if nobody has, at most one candidate is left, who wins. */
  ghost predicate EndsWith(active: set<nat>, rounds: seq<Round>, winner: Option<nat>) {
    var end := |rounds|;
    if end > 0 && IsDecided(rounds[end - 1]) then winner.Some? && HasMajority(rounds[end - 1], winner.value)
    else
      && |StandingAfter(active, rounds, end)| <= 1
      && (winner.Some? ==> winner.value in StandingAfter(active, rounds, end))
      && (winner == None ==> StandingAfter(active, rounds, end) == {})
  }

  ghost predicate FollowsRules(rankings: seq<seq<int>>, active: set<nat>, outcome: Outcome) {
    && (forall i | 0 <= i < |outcome.rounds| :: FollowsAt(rankings, active, outcome.rounds, i))
    && EndsWith(active, outcome.rounds, outcome.winner)
  }

  // ---------- votes are ballots ----------

  lemma {:induction false} FirstActiveIsFirst(prefs: seq<int>, standing: set<nat>, c: nat)
    ensures FirstActive(prefs, standing) == Some(c) <==> CountsFor(prefs, standing, c)
    ensures FirstActive(prefs, standing).Some? <==> exists k :: 0 <= k < |prefs| && prefs[k] in standing
  {
    if prefs == [] {
    } else if prefs[0] in standing {
      if prefs[0] == c {
        assert IsFirst(prefs, standing, c, 0);
      }
    } else {
      FirstActiveIsFirst(prefs[1..], standing, c);
      if k :| 0 <= k < |prefs| - 1 && IsFirst(prefs[1..], standing, c, k) {
        assert IsFirst(prefs, standing, c, k + 1);
      }
      if k :| 0 <= k < |prefs| && IsFirst(prefs, standing, c, k) && c in standing {
        assert IsFirst(prefs[1..], standing, c, k - 1);
      }
      if k :| 0 <= k < |prefs| && prefs[k] in standing {
        assert prefs[1..][k - 1] == prefs[k];
      }
    }
  }

  lemma OneMoreBallot(rankings: seq<seq<int>>, prefs: seq<int>, standing: set<nat>, c: nat)
    ensures |BallotsFor(rankings + [prefs], standing, c)|
            == |BallotsFor(rankings, standing, c)| + (if CountsFor(prefs, standing, c) then 1 else 0)
  {
    if CountsFor(prefs, standing, c) {
      assert BallotsFor(rankings + [prefs], standing, c) == BallotsFor(rankings, standing, c) + {|rankings|};
    } else {
      assert BallotsFor(rankings + [prefs], standing, c) == BallotsFor(rankings, standing, c);
    }
  }

  lemma OneMoreActive(rankings: seq<seq<int>>, prefs: seq<int>, standing: set<nat>)
    ensures |ActiveBallots(rankings + [prefs], standing)|
            == |ActiveBallots(rankings, standing)|
               + (if exists k :: 0 <= k < |prefs| && prefs[k] in standing then 1 else 0)
  {
    if exists k :: 0 <= k < |prefs| && prefs[k] in standing {
      assert ActiveBallots(rankings + [prefs], standing) == ActiveBallots(rankings, standing) + {|rankings|};
    } else {
      assert ActiveBallots(rankings + [prefs], standing) == ActiveBallots(rankings, standing);
    }
  }

  lemma {:induction false} VotesAreBallots(rankings: seq<seq<int>>, standing: set<nat>, c: nat)
    ensures Votes(rankings, standing, {c}) == |BallotsFor(rankings, standing, c)|
  {
    if rankings == [] {
    } else {
      var last := |rankings| - 1;
      VotesAreBallots(rankings[..last], standing, c);
      OneMoreBallot(rankings[..last], rankings[last], standing, c);
      FirstActiveIsFirst(rankings[last], standing, c);
      assert rankings == rankings[..last] + [rankings[last]];
    }
  }

  lemma FirstActiveStands(prefs: seq<int>, standing: set<nat>)
    ensures VoteFor(prefs, standing, standing)
            == if exists k :: 0 <= k < |prefs| && prefs[k] in standing then 1 else 0
  {
    var first := FirstActive(prefs, standing);
    FirstActiveIsFirst(prefs, standing, if first.Some? then first.value else 0);
  }

  lemma {:induction false} ActiveAreBallots(rankings: seq<seq<int>>, standing: set<nat>)
    ensures Votes(rankings, standing, standing) == |ActiveBallots(rankings, standing)|
  {
    if rankings == [] {
    } else {
      var last := |rankings| - 1;
      ActiveAreBallots(rankings[..last], standing);
      OneMoreActive(rankings[..last], rankings[last], standing);
      FirstActiveStands(rankings[last], standing);
      assert rankings == rankings[..last] + [rankings[last]];
    }
  }

  // ---------- the count follows the rules ----------

  /** The counts of a round are right. */
  ghost predicate AreRoundCounts(rankings: seq<seq<int>>, standing: set<nat>, round: Round) {
    && AreCounts(rankings, standing, round.counts)
    && round.totalActive == Votes(rankings, standing, standing)
  }

  lemma CountsAreBallots(rankings: seq<seq<int>>, standing: set<nat>, round: Round)
    ensures AreRoundCounts(rankings, standing, round) <==>
              && round.counts.Keys == standing
              && (forall c | c in standing :: round.counts[c] == |BallotsFor(rankings, standing, c)|)
              && round.totalActive == |ActiveBallots(rankings, standing)|
  {
    ActiveAreBallots(rankings, standing);
    forall c | c in standing ensures Votes(rankings, standing, {c}) == |BallotsFor(rankings, standing, c)| {
      VotesAreBallots(rankings, standing, c);
    }
  }

  lemma MajorityInRound(rankings: seq<seq<int>>, standing: set<nat>, round: Round)
    requires AreRoundCounts(rankings, standing, round)
    ensures forall c: nat :: HasMajority(round, c) <==> IsMajority(rankings, standing, c)
    ensures IsDecided(round) <==> exists c: nat :: IsMajority(rankings, standing, c)
    ensures Lowest(rankings, standing)
            == set c | c in standing && forall d | d in standing :: round.counts[c] <= round.counts[d]
  {
    if c: nat :| IsMajority(rankings, standing, c) {
      assert HasMajority(round, c);
    }
  }

  /** The round of the count. */
  ghost function RoundOf(rankings: seq<seq<int>>, standing: set<nat>): Round {
    RoundAt(rankings, standing,
            if exists c: nat :: IsMajority(rankings, standing, c) then {} else Lowest(rankings, standing))
  }

  /** It is the only one that follows the rules. */
  lemma RoundIsOne(rankings: seq<seq<int>>, standing: set<nat>, round: Round)
    requires |standing| > 1
    ensures IsRound(rankings, standing, round) <==> round == RoundOf(rankings, standing)
    ensures IsRound(rankings, standing, round) ==>
              && (forall c: nat :: HasMajority(round, c) <==> IsMajority(rankings, standing, c))
              && (IsDecided(round) <==> exists c: nat :: IsMajority(rankings, standing, c))
  {
    CountsAreBallots(rankings, standing, round);
    if AreRoundCounts(rankings, standing, round) {
      MajorityInRound(rankings, standing, round);
      assert round.counts == RoundOf(rankings, standing).counts;
    } else {
      assert AreCounts(rankings, standing, RoundOf(rankings, standing).counts);
    }
  }

  lemma LaterRound(rankings: seq<seq<int>>, active: set<nat>, rounds: seq<Round>, i: nat)
    requires i + 1 < |rounds|
    ensures var left := active - rounds[0].eliminated;
            rounds[0].counts.Keys == active ==>
              (FollowsAt(rankings, left, rounds[1..], i) <==> FollowsAt(rankings, active, rounds, i + 1))
  {
    assert rounds[1..][i] == rounds[i + 1];
  }

  lemma LaterEnd(active: set<nat>, rounds: seq<Round>, winner: Option<nat>)
    requires rounds != [] && rounds[0].counts.Keys == active && !IsDecided(rounds[0])
    ensures EndsWith(active, rounds, winner) <==> EndsWith(active - rounds[0].eliminated, rounds[1..], winner)
  {
    if |rounds| > 1 {
      assert rounds[1..][|rounds| - 2] == rounds[|rounds| - 1];
    }
  }

  /** The rounds after the first are those of a count from who is left. */
  lemma RestFollowsRules(rankings: seq<seq<int>>, active: set<nat>, outcome: Outcome)
    requires outcome.rounds != [] && IsRound(rankings, active, outcome.rounds[0]) && !IsDecided(outcome.rounds[0])
    ensures var left := active - outcome.rounds[0].eliminated;
            FollowsRules(rankings, active, outcome)
            <==> FollowsRules(rankings, left, Outcome(outcome.winner, outcome.rounds[1..]))
  {
    var rounds, rest := outcome.rounds, outcome.rounds[1..];
    var left := active - rounds[0].eliminated;
    LaterEnd(active, rounds, outcome.winner);
    forall i | 0 <= i < |rest|
      ensures FollowsAt(rankings, left, rest, i) <==> FollowsAt(rankings, active, rounds, i + 1)
    {
      LaterRound(rankings, active, rounds, i);
    }
    if forall i | 0 <= i < |rest| :: FollowsAt(rankings, left, rest, i) {
      forall i | 0 <= i < |rounds| ensures FollowsAt(rankings, active, rounds, i) {
        assert i > 0 ==> FollowsAt(rankings, left, rest, i - 1);
      }
    }
  }

  lemma FirstFollows(rankings: seq<seq<int>>, active: set<nat>, outcome: Outcome)
    requires FollowsRules(rankings, active, outcome) && outcome.rounds != []
    ensures IsRound(rankings, active, outcome.rounds[0])
    ensures |outcome.rounds| > 1 ==> !IsDecided(outcome.rounds[0])
  {
    assert FollowsAt(rankings, active, outcome.rounds, 0);
  }

  lemma DecidedFollowsRules(rankings: seq<seq<int>>, active: set<nat>, outcome: Outcome)
    requires outcome.rounds != [] && IsRound(rankings, active, outcome.rounds[0]) && IsDecided(outcome.rounds[0])
    ensures FollowsRules(rankings, active, outcome) <==>
              |outcome.rounds| == 1 && outcome.winner.Some? && HasMajority(outcome.rounds[0], outcome.winner.value)
  {
    if FollowsRules(rankings, active, outcome) {
      FirstFollows(rankings, active, outcome);
    }
  }

  lemma NoRoundsFollowRules(rankings: seq<seq<int>>, active: set<nat>, outcome: Outcome)
    requires outcome.rounds == [] || |active| <= 1
    ensures FollowsRules(rankings, active, outcome) <==>
              outcome.rounds == [] && |active| <= 1 && outcome.winner == AnyOf(active)
  {
    if outcome.rounds != [] {
      if FollowsRules(rankings, active, outcome) {
        FirstFollows(rankings, active, outcome);
      }
    } else if |active| <= 1 && active != {} {
      var c :| c in active;
      AnyOfOne(active, c);
      SoleMember(active, c);
    }
  }

  lemma FirstRoundIs(rankings: seq<seq<int>>, active: set<nat>)
    requires |active| > 1
    ensures var rounds := Count(rankings, active).rounds; rounds != [] && rounds[0] == RoundOf(rankings, active)
  {
    if c: nat :| IsMajority(rankings, active, c) {
      CountMajority(rankings, active, c);
    } else {
      CountElimination(rankings, active);
    }
  }

  lemma FirstThenRest(outcome: Outcome, rest: Outcome)
    requires outcome.rounds != []
    ensures outcome == After([outcome.rounds[0]], rest) <==> Outcome(outcome.winner, outcome.rounds[1..]) == rest
  {
    assert outcome.rounds == [outcome.rounds[0]] + outcome.rounds[1..];
  }

  lemma MajorityDecides(rankings: seq<seq<int>>, active: set<nat>, outcome: Outcome, c: nat)
    requires |active| > 1 && outcome.rounds != [] && outcome.rounds[0] == RoundOf(rankings, active)
    requires IsMajority(rankings, active, c)
    ensures FollowsRules(rankings, active, outcome) <==> outcome == Count(rankings, active)
  {
    var round := outcome.rounds[0];
    RoundIsOne(rankings, active, round);
    CountMajority(rankings, active, c);
    DecidedFollowsRules(rankings, active, outcome);
    if outcome.winner.Some? && HasMajority(round, outcome.winner.value) {
      MajorityIsUnique(rankings, active, c, outcome.winner.value);
    }
    assert |outcome.rounds| == 1 ==> outcome.rounds == [round];
  }

  /** The count follows the rules, and nothing else does: for any ballots and candidates there is one outcome that
      follows them. */
  lemma {:induction false} CountFollowsRules(rankings: seq<seq<int>>, active: set<nat>, outcome: Outcome)
    ensures FollowsRules(rankings, active, outcome) <==> outcome == Count(rankings, active)
    decreases |active|
  {
    if |active| <= 1 || outcome.rounds == [] {
      NoRoundsFollowRules(rankings, active, outcome);
      if |active| > 1 {
        FirstRoundIs(rankings, active);
      }
    } else if outcome.rounds[0] != RoundOf(rankings, active) {
      FirstRoundIs(rankings, active);
      RoundIsOne(rankings, active, outcome.rounds[0]);
      if FollowsRules(rankings, active, outcome) {
        FirstFollows(rankings, active, outcome);
      }
    } else if c: nat :| IsMajority(rankings, active, c) {
      MajorityDecides(rankings, active, outcome, c);
    } else {
      var left := active - outcome.rounds[0].eliminated;
      RoundIsOne(rankings, active, outcome.rounds[0]);
      CountElimination(rankings, active);
      RestFollowsRules(rankings, active, outcome);
      CountFollowsRules(rankings, left, Outcome(outcome.winner, outcome.rounds[1..]));
      FirstThenRest(outcome, Count(rankings, left));
    }
  }
}
