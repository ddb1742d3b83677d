/** What the rounds of an instant-runoff count add up to, and who can win. */
module RunoffOutcome {
  import opened Wrappers
  import opened Sets
  import opened InstantRunoff
  import opened RunoffLaws

  // ---------- votes between two rounds ----------

  lemma {:induction false} FirstStays(prefs: seq<int>, active: set<nat>, left: set<nat>)
    requires left <= active
    ensures var first := FirstActive(prefs, active);
            && (first.Some? && first.value in left ==> FirstActive(prefs, left) == first)
            && (FirstActive(prefs, left).Some? ==> first.Some?)
  {
    if prefs == [] {
    } else {
      FirstStays(prefs[1..], active, left);
    }
  }

  /** When candidates drop out, the votes of those who stay can only grow. */
  lemma {:induction false} VotesGrow(rankings: seq<seq<int>>, active: set<nat>, left: set<nat>, group: set<nat>)
    requires left <= active && group <= left
    ensures Votes(rankings, active, group) <= Votes(rankings, left, group)
  {
    if rankings == [] {
    } else {
      var last := |rankings| - 1;
      VotesGrow(rankings[..last], active, left, group);
      FirstStays(rankings[last], active, left);
    }
  }

  lemma {:induction false} FirstIsActive(prefs: seq<int>, active: set<nat>)
    ensures var first := FirstActive(prefs, active); first.Some? ==> first.value in active
  {
    if prefs == [] {
    } else {
      FirstIsActive(prefs[1..], active);
    }
  }

  lemma {:induction false} ActiveShrinks(rankings: seq<seq<int>>, active: set<nat>, left: set<nat>)
    requires left <= active
    ensures Votes(rankings, left, left) <= Votes(rankings, active, active)
  {
    if rankings == [] {
    } else {
      var last := |rankings| - 1;
      ActiveShrinks(rankings[..last], active, left);
      FirstStays(rankings[last], active, left);
      FirstIsActive(rankings[last], active);
    }
  }

  lemma {:induction false} NoVotes(rankings: seq<seq<int>>, active: set<nat>)
    ensures Votes(rankings, active, {}) == 0
  {
    if rankings == [] {
    } else {
      NoVotes(rankings[..|rankings| - 1], active);
    }
  }

  lemma {:induction false} SumIsVotes(rankings: seq<seq<int>>, active: set<nat>, eliminated: set<nat>, group: set<nat>)
    requires group <= active
    ensures Sum(RoundAt(rankings, active, eliminated).counts, group) == Votes(rankings, active, group)
    decreases group
  {
    if group == {} {
      NoVotes(rankings, active);
    } else {
      var counts := RoundAt(rankings, active, eliminated).counts;
      var c :| c in group && Sum(counts, group) == counts[c] + Sum(counts, group - {c});
      SumIsVotes(rankings, active, eliminated, group - {c});
      VotesSplit(rankings, active, {c}, group - {c});
      assert {c} + (group - {c}) == group;
    }
  }

  // ---------- the rounds of a count ----------

  /** What one round of a count says by itself. */
  ghost predicate RoundAddsUp(round: Round) {
    && round.eliminated <= round.counts.Keys
    && Sum(round.counts, round.counts.Keys) == round.totalActive
  }

  /** From one round to the next: the eliminated are gone, nobody who stays loses votes, and the votes
      of the eliminated are the gains of the others and the ballots that name nobody any more. */
  ghost predicate PassesOn(round: Round, next: Round) {
    var staying := next.counts.Keys;
    && round.eliminated <= round.counts.Keys
    && staying == round.counts.Keys - round.eliminated
    && round.eliminated != {}
    && (forall c | c in staying :: round.counts[c] <= next.counts[c])
    && next.totalActive <= round.totalActive
    && Sum(round.counts, round.eliminated)
       == Sum(next.counts, staying) - Sum(round.counts, staying) + (round.totalActive - next.totalActive)
  }

  ghost predicate AddUp(rounds: seq<Round>) {
    && (forall i | 0 <= i < |rounds| :: RoundAddsUp(rounds[i]))
    && (forall i | 0 <= i < |rounds| - 1 :: PassesOn(rounds[i], rounds[i + 1]))
  }

  lemma RoundOfCount(rankings: seq<seq<int>>, active: set<nat>, eliminated: set<nat>)
    requires eliminated <= active
    ensures RoundAddsUp(RoundAt(rankings, active, eliminated))
  {
    assert RoundAt(rankings, active, eliminated).counts.Keys == active;
    SumIsVotes(rankings, active, eliminated, active);
  }

  lemma RoundToNext(rankings: seq<seq<int>>, active: set<nat>, eliminated: set<nat>, nextEliminated: set<nat>)
    requires eliminated <= active && eliminated != {}
    ensures PassesOn(RoundAt(rankings, active, eliminated), RoundAt(rankings, active - eliminated, nextEliminated))
  {
    var staying := active - eliminated;
    assert RoundAt(rankings, active, eliminated).counts.Keys == active;
    assert RoundAt(rankings, staying, nextEliminated).counts.Keys == staying;
    SumIsVotes(rankings, active, eliminated, eliminated);
    SumIsVotes(rankings, active, eliminated, staying);
    SumIsVotes(rankings, staying, nextEliminated, staying);
    VotesSplit(rankings, active, eliminated, staying);
    assert eliminated + staying == active;
    ActiveShrinks(rankings, active, staying);
    forall c | c in staying ensures Votes(rankings, active, {c}) <= Votes(rankings, staying, {c}) {
      VotesGrow(rankings, active, staying, {c});
    }
  }

  /** The first round of a count, if it has one, counts for all given candidates. */
  lemma FirstRound(rankings: seq<seq<int>>, active: set<nat>)
    ensures var rounds := Count(rankings, active).rounds;
            if |active| <= 1 then rounds == []
            else rounds != []
                 && rounds[0].eliminated <= active
                 && rounds[0] == RoundAt(rankings, active, rounds[0].eliminated)
  {}

  lemma AddUpCons(round: Round, rounds: seq<Round>)
    requires RoundAddsUp(round) && AddUp(rounds)
    requires rounds != [] ==> PassesOn(round, rounds[0])
    ensures AddUp([round] + rounds)
  {}

  /** Every count adds up, and has fewer rounds than candidates. */
  lemma {:induction false} CountAddsUp(rankings: seq<seq<int>>, active: set<nat>)
    ensures AddUp(Count(rankings, active).rounds)
    ensures active != {} ==> |Count(rankings, active).rounds| < |active|
    decreases |active|
  {
    if |active| <= 1 {
    } else {
      if c: nat :| IsMajority(rankings, active, c) {
        CountMajority(rankings, active, c);
        RoundOfCount(rankings, active, {});
      } else {
        var eliminated := Lowest(rankings, active);
        var left := active - eliminated;
        CountElimination(rankings, active);
        CountAddsUp(rankings, left);
        RoundOfCount(rankings, active, eliminated);
        LowestExists(rankings, active);
        FirstRound(rankings, left);
        if |left| > 1 {
          RoundToNext(rankings, active, eliminated, Count(rankings, left).rounds[0].eliminated);
        }
        AddUpCons(RoundAt(rankings, active, eliminated), Count(rankings, left).rounds);
      }
    }
  }

  // ---------- the last round ----------

  /** The winner of the last round leads it outright; without a winner everyone went out together. */
  ghost predicate Decides(last: Round, winner: Option<nat>) {
    match winner
    case None => last.eliminated == last.counts.Keys
    case Some(w) =>
      && w in last.counts && w !in last.eliminated
      && (forall c | c in last.counts && c != w :: last.counts[c] < last.counts[w])
      && (2 * last.counts[w] > last.totalActive <==> last.eliminated == {})
  }

  lemma EliminationLeaves(rankings: seq<seq<int>>, active: set<nat>, w: nat)
    requires active - Lowest(rankings, active) == {w} && !IsMajority(rankings, active, w)
    ensures Decides(RoundAt(rankings, active, Lowest(rankings, active)), Some(w))
  {
    LowestExists(rankings, active);
    forall c | c in active && c != w ensures Votes(rankings, active, {c}) < Votes(rankings, active, {w}) {
      assert c !in active - Lowest(rankings, active) && w in active - Lowest(rankings, active);
      assert w in active && w !in Lowest(rankings, active);
    }
  }

  lemma MajorityLeads(rankings: seq<seq<int>>, active: set<nat>, w: nat)
    requires IsMajority(rankings, active, w)
    ensures Decides(RoundAt(rankings, active, {}), Some(w))
  {
    forall c | c in active && c != w ensures Votes(rankings, active, {c}) < Votes(rankings, active, {w}) {
      VotesApart(rankings, active, {c}, {w});
    }
  }

  /** With two candidates or more, the last round decides: its leader wins, with a majority exactly when
      that round eliminates nobody, and there is no winner exactly when all that were left tied and went
      out together. */
  lemma {:induction false} LastRoundDecides(rankings: seq<seq<int>>, active: set<nat>)
    requires |active| > 1
    ensures var outcome := Count(rankings, active);
            outcome.rounds != [] && Decides(outcome.rounds[|outcome.rounds| - 1], outcome.winner)
    decreases |active|
  {
    if c: nat :| IsMajority(rankings, active, c) {
      CountMajority(rankings, active, c);
      MajorityLeads(rankings, active, c);
    } else {
      CountElimination(rankings, active);
      var left := active - Lowest(rankings, active);
      if |left| > 1 {
        LastRoundDecides(rankings, left);
      } else if left != {} {
        var w :| w in left;
        SoleMember(left, w);
        EliminationLeaves(rankings, active, w);
      }
    }
  }

  // ---------- coalitions ----------

  ghost predicate Names(prefs: seq<int>, coalition: set<nat>) {
    && (forall c | c in coalition :: c in prefs)
    && (forall i | 0 <= i < |prefs| :: prefs[i] in coalition)
  }

  /** The ballot lists every member of the coalition ahead of everyone else. */
  ghost predicate Backs(prefs: seq<int>, coalition: set<nat>) {
    exists k :: 0 <= k <= |prefs| && Names(prefs[..k], coalition)
  }

  ghost function Backers(rankings: seq<seq<int>>, coalition: set<nat>): nat {
    if rankings == [] then 0
    else
      var last := |rankings| - 1;
      Backers(rankings[..last], coalition) + (if Backs(rankings[last], coalition) then 1 else 0)
  }

  lemma {:induction false} FirstAmong(prefs: seq<int>, k: nat, active: set<nat>)
    requires k <= |prefs| && exists i :: 0 <= i < k && prefs[i] in active
    ensures var first := FirstActive(prefs, active); first.Some? && first.value in active && first.value in prefs[..k]
  {
    if prefs[0] in active {
      assert prefs[0] == prefs[..k][0];
    } else {
      var i :| 0 <= i < k && prefs[i] in active;
      assert prefs[1..][i - 1] == prefs[i];
      FirstAmong(prefs[1..], k - 1, active);
      assert prefs[1..][..k - 1] == prefs[..k][1..];
    }
  }

  lemma BackerVotesWithin(prefs: seq<int>, coalition: set<nat>, active: set<nat>)
    requires Backs(prefs, coalition) && coalition * active != {}
    ensures VoteFor(prefs, active, coalition * active) == 1
  {
    var k :| 0 <= k <= |prefs| && Names(prefs[..k], coalition);
    var c :| c in coalition * active;
    var i :| 0 <= i < k && prefs[..k][i] == c;
    assert prefs[i] in active;
    FirstAmong(prefs, k, active);
  }

  /** While a member stands, every backer votes for one. */
  lemma {:induction false} BackersVoteWithin(rankings: seq<seq<int>>, coalition: set<nat>, active: set<nat>)
    requires coalition * active != {}
    ensures Backers(rankings, coalition) <= Votes(rankings, active, coalition * active)
  {
    if rankings == [] {
    } else {
      var last := |rankings| - 1;
      BackersVoteWithin(rankings[..last], coalition, active);
      if Backs(rankings[last], coalition) {
        BackerVotesWithin(rankings[last], coalition, active);
      }
    }
  }

  /** A majority of the ballots backs the coalition, so nobody outside it can have a majority, and
      its last member standing does. */
  lemma CoalitionRound(rankings: seq<seq<int>>, coalition: set<nat>, active: set<nat>)
    requires 2 * Backers(rankings, coalition) > |rankings| && coalition * active != {}
    ensures forall c: nat | IsMajority(rankings, active, c) :: c in coalition
    ensures forall c | coalition * active == {c} :: IsMajority(rankings, active, c)
  {
    BackersVoteWithin(rankings, coalition, active);
    VotesBound(rankings, active, active);
    forall c: nat | IsMajority(rankings, active, c) ensures c in coalition {
      if c !in coalition {
        VotesApart(rankings, active, {c}, coalition * active);
      }
    }
  }

  /** The round eliminates everyone of the coalition who still stood. */
  ghost predicate WipesOut(round: Round, coalition: set<nat>) {
    coalition * round.counts.Keys <= round.eliminated
  }

  lemma WipesOutLater(first: Round, rest: seq<Round>, coalition: set<nat>)
    requires !WipesOut(first, coalition)
    ensures (forall i | 0 <= i < |rest| :: !WipesOut(rest[i], coalition))
            <==> forall i | 0 <= i < |[first] + rest| :: !WipesOut(([first] + rest)[i], coalition)
  {
    var all := [first] + rest;
    forall i | 0 <= i < |rest| ensures all[i + 1] == rest[i] {}
    if forall i | 0 <= i < |all| :: !WipesOut(all[i], coalition) {
      forall i | 0 <= i < |rest| ensures !WipesOut(rest[i], coalition) {
        assert !WipesOut(all[i + 1], coalition);
      }
    }
  }

  /** A coalition that more than half of all ballots put ahead of everyone else provides the winner,
      exactly when no round eliminates all its remaining members at once. */
  lemma {:induction false} CoalitionWins(rankings: seq<seq<int>>, coalition: set<nat>, active: set<nat>)
    requires 2 * Backers(rankings, coalition) > |rankings| && coalition * active != {}
    ensures var outcome := Count(rankings, active);
            (outcome.winner.Some? && outcome.winner.value in coalition)
            <==> forall i | 0 <= i < |outcome.rounds| :: !WipesOut(outcome.rounds[i], coalition)
    decreases |active|
  {
    var outcome := Count(rankings, active);
    CoalitionRound(rankings, coalition, active);
    if |active| <= 1 {
      var c :| c in coalition * active;
      AnyOfOne(active, c);
    } else if c: nat :| IsMajority(rankings, active, c) {
      CountMajority(rankings, active, c);
    } else {
      CountElimination(rankings, active);
      var eliminated := Lowest(rankings, active);
      var left := active - eliminated;
      var first, rest := RoundAt(rankings, active, eliminated), Count(rankings, left);
      if coalition * left != {} {
        CoalitionWins(rankings, coalition, left);
        WipesOutLater(first, rest.rounds, coalition);
      } else {
        WinnerStands(rankings, left);
        assert outcome.rounds[0] == first && WipesOut(first, coalition);
      }
    }
  }

  /** The candidates standing after k eliminations. */
  ghost function Standing(rankings: seq<seq<int>>, active: set<nat>, k: nat): set<nat> {
    if k == 0 || |active| <= 1 then active
    else Standing(rankings, active - Lowest(rankings, active), k - 1)
  }

  /** After k eliminations everyone of the coalition who stands is at the minimum, and others stand too
      or several do. */
  ghost predicate AllAtMinimum(rankings: seq<seq<int>>, coalition: set<nat>, active: set<nat>, k: nat) {
    var standing := Standing(rankings, active, k);
    |standing| > 1 && coalition * standing <= Lowest(rankings, standing)
  }

  lemma MajorityIsNotLowest(rankings: seq<seq<int>>, active: set<nat>, c: nat)
    requires IsMajority(rankings, active, c) && |active| > 1
    ensures c !in Lowest(rankings, active)
  {
    var others := active - {c};
    assert active == others + {c};
    assert others != {};
    var d :| d in others;
    VotesApart(rankings, active, {c}, {d});
  }

  lemma {:induction false} MajorityLasts(rankings: seq<seq<int>>, active: set<nat>, c: nat, k: nat)
    requires IsMajority(rankings, active, c)
    ensures IsMajority(rankings, Standing(rankings, active, k), c)
    decreases k
  {
    if k == 0 || |active| <= 1 {
    } else {
      var left := active - Lowest(rankings, active);
      MajorityIsNotLowest(rankings, active, c);
      VotesGrow(rankings, active, left, {c});
      ActiveShrinks(rankings, active, left);
      MajorityLasts(rankings, left, c, k - 1);
    }
  }

  /** So a candidate with a majority would not be eliminated in any later round either. */
  lemma MajorityStands(rankings: seq<seq<int>>, active: set<nat>, c: nat, k: nat)
    requires IsMajority(rankings, active, c)
    ensures var standing := Standing(rankings, active, k);
            c in standing && (|standing| > 1 ==> c !in Lowest(rankings, standing))
  {
    MajorityLasts(rankings, active, c, k);
    if |Standing(rankings, active, k)| > 1 {
      MajorityIsNotLowest(rankings, Standing(rankings, active, k), c);
    }
  }

  /** Everybody at the minimum is the same as nobody left after the elimination. */
  lemma AllAtMinimumNow(rankings: seq<seq<int>>, coalition: set<nat>, active: set<nat>)
    requires |active| > 1
    ensures AllAtMinimum(rankings, coalition, active, 0) <==> coalition * (active - Lowest(rankings, active)) == {}
  {
    var lowest := Lowest(rankings, active);
    if coalition * active <= lowest {
      forall c ensures c !in coalition * (active - lowest) {
        assert c in coalition && c in active ==> c in coalition * active;
      }
    } else {
      var c :| c in coalition * active && c !in lowest;
      assert c in coalition * (active - lowest);
    }
  }

  lemma EliminationIsNext(rankings: seq<seq<int>>, coalition: set<nat>, active: set<nat>)
    requires |active| > 1
    ensures var left := active - Lowest(rankings, active);
            (exists k: nat :: AllAtMinimum(rankings, coalition, active, k))
            <==> coalition * left == {} || exists k: nat :: AllAtMinimum(rankings, coalition, left, k)
  {
    var left := active - Lowest(rankings, active);
    AllAtMinimumNow(rankings, coalition, active);
    forall k: nat
      ensures AllAtMinimum(rankings, coalition, active, k + 1) <==> AllAtMinimum(rankings, coalition, left, k)
    {}
    if k: nat :| AllAtMinimum(rankings, coalition, active, k) {
      if k > 0 {
        assert AllAtMinimum(rankings, coalition, left, k - 1);
      }
    }
    if k: nat :| AllAtMinimum(rankings, coalition, left, k) {
      assert AllAtMinimum(rankings, coalition, active, k + 1);
    }
  }

  /** The same condition read off the ballots alone: the coalition provides the winner exactly when at no
      number of eliminations all its standing members are at the minimum. */
  lemma {:induction false} CoalitionWinsOnBallots(rankings: seq<seq<int>>, coalition: set<nat>, active: set<nat>)
    requires 2 * Backers(rankings, coalition) > |rankings| && coalition * active != {}
    ensures var winner := Count(rankings, active).winner;
            (winner.Some? && winner.value in coalition)
            <==> !exists k: nat :: AllAtMinimum(rankings, coalition, active, k)
    decreases |active|
  {
    CoalitionRound(rankings, coalition, active);
    if |active| <= 1 {
      var c :| c in coalition * active;
      AnyOfOne(active, c);
    } else if c: nat :| IsMajority(rankings, active, c) {
      CountMajority(rankings, active, c);
      forall k: nat ensures !AllAtMinimum(rankings, coalition, active, k) {
        MajorityStands(rankings, active, c, k);
      }
    } else {
      CountElimination(rankings, active);
      EliminationIsNext(rankings, coalition, active);
      var left := active - Lowest(rankings, active);
      if coalition * left != {} {
        CoalitionWinsOnBallots(rankings, coalition, left);
      } else {
        WinnerStands(rankings, left);
      }
    }
  }

  lemma SurvivorExists(standing: set<nat>, eliminated: set<nat>, c: nat)
    requires c in standing && standing != {c} && |eliminated| <= 1
    ensures standing - eliminated != {}
  {
    var d :| d in standing && d != c;
    if c in eliminated {
      SoleMember(eliminated, c);
      assert d in standing - eliminated;
    } else {
      assert c in standing - eliminated;
    }
  }

  /** So it does when every round eliminates at most one candidate; a lone candidate needs not even that. */
  lemma {:induction false} CoalitionWinsOneByOne(rankings: seq<seq<int>>, coalition: set<nat>, active: set<nat>)
    requires 2 * Backers(rankings, coalition) > |rankings| && coalition * active != {}
    requires |coalition| == 1 || forall round | round in Count(rankings, active).rounds :: |round.eliminated| <= 1
    ensures var winner := Count(rankings, active).winner; winner.Some? && winner.value in coalition
    decreases |active|
  {
    CoalitionRound(rankings, coalition, active);
    var c :| c in coalition * active;
    if |coalition| == 1 {
      SoleMember(coalition, c);
      assert coalition * active == {c};
    }
    if |active| <= 1 {
      AnyOfOne(active, c);
    } else if w: nat :| IsMajority(rankings, active, w) {
      CountMajority(rankings, active, w);
    } else {
      CountElimination(rankings, active);
      var eliminated := Lowest(rankings, active);
      var first := RoundAt(rankings, active, eliminated);
      assert first in Count(rankings, active).rounds;
      SurvivorExists(coalition * active, eliminated, c);
      assert coalition * active - eliminated == coalition * (active - eliminated);
      CoalitionWinsOneByOne(rankings, coalition, active - eliminated);
    }
  }

  lemma VotesOneMore(rankings: seq<seq<int>>, prefs: seq<int>, active: set<nat>, group: set<nat>)
    ensures Votes(rankings + [prefs], active, group) == Votes(rankings, active, group) + VoteFor(prefs, active, group)
  {}

  lemma BackersOneMore(rankings: seq<seq<int>>, prefs: seq<int>, coalition: set<nat>)
    ensures Backers(rankings + [prefs], coalition)
            == Backers(rankings, coalition) + (if Backs(prefs, coalition) then 1 else 0)
  {}

  function SplitCoalition(): (rankings: seq<seq<int>>) {
    [] + [[0]] + [[0]] + [[0]] + [[1, 2]] + [[1, 2]] + [[2, 1]] + [[2, 1]]
  }

  lemma SplitVotes(active: set<nat>, group: set<nat>)
    requires {0, 1, 2} <= active
    ensures Votes(SplitCoalition(), active, group)
            == (if 0 in group then 3 else 0) + (if 1 in group then 2 else 0) + (if 2 in group then 2 else 0)
  {
    assert 0 in active && 1 in active && 2 in active;
    var r0: seq<seq<int>> := [];
    var r1, r2, r3 := r0 + [[0]], r0 + [[0]] + [[0]], r0 + [[0]] + [[0]] + [[0]];
    var r5 := r3 + [[1, 2]] + [[1, 2]];
    VotesOneMore(r0, [0], active, group);
    VotesOneMore(r1, [0], active, group);
    VotesOneMore(r2, [0], active, group);
    VotesOneMore(r3, [1, 2], active, group);
    VotesOneMore(r3 + [[1, 2]], [1, 2], active, group);
    VotesOneMore(r5, [2, 1], active, group);
    VotesOneMore(r5 + [[2, 1]], [2, 1], active, group);
  }

  lemma PairBacks(a: nat, b: nat)
    ensures Backs([a, b], {a, b})
  {
    var prefs: seq<int> := [a, b];
    assert prefs[..2] == prefs && prefs[0] == a && prefs[1] == b;
    assert Names(prefs[..2], {a, b});
  }

  lemma SplitBackers()
    ensures Backers(SplitCoalition(), {1, 2}) >= 4
  {
    var r0: seq<seq<int>> := [];
    var r3 := r0 + [[0]] + [[0]] + [[0]];
    var r5 := r3 + [[1, 2]] + [[1, 2]];
    PairBacks(1, 2);
    PairBacks(2, 1);
    var coalition: set<nat> := {1, 2};
    assert {2, 1} == coalition;
    BackersOneMore(r3, [1, 2], coalition);
    BackersOneMore(r3 + [[1, 2]], [1, 2], coalition);
    BackersOneMore(r5, [2, 1], coalition);
    BackersOneMore(r5 + [[2, 1]], [2, 1], coalition);
  }

  lemma SplitVotesOfEach(active: set<nat>)
    requires {0, 1, 2} <= active
    ensures forall c | c in active ::
              Votes(SplitCoalition(), active, {c}) == if c == 0 then 3 else if c <= 2 then 2 else 0
    ensures Votes(SplitCoalition(), active, active) == 7
    ensures !exists c: nat :: IsMajority(SplitCoalition(), active, c)
  {
    forall c | c in active
      ensures Votes(SplitCoalition(), active, {c}) == if c == 0 then 3 else if c <= 2 then 2 else 0
    {
      SplitVotes(active, {c});
    }
    assert 0 in active && 1 in active && 2 in active;
    SplitVotes(active, active);
  }

  lemma SplitLowest(rankings: seq<seq<int>>, active: set<nat>)
    requires {0, 1, 2} <= active
    requires forall c | c in active :: Votes(rankings, active, {c}) == if c == 0 then 3 else if c <= 2 then 2 else 0
    ensures Lowest(rankings, active) == if active == {0, 1, 2} then {1, 2} else active - {0, 1, 2}
  {
    assert 0 in active && 1 in active && 2 in active;
    if active != {0, 1, 2} {
      var d :| d in active && d !in {0, 1, 2};
      assert Votes(rankings, active, {d}) == 0;
    }
  }

  /** The one round of the count of the example. */
  function SplitRound(): Round {
    Round(map[0 := 3, 1 := 2, 2 := 2], {1, 2}, 7)
  }

  lemma SplitFirstRound(all: set<nat>)
    requires all == {0, 1, 2}
    ensures RoundAt(SplitCoalition(), all, {1, 2}) == SplitRound()
  {
    SplitVotesOfEach(all);
    var counts := RoundAt(SplitCoalition(), all, {1, 2}).counts;
    assert counts.Keys == all == SplitRound().counts.Keys;
  }

  lemma SplitEnd(rankings: seq<seq<int>>, all: set<nat>)
    requires all == {0, 1, 2}
    ensures Count(rankings, all - {1, 2}) == Outcome(Some(0), [])
  {
    assert all - {1, 2} == {0};
    AnyOfOne({0}, 0);
  }

  lemma SplitCount(all: set<nat>)
    requires all == {0, 1, 2} && |all| == 3
    ensures Count(SplitCoalition(), all) == Outcome(Some(0), [SplitRound()])
  {
    SplitVotesOfEach(all);
    SplitLowest(SplitCoalition(), all);
    CountElimination(SplitCoalition(), all);
    SplitFirstRound(all);
    SplitEnd(SplitCoalition(), all);
  }

  /** Not every backed coalition wins: of 7 ballots, 4 put candidates 1 and 2 ahead of 0, but both are at
      the minimum of the only round, go out together, and 0 is elected with 3 votes of 7. */
  lemma CoalitionCanLose()
    ensures 2 * Backers(SplitCoalition(), {1, 2}) > |SplitCoalition()|
    ensures Count(SplitCoalition(), Candidates(3)) == Outcome(Some(0), [SplitRound()])
    ensures SplitRound() == Round(map[0 := 3, 1 := 2, 2 := 2], {1, 2}, 7) && 2 * 3 <= 7
  {
    SplitBackers();
    var all: set<nat> := {0, 1, 2};
    assert Candidates(3) == all;
    SplitCount(all);
  }

  // ---------- majorities ----------

  /** The winner, if there is one and a round was counted, has more than half of the votes of the last round. */
  ghost predicate WonByMajority(outcome: Outcome) {
    outcome.winner.Some? && outcome.rounds != [] ==>
      var last := outcome.rounds[|outcome.rounds| - 1];
      outcome.winner.value in last.counts && 2 * last.counts[outcome.winner.value] > last.totalActive
  }

  /** After k eliminations several candidates stand, and c has a majority among them. */
  ghost predicate HasMajorityAt(rankings: seq<seq<int>>, active: set<nat>, k: nat, c: nat) {
    var standing := Standing(rankings, active, k);
    |standing| > 1 && IsMajority(rankings, standing, c)
  }

  /** Without a majority now, one can only come after the next elimination. */
  lemma MajorityComesLater(rankings: seq<seq<int>>, active: set<nat>, c: nat)
    requires |active| > 1 && !IsMajority(rankings, active, c)
    ensures (exists k: nat :: HasMajorityAt(rankings, active, k, c))
            <==> exists k: nat :: HasMajorityAt(rankings, active - Lowest(rankings, active), k, c)
  {
    var left := active - Lowest(rankings, active);
    if k: nat :| HasMajorityAt(rankings, active, k, c) {
      assert k > 0 && HasMajorityAt(rankings, left, k - 1, c);
    }
    if k: nat :| HasMajorityAt(rankings, left, k, c) {
      assert HasMajorityAt(rankings, active, k + 1, c);
    }
  }

  lemma NoneAmongFew(rankings: seq<seq<int>>, active: set<nat>, c: nat)
    requires |active| <= 1
    ensures !exists k: nat :: HasMajorityAt(rankings, active, k, c)
  {}

  /** A candidate with a majority while several stand is the only one who ever has one. */
  lemma OneMajorityEver(rankings: seq<seq<int>>, active: set<nat>, c: nat, d: nat, k: nat)
    requires |active| > 1 && IsMajority(rankings, active, c) && HasMajorityAt(rankings, active, k, d)
    ensures c == d
  {
    MajorityLasts(rankings, active, c, k);
    MajorityIsUnique(rankings, Standing(rankings, active, k), c, d);
  }

  lemma EarlierRound(first: Round, outcome: Outcome)
    requires outcome.rounds != []
    ensures WonByMajority(After([first], outcome)) <==> WonByMajority(outcome)
  {}

  /** Who wins by majority, on the ballots alone: with several candidates, the count elects c with a majority
      of the last round exactly when c has one at some number of eliminations while several stand. */
  lemma {:induction false} MajorityOnBallots(rankings: seq<seq<int>>, active: set<nat>, c: nat)
    requires |active| > 1
    ensures var outcome := Count(rankings, active);
            (outcome.winner == Some(c) && WonByMajority(outcome))
            <==> exists k: nat :: HasMajorityAt(rankings, active, k, c)
    decreases |active|
  {
    if d: nat :| IsMajority(rankings, active, d) {
      CountMajority(rankings, active, d);
      assert HasMajorityAt(rankings, active, 0, d);
      if k: nat :| HasMajorityAt(rankings, active, k, c) {
        OneMajorityEver(rankings, active, d, c, k);
      }
    } else {
      var left := active - Lowest(rankings, active);
      CountElimination(rankings, active);
      MajorityComesLater(rankings, active, c);
      if |left| > 1 {
        LastRoundDecides(rankings, left);
        EarlierRound(RoundAt(rankings, active, Lowest(rankings, active)), Count(rankings, left));
        MajorityOnBallots(rankings, left, c);
      } else {
        NoneAmongFew(rankings, left, c);
      }
    }
  }

  lemma TwoShareAll(rankings: seq<seq<int>>, a: nat, b: nat)
    requires a != b
    ensures Votes(rankings, {a, b}, {a, b}) == Votes(rankings, {a, b}, {a}) + Votes(rankings, {a, b}, {b})
  {
    VotesSplit(rankings, {a, b}, {a}, {b});
    assert {a} + {b} == {a, b};
  }

  lemma TwoTie(rankings: seq<seq<int>>, a: nat, b: nat)
    requires a != b && !exists c: nat :: IsMajority(rankings, {a, b}, c)
    ensures Count(rankings, {a, b}).winner == None
  {
    var active: set<nat> := {a, b};
    TwoShareAll(rankings, a, b);
    assert !IsMajority(rankings, active, a) && !IsMajority(rankings, active, b);
    assert Lowest(rankings, active) == active;
    assert |active| == 2;
    CountElimination(rankings, active);
    assert active - active == {};
  }

  lemma TwoGiveMajority(rankings: seq<seq<int>>, active: set<nat>)
    requires |active| <= 2
    ensures WonByMajority(Count(rankings, active))
  {
    if |active| == 2 {
      if c: nat :| IsMajority(rankings, active, c) {
        CountMajority(rankings, active, c);
      } else {
        var a :| a in active;
        var others := active - {a};
        assert active == others + {a} && |others| == 1;
        var b :| b in others;
        SoleMember(others, b);
        assert active == {a, b};
        TwoTie(rankings, a, b);
      }
    }
  }

  /** Options nobody voted for go first. */
  lemma SplitStart(all: set<nat>, three: set<nat>) returns (first: Round)
    requires three == {0, 1, 2} < all && |all| > 1
    ensures Count(SplitCoalition(), all) == After([first], Count(SplitCoalition(), three))
  {
    SplitVotesOfEach(all);
    SplitLowest(SplitCoalition(), all);
    CountElimination(SplitCoalition(), all);
    assert all - (all - three) == three;
    first := RoundAt(SplitCoalition(), all, all - three);
  }

  lemma SplitAmongMore(numOptions: nat)
    requires numOptions > 2
    ensures !WonByMajority(Count(SplitCoalition(), Candidates(numOptions)))
  {
    var three: set<nat> := {0, 1, 2};
    assert Candidates(3) == three;
    SplitCount(three);
    if Candidates(numOptions) != three {
      var first := SplitStart(Candidates(numOptions), three);
      EarlierRound(first, Outcome(Some(0), [SplitRound()]));
    }
  }

  /** Winners are sure to have a majority of the last round exactly when there are at most two options. */
  lemma MajorityIsSureForTwo(numOptions: nat)
    ensures (forall rankings :: WonByMajority(Count(rankings, Candidates(numOptions)))) <==> numOptions <= 2
  {
    if numOptions <= 2 {
      forall rankings ensures WonByMajority(Count(rankings, Candidates(numOptions))) {
        TwoGiveMajority(rankings, Candidates(numOptions));
      }
    } else {
      SplitAmongMore(numOptions);
    }
  }
}
