/** The instant-runoff count of a ranked-choice poll. */
module InstantRunoff {
  import opened Wrappers
  import opened Decimals
  import opened Sets

  /** Counts by candidate, the candidates dropped, and how many ballots still named someone standing. */
  datatype Round = Round(counts: map<nat, nat>, eliminated: set<nat>, totalActive: nat)

  datatype Outcome = Outcome(winner: Option<nat>, rounds: seq<Round>)

  // ---------- one round ----------

  /** The highest preference of a ballot that is still standing. */
  function FirstActive(prefs: seq<int>, active: set<nat>): Option<nat> {
    if prefs == [] then None
    else if prefs[0] in active then Some(prefs[0])
    else FirstActive(prefs[1..], active)
  }

  function VoteFor(prefs: seq<int>, active: set<nat>, group: set<nat>): nat {
    var choice := FirstActive(prefs, active);
    if choice.Some? && choice.value in group then 1 else 0
  }

  /** The ballots that count for a member of the group while the given candidates stand. */
  function Votes(rankings: seq<seq<int>>, active: set<nat>, group: set<nat>): nat {
    if rankings == [] then 0
    else
      var last := |rankings| - 1;
      Votes(rankings[..last], active, group) + VoteFor(rankings[last], active, group)
  }

  function RoundAt(rankings: seq<seq<int>>, active: set<nat>, eliminated: set<nat>): Round {
    Round(map c | c in active :: Votes(rankings, active, {c}), eliminated, Votes(rankings, active, active))
  }

  predicate IsMajority(rankings: seq<seq<int>>, active: set<nat>, c: nat) {
    c in active && 2 * Votes(rankings, active, {c}) > Votes(rankings, active, active)
  }

  /** Every candidate at the minimum. */
  function Lowest(rankings: seq<seq<int>>, active: set<nat>): set<nat> {
    set c | c in active && forall d | d in active :: Votes(rankings, active, {c}) <= Votes(rankings, active, {d})
  }

  // ---------- the whole count ----------

  /** The outcome when the given rounds came before. */
  function After(rounds: seq<Round>, outcome: Outcome): Outcome {
    Outcome(outcome.winner, rounds + outcome.rounds)
  }

  lemma AfterOneMore(rounds: seq<Round>, round: Round, outcome: Outcome)
    ensures After(rounds, After([round], outcome)) == After(rounds + [round], outcome)
  {}

  ghost function AnyOf(active: set<nat>): Option<nat> {
    if active == {} then None
    else
      var c :| c in active;
      Some(c)
  }

  lemma {:induction false} LowestIn(rankings: seq<seq<int>>, active: set<nat>, group: set<nat>) returns (c: nat)
    requires group != {}
    ensures c in group
    ensures forall d | d in group :: Votes(rankings, active, {c}) <= Votes(rankings, active, {d})
    decreases group
  {
    c :| c in group;
    var others := group - {c};
    if others != {} {
      var least := LowestIn(rankings, active, others);
      if Votes(rankings, active, {least}) < Votes(rankings, active, {c}) {
        c := least;
      }
    }
  }

  lemma LowestExists(rankings: seq<seq<int>>, active: set<nat>)
    requires active != {}
    ensures Lowest(rankings, active) != {}
  {
    var c := LowestIn(rankings, active, active);
    assert c in Lowest(rankings, active);
  }

  /** The count from the given candidates on. */
  ghost function Count(rankings: seq<seq<int>>, active: set<nat>): Outcome
    decreases |active|
  {
    if |active| <= 1 then Outcome(AnyOf(active), [])
    else if exists c: nat :: IsMajority(rankings, active, c) then
      var c: nat :| IsMajority(rankings, active, c);
      Outcome(Some(c), [RoundAt(rankings, active, {})])
    else
      var eliminated := Lowest(rankings, active);
      LowestExists(rankings, active);
      FewerLeft(active, eliminated);
      After([RoundAt(rankings, active, eliminated)], Count(rankings, active - eliminated))
  }

  lemma {:induction false} VotesSplit(rankings: seq<seq<int>>, active: set<nat>, a: set<nat>, b: set<nat>)
    requires a !! b
    ensures Votes(rankings, active, a + b) == Votes(rankings, active, a) + Votes(rankings, active, b)
  {
    if rankings == [] {
    } else {
      VotesSplit(rankings[..|rankings| - 1], active, a, b);
    }
  }

  lemma {:induction false} VotesBound(rankings: seq<seq<int>>, active: set<nat>, group: set<nat>)
    ensures Votes(rankings, active, group) <= |rankings|
  {
    if rankings == [] {
    } else {
      VotesBound(rankings[..|rankings| - 1], active, group);
    }
  }

  /** Two groups without a common member share the active votes. */
  lemma VotesApart(rankings: seq<seq<int>>, active: set<nat>, a: set<nat>, b: set<nat>)
    requires a !! b && a <= active && b <= active
    ensures Votes(rankings, active, a) + Votes(rankings, active, b) <= Votes(rankings, active, active)
  {}

  lemma MajorityIsUnique(rankings: seq<seq<int>>, active: set<nat>, c: nat, d: nat)
    requires IsMajority(rankings, active, c) && IsMajority(rankings, active, d)
    ensures c == d
  {
    if c != d {
      VotesApart(rankings, active, {c}, {d});
    }
  }

  /** What Count does when someone has a majority. */
  lemma CountMajority(rankings: seq<seq<int>>, active: set<nat>, c: nat)
    requires |active| > 1 && IsMajority(rankings, active, c)
    ensures Count(rankings, active) == Outcome(Some(c), [RoundAt(rankings, active, {})])
  {
    var d: nat :| IsMajority(rankings, active, d) && Count(rankings, active).winner == Some(d);
    MajorityIsUnique(rankings, active, c, d);
  }

  // ---------- the loops of the service ----------

  function Candidates(numOptions: nat): (cs: set<nat>)
    ensures |cs| == numOptions
    ensures forall c: nat :: c in cs <==> c < numOptions
  {
    if numOptions == 0 then {} else Candidates(numOptions - 1) + {numOptions - 1}
  }

  /** What Count does when nobody has a majority. */
  lemma CountElimination(rankings: seq<seq<int>>, active: set<nat>)
    requires |active| > 1 && !exists c: nat :: IsMajority(rankings, active, c)
    ensures var eliminated := Lowest(rankings, active);
            var rest := Count(rankings, active - eliminated);
            && |active - eliminated| < |active|
            && Count(rankings, active) == After([RoundAt(rankings, active, eliminated)], rest)
  {
    LowestExists(rankings, active);
    FewerLeft(active, Lowest(rankings, active));
  }

  ghost predicate AreCounts(rankings: seq<seq<int>>, active: set<nat>, counts: map<nat, nat>) {
    && counts.Keys == active
    && forall c | c in active :: counts[c] == Votes(rankings, active, {c})
  }

  lemma VotesBelowMaxInt(rankings: seq<seq<int>>, active: set<nat>, counts: map<nat, nat>)
    requires |rankings| <= MAX_INT / 2 && AreCounts(rankings, active, counts)
    ensures forall c | c in counts :: counts[c] < MAX_INT
  {
    forall c | c in counts ensures counts[c] < MAX_INT {
      VotesBound(rankings, active, {c});
    }
  }

  lemma LowestAt(rankings: seq<seq<int>>, active: set<nat>, counts: map<nat, nat>, minVotes: int, lowest: set<nat>)
    requires AreCounts(rankings, active, counts)
    requires exists c | c in counts :: counts[c] == minVotes
    requires forall c | c in counts :: minVotes <= counts[c]
    requires lowest == set c | c in counts && counts[c] == minVotes
    ensures lowest == Lowest(rankings, active)
  {}

  lemma AnyOfOne(active: set<nat>, c: nat)
    requires |active| <= 1 && c in active
    ensures AnyOf(active) == Some(c)
  {
    SoleMember(active, c);
  }

  /** The counting pass of a round. */
  method TallyRound(rankings: seq<seq<int>>, active: set<nat>) returns (counts: map<nat, nat>, activeVotes: nat)
    ensures AreCounts(rankings, active, counts)
    ensures activeVotes == Votes(rankings, active, active)
  {
    counts := map[];
    var unvisited := active;
    while unvisited != {}
      invariant unvisited <= active && counts.Keys == active - unvisited
      invariant forall c | c in counts :: counts[c] == 0
      decreases unvisited
    {
      var i :| i in unvisited;
      counts := counts[i := 0];
      unvisited := unvisited - {i};
    }
    activeVotes := 0;
    for b := 0 to |rankings|
      invariant counts.Keys == active
      invariant forall c | c in active :: counts[c] == Votes(rankings[..b], active, {c})
      invariant activeVotes == Votes(rankings[..b], active, active)
    {
      var prefs := rankings[b];
      assert rankings[..b + 1][..b] == rankings[..b];
      var k := 0;
      while k < |prefs|
        invariant k <= |prefs|
        invariant FirstActive(prefs[k..], active) == FirstActive(prefs, active)
      {
        var choice := prefs[k];
        if choice in active {
          counts := counts[choice := counts[choice] + 1];
          activeVotes := activeVotes + 1;
          break;
        }
        k := k + 1;
      }
    }
    assert rankings[..|rankings|] == rankings;
  }

  /** The majority check of a round. */
  method FindMajority(rankings: seq<seq<int>>, active: set<nat>, counts: map<nat, nat>, activeVotes: nat)
    returns (winner: Option<nat>)
    requires AreCounts(rankings, active, counts) && activeVotes == Votes(rankings, active, active)
    ensures match winner
            case Some(c) => IsMajority(rankings, active, c)
            case None => !exists c: nat :: IsMajority(rankings, active, c)
  {
    var unvisited := counts.Keys;
    while unvisited != {}
      invariant unvisited <= active
      invariant forall c | c in active - unvisited :: !IsMajority(rankings, active, c)
      decreases unvisited
    {
      var candidate :| candidate in unvisited;
      if counts[candidate] * 2 > activeVotes {
        return Some(candidate);
      }
      unvisited := unvisited - {candidate};
    }
    return None;
  }

  /** The elimination pass of a round. */
  method CandidatesAt(counts: map<nat, nat>, minVotes: int) returns (eliminated: set<nat>)
    ensures eliminated == set c | c in counts && counts[c] == minVotes
  {
    eliminated := {};
    var unvisited := counts.Keys;
    while unvisited != {}
      invariant unvisited <= counts.Keys
      invariant eliminated == set c | c in counts.Keys - unvisited && counts[c] == minVotes
      decreases unvisited
    {
      var candidate :| candidate in unvisited;
      if counts[candidate] == minVotes {
        eliminated := eliminated + {candidate};
      }
      unvisited := unvisited - {candidate};
    }
  }

  /** The smallest count, starting from the largest int. */
  method MinimumOf(counts: map<nat, nat>) returns (minVotes: int)
    requires counts != map[] && forall c | c in counts :: counts[c] < MAX_INT
    ensures exists c | c in counts :: counts[c] == minVotes
    ensures forall c | c in counts :: minVotes <= counts[c]
  {
    minVotes := MAX_INT;
    var unvisited := counts.Keys;
    ghost var least := 0;
    while unvisited != {}
      invariant unvisited <= counts.Keys
      invariant forall c | c in counts.Keys - unvisited :: minVotes <= counts[c]
      invariant if unvisited == counts.Keys then minVotes == MAX_INT else least in counts && counts[least] == minVotes
      decreases unvisited
    {
      var candidate :| candidate in unvisited;
      if counts[candidate] < minVotes {
        minVotes := counts[candidate];
        least := candidate;
      }
      unvisited := unvisited - {candidate};
    }
    assert counts.Keys != {};
  }

  /** The candidate that remains, if one does. */
  method Remaining(active: set<nat>) returns (winner: Option<nat>)
    requires |active| <= 1
    ensures winner == AnyOf(active)
  {
    winner := None;
    if active != {} {
      var candidate :| candidate in active;
      AnyOfOne(active, candidate);
      winner := Some(candidate);
    }
  }

  /** A round with a majority ends the count. */
  lemma RoundWins(rankings: seq<seq<int>>, active: set<nat>, rounds: seq<Round>, round: Round, c: nat)
    requires |active| > 1 && IsMajority(rankings, active, c) && round.eliminated == {}
    requires AreCounts(rankings, active, round.counts) && round.totalActive == Votes(rankings, active, active)
    ensures After(rounds, Count(rankings, active)) == Outcome(Some(c), rounds + [round])
  {
    CountMajority(rankings, active, c);
    assert round.counts == RoundAt(rankings, active, {}).counts;
  }

  /** A round without a majority takes the count one step on. */
  lemma RoundEliminates(rankings: seq<seq<int>>, active: set<nat>, rounds: seq<Round>, round: Round, minVotes: int)
    requires |active| > 1 && !exists c: nat :: IsMajority(rankings, active, c)
    requires AreCounts(rankings, active, round.counts) && round.totalActive == Votes(rankings, active, active)
    requires exists c | c in round.counts :: round.counts[c] == minVotes
    requires forall c | c in round.counts :: minVotes <= round.counts[c]
    requires round.eliminated == set c | c in round.counts && round.counts[c] == minVotes
    ensures |active - round.eliminated| < |active|
    ensures After(rounds, Count(rankings, active))
            == After(rounds + [round], Count(rankings, active - round.eliminated))
  {
    LowestAt(rankings, active, round.counts, minVotes, round.eliminated);
    CountElimination(rankings, active);
    assert round.counts == RoundAt(rankings, active, round.eliminated).counts;
    AfterOneMore(rounds, round, Count(rankings, active - round.eliminated));
  }

  /** ComputeIRV. Go visits the keys of a map in no particular order: each pass below picks the next key
      arbitrarily, so the contract also says that no order of visits can change the outcome.
      A list of ballots never has more than half of math.MaxInt elements in memory. */
  method ComputeIRV(rankings: seq<seq<int>>, numOptions: nat) returns (result: Outcome)
    requires |rankings| <= MAX_INT / 2
    ensures result == Count(rankings, Candidates(numOptions))
  {
    var active: set<nat> := {};
    for i := 0 to numOptions
      invariant active == Candidates(i)
    {
      active := active + {i};
    }

    ghost var whole := Count(rankings, active);
    var rounds: seq<Round> := [];
    assert rounds + whole.rounds == whole.rounds;
    while |active| > 1
      invariant whole == After(rounds, Count(rankings, active))
      decreases |active|
    {
      var counts, activeVotes := TallyRound(rankings, active);
      VotesBelowMaxInt(rankings, active, counts);

      var majority := FindMajority(rankings, active, counts, activeVotes);
      if majority.Some? {
        RoundWins(rankings, active, rounds, Round(counts, {}, activeVotes), majority.value);
        rounds := rounds + [Round(counts, {}, activeVotes)];
        return Outcome(majority, rounds);
      }

      // Everybody with the fewest votes leaves together.
      var minVotes := MinimumOf(counts);
      var eliminated := CandidatesAt(counts, minVotes);
      RoundEliminates(rankings, active, rounds, Round(counts, eliminated, activeVotes), minVotes);
      rounds := rounds + [Round(counts, eliminated, activeVotes)];
      active := active - eliminated;

      if |active| == 0 {
        break;
      }
    }

    assert Count(rankings, active) == Outcome(AnyOf(active), []);
    assert rounds + [] == rounds;
    var winner := Remaining(active);
    return Outcome(winner, rounds);
  }
}
