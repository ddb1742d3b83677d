/** The tally of a poll as a function of its ballot rows. */
module Tallies {
  import opened Wrappers
  import opened Hashing
  import opened Decimals
  import opened AuditRoot
  import opened InstantRunoff
  import opened RunoffLaws
  import opened RunoffOutcome
  import opened RunoffRules
  import opened Sets
  import opened Sequences
  import opened Polls

  /** The rows of one poll, in the order of the table. */
  function RowsOf(ballots: seq<Ballot>, pollId: Uuid): (rows: seq<Ballot>)
    ensures |rows| <= |ballots|
  {
    if ballots == [] then []
    else
      var last := |ballots| - 1;
      RowsOf(ballots[..last], pollId) + (if ballots[last].pollId == pollId then [ballots[last]] else [])
  }

  lemma RowsOfSnoc(ballots: seq<Ballot>, b: Ballot, pollId: Uuid)
    ensures RowsOf(ballots + [b], pollId) == RowsOf(ballots, pollId) + (if b.pollId == pollId then [b] else [])
  {
    assert (ballots + [b])[..|ballots|] == ballots;
  }

  lemma {:induction false} RowsOfAppend(a: seq<Ballot>, b: seq<Ballot>, pollId: Uuid)
    ensures RowsOf(a + b, pollId) == RowsOf(a, pollId) + RowsOf(b, pollId)
  {
    if b == [] {
      assert a + b == a;
    } else {
      var front, x := b[..|b| - 1], b[|b| - 1];
      assert b == front + [x] && a + b == (a + front) + [x];
      RowsOfAppend(a, front, pollId);
      RowsOfSnoc(a + front, x, pollId);
      RowsOfSnoc(front, x, pollId);
    }
  }

  /** The first row with a receipt token. */
  function WithReceipt(ballots: seq<Ballot>, receiptToken: string): Option<Ballot> {
    if ballots == [] then None
    else if ballots[0].receiptToken == receiptToken then Some(ballots[0])
    else WithReceipt(ballots[1..], receiptToken)
  }

  /** The ballot found has the receipt asked for; if none is found, no row has it. */
  lemma {:induction false} ReceiptIsFound(ballots: seq<Ballot>, receiptToken: string)
    ensures match WithReceipt(ballots, receiptToken)
            case Some(b) => b in ballots && b.receiptToken == receiptToken
            case None => forall b | b in ballots :: b.receiptToken != receiptToken
  {
    if ballots != [] && ballots[0].receiptToken != receiptToken {
      ReceiptIsFound(ballots[1..], receiptToken);
    }
  }

  /** A row is found under its receipt if no other row has that. */
  lemma OwnReceiptIsFound(ballots: seq<Ballot>, b: Ballot)
    requires b in ballots && forall other | other in ballots && other.receiptToken == b.receiptToken :: other == b
    ensures WithReceipt(ballots, b.receiptToken) == Some(b)
  {
    ReceiptIsFound(ballots, b.receiptToken);
  }

  lemma {:induction false} RowIsListed(ballots: seq<Ballot>, b: Ballot)
    requires b in ballots
    ensures b in RowsOf(ballots, b.pollId)
  {
    var last := |ballots| - 1;
    if b in ballots[..last] {
      RowIsListed(ballots[..last], b);
    }
  }

  /** The rows are those of the poll, all of them and in the order of the table, where they have the places. */
  ghost predicate StandAt(ballots: seq<Ballot>, id: Uuid, rows: seq<Ballot>, places: seq<nat>) {
    && |places| == |rows| && Ascending(places)
    && (forall i | 0 <= i < |places| :: places[i] < |ballots| && ballots[places[i]] == rows[i] && rows[i].pollId == id)
    && (forall k: nat {:trigger k in places} | k < |ballots| && ballots[k].pollId == id :: k in places)
  }

  ghost predicate AreRowsOf(ballots: seq<Ballot>, id: Uuid, rows: seq<Ballot>) {
    exists places: seq<nat> :: StandAt(ballots, id, rows, places)
  }

  lemma {:induction false} RowsStandInOrder(ballots: seq<Ballot>, id: Uuid) returns (places: seq<nat>)
    ensures StandAt(ballots, id, RowsOf(ballots, id), places)
  {
    if ballots == [] {
      places := [];
    } else {
      var last := |ballots| - 1;
      places := RowsStandInOrder(ballots[..last], id);
      if ballots[last].pollId == id {
        places := places + [last];
      }
    }
  }

  lemma RowsOfAreRows(ballots: seq<Ballot>, id: Uuid)
    ensures AreRowsOf(ballots, id, RowsOf(ballots, id))
  {
    var places := RowsStandInOrder(ballots, id);
  }

  function ChoiceKey(b: Ballot): seq<string> {
    [Itoa(b.choiceIndex)]
  }

  function ChoiceOf(b: Ballot): seq<int> {
    [b.choiceIndex]
  }

  function CommitmentOf(b: Ballot): seq<string> {
    [b.commitment]
  }

  /** Rows without a ranking are not handed to the runoff count. */
  function RankingOf(b: Ballot): seq<seq<int>> {
    if |b.rankings| > 0 then [b.rankings] else []
  }

  function OptionKeys(numOptions: nat): (keys: set<string>) {
    set i | 0 <= i < numOptions :: Itoa(i)
  }

  function KeySet(keys: seq<string>): set<string> {
    set k | k in keys
  }

  /** Every option and every key that occurs, with the number of its occurrences. */
  function Occurrences(options: set<string>, keys: seq<string>): map<string, nat> {
    map k | k in options + KeySet(keys) :: multiset(keys)[k]
  }

  /** The ballots of a single-choice poll by choice. */
  function SingleChoiceCounts(numOptions: nat, rows: seq<Ballot>): map<string, nat> {
    Occurrences(OptionKeys(numOptions), FlatMap(ChoiceKey, rows))
  }

  /** No ballots for any option yet. */
  function ZeroCounts(numOptions: nat): map<string, nat> {
    map k | k in OptionKeys(numOptions) :: 0
  }

  /** All ballots go to the winner. */
  function RankedCounts(numOptions: nat, rows: seq<Ballot>, winner: Option<nat>): map<string, nat> {
    var zeros := ZeroCounts(numOptions);
    if winner.Some? then zeros[Itoa(winner.value) := |rows|] else zeros
  }

  ghost function Runoff(poll: Poll, rows: seq<Ballot>): Outcome {
    Count(FlatMap(RankingOf, rows), Candidates(|poll.options|))
  }

  ghost function TallyOf(h: Hash, poll: Poll, rows: seq<Ballot>): StoredTally {
    var counts := if poll.ballotType == Ranked
                  then RankedCounts(|poll.options|, rows, Runoff(poll, rows).winner)
                  else SingleChoiceCounts(|poll.options|, rows);
    StoredTally(counts, |rows|, RootOf(h, FlatMap(CommitmentOf, rows)))
  }

  lemma SameKeys(a: seq<string>, b: seq<string>)
    requires multiset(a) == multiset(b)
    ensures KeySet(a) == KeySet(b)
  {
    assert forall k :: k in a <==> k in multiset(a);
    assert forall k :: k in b <==> k in multiset(b);
  }

  /** A tally does not depend on the order in which the rows are read. */
  lemma TallyIgnoresOrder(h: Hash, poll: Poll, a: seq<Ballot>, b: seq<Ballot>)
    requires multiset(a) == multiset(b)
    ensures TallyOf(h, poll, a) == TallyOf(h, poll, b)
  {
    assert |a| == |multiset(a)| && |b| == |multiset(b)|;
    FlatMapPermutation(ChoiceKey, a, b);
    FlatMapPermutation(CommitmentOf, a, b);
    FlatMapPermutation(RankingOf, a, b);
    SameKeys(FlatMap(ChoiceKey, a), FlatMap(ChoiceKey, b));
    RootIgnoresOrder(h, FlatMap(CommitmentOf, a), FlatMap(CommitmentOf, b));
    CountIsAnonymous(FlatMap(RankingOf, a), FlatMap(RankingOf, b), Candidates(|poll.options|));
  }

  // ---------- what the counts add up to ----------

  lemma {:induction false} SumOfMultiset<K>(counts: map<K, nat>, keys: set<K>, votes: multiset<K>)
    requires keys <= counts.Keys && forall k | k in keys :: counts[k] == votes[k]
    requires forall k | k in votes :: k in keys
    ensures Sum(counts, keys) == |votes|
    decreases keys
  {
    if keys == {} {
      assert votes == multiset{};
    } else {
      var k :| k in keys && Sum(counts, keys) == counts[k] + Sum(counts, keys - {k});
      SumOfMultiset(counts, keys - {k}, votes[k := 0]);
    }
  }

  lemma {:induction false} SumAtMost<K>(counts: map<K, nat>, keys: set<K>, votes: multiset<K>)
    requires keys <= counts.Keys && forall k | k in keys :: counts[k] == votes[k]
    ensures Sum(counts, keys) <= |votes|
    decreases keys
  {
    if keys == {} {
    } else {
      var k :| k in keys && Sum(counts, keys) == counts[k] + Sum(counts, keys - {k});
      SumAtMost(counts, keys - {k}, votes[k := 0]);
    }
  }

  /** The counts of a single-choice poll add up to its ballots. */
  lemma SingleChoiceAddsUp(h: Hash, poll: Poll, rows: seq<Ballot>)
    requires poll.ballotType == Fptp
    ensures var tally := TallyOf(h, poll, rows);
            Sum(tally.counts, tally.counts.Keys) == tally.totalVotes == |rows|
  {
    var keys := FlatMap(ChoiceKey, rows);
    var counts := SingleChoiceCounts(|poll.options|, rows);
    FlatMapOfOnes(ChoiceKey, rows);
    assert forall k :: k in keys <==> k in multiset(keys);
    SumOfMultiset(counts, counts.Keys, multiset(keys));
  }

  /** counts[key]++, where a key that is not there counts as zero. */
  function Bumped<K>(counts: map<K, nat>, key: K): map<K, nat> {
    counts[key := (if key in counts then counts[key] else 0) + 1]
  }

  /** How often each choice occurs. */
  function Groups(choices: seq<int>): map<int, nat> {
    map c | c in choices :: multiset(choices)[c]
  }

  /** The total announced to the subscribers of a poll is the number of its ballots, ranked or not. A reading
      that breaks off after some of the groups gives no more. */
  lemma GroupsAddUp(rows: seq<Ballot>, read: set<int>)
    requires read <= Groups(FlatMap(ChoiceOf, rows)).Keys
    ensures var groups := Groups(FlatMap(ChoiceOf, rows));
            Sum(groups, read) <= |rows| == Sum(groups, groups.Keys)
  {
    var choices := FlatMap(ChoiceOf, rows);
    FlatMapOfOnes(ChoiceOf, rows);
    assert forall c :: c in choices <==> c in multiset(choices);
    SumOfMultiset(Groups(choices), Groups(choices).Keys, multiset(choices));
    SumAtMost(Groups(choices), read, multiset(choices));
  }

  lemma OneMoreChoice(choices: seq<int>, c: int)
    ensures Groups(choices + [c]) == Bumped(Groups(choices), c)
  {}

  lemma OneMoreInGroup(rows: seq<Ballot>, i: nat)
    requires i < |rows|
    ensures Groups(FlatMap(ChoiceOf, rows[..i + 1]))
            == Bumped(Groups(FlatMap(ChoiceOf, rows[..i])), rows[i].choiceIndex)
  {
    assert rows[..i + 1] == rows[..i] + [rows[i]];
    FlatMapSnoc(ChoiceOf, rows[..i], rows[i]);
    OneMoreChoice(FlatMap(ChoiceOf, rows[..i]), rows[i].choiceIndex);
  }

  lemma {:induction false} KeyHasRow(rows: seq<Ballot>, k: string)
    requires k in FlatMap(ChoiceKey, rows)
    ensures exists i :: 0 <= i < |rows| && k == Itoa(rows[i].choiceIndex)
  {
    var last := |rows| - 1;
    if k in FlatMap(ChoiceKey, rows[..last]) {
      KeyHasRow(rows[..last], k);
      var i :| 0 <= i < last && k == Itoa(rows[..last][i].choiceIndex);
      assert k == Itoa(rows[i].choiceIndex);
    } else {
      assert k == Itoa(rows[last].choiceIndex);
    }
  }

  /** On valid rows they are for the options of the poll and nothing else. */
  lemma ValidRowsCountOptions(poll: Poll, rows: seq<Ballot>)
    requires poll.ballotType == Fptp && forall i | 0 <= i < |rows| :: IsValidVote(poll, rows[i])
    ensures SingleChoiceCounts(|poll.options|, rows).Keys == OptionKeys(|poll.options|)
  {
    var keys := FlatMap(ChoiceKey, rows);
    forall k | k in keys ensures k in OptionKeys(|poll.options|) {
      KeyHasRow(rows, k);
    }
  }

  /** The counts of a ranked poll add up to its ballots exactly when there is a winner or no ballot. */
  lemma RankedAddsUp(h: Hash, poll: Poll, rows: seq<Ballot>)
    requires poll.ballotType == Ranked
    ensures var tally := TallyOf(h, poll, rows);
            Sum(tally.counts, tally.counts.Keys) == tally.totalVotes
            <==> (Runoff(poll, rows).winner.Some? || rows == [])
  {
    var winner := Runoff(poll, rows).winner;
    var counts := RankedCounts(|poll.options|, rows, winner);
    var votes: multiset<string> := if winner.Some? then multiset{}[Itoa(winner.value) := |rows|] else multiset{};
    SumOfMultiset(counts, counts.Keys, votes);
  }

  lemma TiedRankings(rows: seq<Ballot>)
    requires |rows| == 2 && rows[0].rankings == [0] && rows[1].rankings == [1]
    ensures FlatMap(RankingOf, rows) == [[0], [1]]
  {
    assert rows == [] + [rows[0]] + [rows[1]];
    FlatMapSnoc(RankingOf, [], rows[0]);
    FlatMapSnoc(RankingOf, [rows[0]], rows[1]);
    assert FlatMap(RankingOf, []) == [];
  }

  lemma OneEach()
    ensures Count([[0], [1]], Candidates(2)).winner == None
  {
    var rankings: seq<seq<int>> := [[0], [1]];
    var all: set<nat> := {0, 1};
    assert Candidates(2) == all;
    assert rankings == [] + [[0]] + [[1]];
    forall group: set<nat>
      ensures Votes(rankings, all, group) == (if 0 in group then 1 else 0) + (if 1 in group then 1 else 0)
    {
      VotesOneMore([], [0], all, group);
      VotesOneMore([[0]], [1], all, group);
    }
    TwoTie(rankings, 0, 1);
  }

  /** One ballot for each of two options: there is no winner, and the counts do not add up to the ballots. */
  lemma RankedNeedNotAddUp(h: Hash, poll: Poll, rows: seq<Ballot>)
    requires poll.ballotType == Ranked && |poll.options| == 2
    requires |rows| == 2 && rows[0].rankings == [0] && rows[1].rankings == [1]
    ensures Runoff(poll, rows).winner == None
    ensures var tally := TallyOf(h, poll, rows); Sum(tally.counts, tally.counts.Keys) != tally.totalVotes
  {
    TiedRankings(rows);
    OneEach();
    RankedAddsUp(h, poll, rows);
  }

  /** Later ballots only add to the counts of a single-choice poll. */
  lemma CountsGrow(h: Hash, poll: Poll, rows: seq<Ballot>, later: seq<Ballot>)
    requires poll.ballotType == Fptp
    ensures var before, after := TallyOf(h, poll, rows), TallyOf(h, poll, rows + later);
            && before.counts.Keys <= after.counts.Keys
            && (forall k | k in before.counts :: before.counts[k] <= after.counts[k])
            && before.totalVotes <= after.totalVotes
  {
    FlatMapAppend(ChoiceKey, rows, later);
    var keys, more := FlatMap(ChoiceKey, rows), FlatMap(ChoiceKey, later);
    assert multiset(keys + more) == multiset(keys) + multiset(more);
    assert forall k | k in keys :: k in keys + more;
  }

  // ---------- whom the counts are for ----------

  /** The rows with a choice. */
  ghost function RowsFor(rows: seq<Ballot>, c: int): set<nat> {
    set i: nat | i < |rows| && rows[i].choiceIndex == c
  }

  lemma OneMoreRow(rows: seq<Ballot>, b: Ballot, c: int)
    ensures |RowsFor(rows + [b], c)| == |RowsFor(rows, c)| + (if b.choiceIndex == c then 1 else 0)
  {
    if b.choiceIndex == c {
      assert RowsFor(rows + [b], c) == RowsFor(rows, c) + {|rows|};
    } else {
      assert RowsFor(rows + [b], c) == RowsFor(rows, c);
    }
  }

  lemma ItoaInjective(a: int, b: int)
    requires Itoa(a) == Itoa(b)
    ensures a == b
  {
    ItoaPrefix(a, [], b, []);
  }

  lemma {:induction false} KeysAreRows(rows: seq<Ballot>, c: int)
    ensures multiset(FlatMap(ChoiceKey, rows))[Itoa(c)] == |RowsFor(rows, c)|
  {
    if rows == [] {
    } else {
      var last := |rows| - 1;
      KeysAreRows(rows[..last], c);
      OneMoreRow(rows[..last], rows[last], c);
      assert rows == rows[..last] + [rows[last]];
      if Itoa(rows[last].choiceIndex) == Itoa(c) {
        ItoaInjective(rows[last].choiceIndex, c);
      }
    }
  }

  lemma {:induction false} ChoicesAreRows(rows: seq<Ballot>, c: int)
    ensures multiset(FlatMap(ChoiceOf, rows))[c] == |RowsFor(rows, c)|
  {
    if rows == [] {
    } else {
      var last := |rows| - 1;
      ChoicesAreRows(rows[..last], c);
      OneMoreRow(rows[..last], rows[last], c);
      assert rows == rows[..last] + [rows[last]];
    }
  }

  /** The count under the decimal of c is the number of rows with choice c; there is one for every option and
      for every choice that occurs, and nothing else. */
  ghost predicate AreVoteCounts(numOptions: nat, rows: seq<Ballot>, counts: map<string, nat>) {
    && (forall k | k in counts :: exists c: int :: k == Itoa(c))
    && forall c: int ::
         && (Itoa(c) in counts <==> 0 <= c < numOptions || RowsFor(rows, c) != {})
         && (Itoa(c) in counts ==> counts[Itoa(c)] == |RowsFor(rows, c)|)
  }

  /** The winner has all rows and every other option none. */
  ghost predicate AreRankedCounts(numOptions: nat, rows: seq<Ballot>, winner: Option<nat>, counts: map<string, nat>) {
    && (forall k | k in counts :: exists i: nat :: i < numOptions && k == Itoa(i))
    && forall i: nat | i < numOptions ::
         Itoa(i) in counts && counts[Itoa(i)] == if winner == Some(i) then |rows| else 0
  }

  lemma CountsAreVotes(numOptions: nat, rows: seq<Ballot>)
    ensures AreVoteCounts(numOptions, rows, SingleChoiceCounts(numOptions, rows))
  {
    var keys, counts := FlatMap(ChoiceKey, rows), SingleChoiceCounts(numOptions, rows);
    forall k | k in counts ensures exists c: int :: k == Itoa(c) {
      if k in keys {
        KeyHasRow(rows, k);
      }
    }
    forall c: int
      ensures Itoa(c) in counts <==> 0 <= c < numOptions || RowsFor(rows, c) != {}
      ensures Itoa(c) in counts ==> counts[Itoa(c)] == |RowsFor(rows, c)|
    {
      KeysAreRows(rows, c);
      assert Itoa(c) in keys <==> multiset(keys)[Itoa(c)] > 0;
      if i :| 0 <= i < numOptions && Itoa(i) == Itoa(c) {
        ItoaInjective(i, c);
      }
    }
  }

  lemma WinnerHasAll(numOptions: nat, rows: seq<Ballot>, winner: Option<nat>)
    requires winner.Some? ==> winner.value < numOptions
    ensures AreRankedCounts(numOptions, rows, winner, RankedCounts(numOptions, rows, winner))
  {
    forall i: nat | i < numOptions && winner.Some? && Itoa(i) == Itoa(winner.value) ensures winner == Some(i) {
      ItoaInjective(i, winner.value);
    }
  }

  /** The rankings are those of the rows that have one, all of them and in their order. */
  ghost predicate AreRankingsAt(rows: seq<Ballot>, rankings: seq<seq<int>>, places: seq<nat>) {
    && |places| == |rankings| && Ascending(places)
    && (forall i | 0 <= i < |places| ::
          places[i] < |rows| && rankings[i] == rows[places[i]].rankings && rankings[i] != [])
    && (forall k: nat {:trigger k in places} | k < |rows| && rows[k].rankings != [] :: k in places)
  }

  lemma OneMoreRanking(rows: seq<Ballot>, b: Ballot, rankings: seq<seq<int>>, places: seq<nat>)
    requires AreRankingsAt(rows, rankings, places) && b.rankings != []
    ensures AreRankingsAt(rows + [b], rankings + [b.rankings], places + [|rows|])
  {}

  lemma NoMoreRanking(rows: seq<Ballot>, b: Ballot, rankings: seq<seq<int>>, places: seq<nat>)
    requires AreRankingsAt(rows, rankings, places) && b.rankings == []
    ensures AreRankingsAt(rows + [b], rankings, places)
  {}

  lemma {:induction false} RankingsStandInOrder(rows: seq<Ballot>) returns (places: seq<nat>)
    ensures AreRankingsAt(rows, FlatMap(RankingOf, rows), places)
  {
    if rows == [] {
      places := [];
    } else {
      var last := |rows| - 1;
      places := RankingsStandInOrder(rows[..last]);
      assert rows[..last] + [rows[last]] == rows;
      if rows[last].rankings == [] {
        NoMoreRanking(rows[..last], rows[last], FlatMap(RankingOf, rows[..last]), places);
      } else {
        OneMoreRanking(rows[..last], rows[last], FlatMap(RankingOf, rows[..last]), places);
        places := places + [last];
      }
    }
  }

  /** The outcome follows the runoff rules for all options and the rankings of the rows that have one. */
  ghost predicate IsRightRunoff(poll: Poll, rows: seq<Ballot>, outcome: Outcome) {
    exists rankings, places :: AreRankingsAt(rows, rankings, places)
                               && FollowsRules(rankings, Candidates(|poll.options|), outcome)
  }

  lemma RunoffIsRight(poll: Poll, rows: seq<Ballot>)
    ensures IsRightRunoff(poll, rows, Runoff(poll, rows))
  {
    var places := RankingsStandInOrder(rows);
    CountFollowsRules(FlatMap(RankingOf, rows), Candidates(|poll.options|), Runoff(poll, rows));
  }

  /** The tally counts the rows: for each option its votes, or in a ranked poll all of them for the winner of the
      runoff reported with it. */
  ghost predicate IsRightTally(h: Hash, poll: Poll, rows: seq<Ballot>, tally: StoredTally, irv: Option<Outcome>) {
    && tally.totalVotes == |rows| && tally.auditRoot == RootOf(h, FlatMap(CommitmentOf, rows))
    && match poll.ballotType
       case Fptp => irv == None && AreVoteCounts(|poll.options|, rows, tally.counts)
       case Ranked =>
         && irv.Some? && IsRightRunoff(poll, rows, irv.value)
         && AreRankedCounts(|poll.options|, rows, irv.value.winner, tally.counts)
  }

  lemma TallyIsRight(h: Hash, poll: Poll, rows: seq<Ballot>)
    ensures IsRightTally(h, poll, rows, TallyOf(h, poll, rows),
                         if poll.ballotType == Ranked then Some(Runoff(poll, rows)) else None)
  {
    if poll.ballotType == Fptp {
      CountsAreVotes(|poll.options|, rows);
    } else {
      RunoffIsRight(poll, rows);
      WinnerStands(FlatMap(RankingOf, rows), Candidates(|poll.options|));
      WinnerHasAll(|poll.options|, rows, Runoff(poll, rows).winner);
    }
  }

  /** For each choice that occurs, the number of its rows. */
  ghost predicate AreGroups(rows: seq<Ballot>, groups: map<int, nat>) {
    forall c: int ::
      && (c in groups <==> RowsFor(rows, c) != {})
      && (c in groups ==> groups[c] == |RowsFor(rows, c)|)
  }

  lemma GroupsAreVotes(rows: seq<Ballot>)
    ensures AreGroups(rows, Groups(FlatMap(ChoiceOf, rows)))
  {
    var choices := FlatMap(ChoiceOf, rows);
    forall c: int ensures multiset(choices)[c] == |RowsFor(rows, c)| && (c in choices <==> RowsFor(rows, c) != {}) {
      ChoicesAreRows(rows, c);
      assert c in choices <==> multiset(choices)[c] > 0;
    }
  }

  // ---------- computing a tally ----------

  /** The runoff is reported only when the tally has just been computed. */
  datatype Tally = Tally(stored: StoredTally, irv: Option<Outcome>)

  lemma OneMoreKey(options: set<string>, keys: seq<string>, key: string)
    ensures Occurrences(options, keys + [key]) == Bumped(Occurrences(options, keys), key)
  {}

  lemma OneMoreBallot(numOptions: nat, ballots: seq<Ballot>, i: nat)
    requires i < |ballots|
    ensures SingleChoiceCounts(numOptions, ballots[..i + 1])
            == Bumped(SingleChoiceCounts(numOptions, ballots[..i]), Itoa(ballots[i].choiceIndex))
    ensures FlatMap(CommitmentOf, ballots[..i + 1]) == FlatMap(CommitmentOf, ballots[..i]) + [ballots[i].commitment]
  {
    assert ballots[..i + 1] == ballots[..i] + [ballots[i]];
    FlatMapSnoc(ChoiceKey, ballots[..i], ballots[i]);
    FlatMapSnoc(CommitmentOf, ballots[..i], ballots[i]);
    OneMoreKey(OptionKeys(numOptions), FlatMap(ChoiceKey, ballots[..i]), Itoa(ballots[i].choiceIndex));
  }

  /** The loop over the ballots of a single-choice poll. */
  method CountSingleChoice(numOptions: nat, ballots: seq<Ballot>, zeros: map<string, nat>)
    returns (counts: map<string, nat>, commitments: seq<string>)
    requires zeros == ZeroCounts(numOptions)
    ensures counts == SingleChoiceCounts(numOptions, ballots)
    ensures commitments == FlatMap(CommitmentOf, ballots)
  {
    counts, commitments := zeros, [];
    var i := 0;
    while i < |ballots|
      invariant i <= |ballots|
      invariant commitments == FlatMap(CommitmentOf, ballots[..i])
      invariant counts == SingleChoiceCounts(numOptions, ballots[..i])
    {
      OneMoreBallot(numOptions, ballots, i);
      counts := Bumped(counts, Itoa(ballots[i].choiceIndex));
      commitments := commitments + [ballots[i].commitment];
      i := i + 1;
    }
    assert ballots[..i] == ballots;
  }

  /** The loop over the ballots of a ranked poll. */
  method CollectRankings(ballots: seq<Ballot>) returns (rankings: seq<seq<int>>, commitments: seq<string>)
    ensures rankings == FlatMap(RankingOf, ballots) && |rankings| <= |ballots|
    ensures commitments == FlatMap(CommitmentOf, ballots)
  {
    rankings, commitments := [], [];
    for i := 0 to |ballots|
      invariant commitments == FlatMap(CommitmentOf, ballots[..i])
      invariant rankings == FlatMap(RankingOf, ballots[..i]) && |rankings| <= i
    {
      assert ballots[..i + 1] == ballots[..i] + [ballots[i]];
      FlatMapSnoc(CommitmentOf, ballots[..i], ballots[i]);
      FlatMapSnoc(RankingOf, ballots[..i], ballots[i]);
      commitments := commitments + [ballots[i].commitment];
      if |ballots[i].rankings| > 0 {
        rankings := rankings + [ballots[i].rankings];
      }
    }
    assert ballots[..|ballots|] == ballots;
  }

  lemma OneMoreOption(n: nat)
    ensures ZeroCounts(n + 1) == ZeroCounts(n)[Itoa(n) := 0]
  {}

  /** The counting part of ComputeAndStoreTally. */
  method ComputeTally(h: Hash, poll: Poll, ballots: seq<Ballot>) returns (tally: Tally)
    requires |ballots| <= MAX_INT / 2
    ensures IsRightTally(h, poll, ballots, tally.stored, tally.irv)
    ensures tally.stored == TallyOf(h, poll, ballots)
    ensures tally.irv == if poll.ballotType == Ranked then Some(Runoff(poll, ballots)) else None
  {
    TallyIsRight(h, poll, ballots);
    var counts: map<string, nat> := map[];
    for i := 0 to |poll.options|
      invariant counts == ZeroCounts(i)
    {
      OneMoreOption(i);
      counts := counts[Itoa(i) := 0];
    }
    var commitments: seq<string>;
    var irv: Option<Outcome> := None;
    if poll.ballotType == Ranked {
      var rankings;
      rankings, commitments := CollectRankings(ballots);
      var result := ComputeIRV(rankings, |poll.options|);
      irv := Some(result);
      if result.winner.Some? {
        counts := counts[Itoa(result.winner.value) := |ballots|];
      }
    } else {
      counts, commitments := CountSingleChoice(|poll.options|, ballots, counts);
    }
    var root := ComputeAuditRoot(h, commitments);
    return Tally(StoredTally(counts, |ballots|, root), irv);
  }
}
