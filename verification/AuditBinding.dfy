/** What a published root says about the ballots behind it. */
module AuditBinding {
  import opened Hashing
  import opened StringOrder
  import opened Sequences
  import opened AuditRoot
  import opened Commitments
  import opened Polls
  import opened Tallies
  import opened Audit
  import opened Casting
  import opened CastingSafety
  import opened MerkleRoots

  /** The vote a row is for: a ranking if it has one. */
  function VoteOfRow(b: Ballot): Vote {
    if b.rankings != [] then Ranking(b.rankings) else Single(b.choiceIndex)
  }

  /** The row carries the commitment for its vote. */
  ghost predicate Commits(h: Hash, b: Ballot) {
    && (b.rankings != [] ==> b.choiceIndex == -1)
    && b.commitment == DeriveCommitment(h, b.voterToken, ChoiceStr(VoteOfRow(b)), b.receiptToken)
  }

  lemma SoundRowCommits(h: Hash, polls: map<Uuid, Poll>, b: Ballot)
    requires RowIsSound(h, polls, b)
    ensures Commits(h, b)
  {}

  /** Rows of one poll, each with the commitment for its vote. */
  ghost predicate CommittedRows(h: Hash, id: Uuid, rows: seq<Ballot>) {
    forall b | b in rows :: b.pollId == id && Commits(h, b)
  }

  // ---------- rows that share a commitment ----------

  predicate Twins(a: Ballot, b: Ballot) {
    a.commitment == b.commitment && a != b
  }

  ghost predicate HasTwins(rows: seq<Ballot>) {
    exists a, b | a in rows && b in rows :: Twins(a, b)
  }

  function RowPreimages(a: Ballot, b: Ballot): (string, string) {
    CommitmentPreimages(a.voterToken, VoteOfRow(a), a.receiptToken, b.voterToken, VoteOfRow(b), b.receiptToken)
  }

  /** Different rows of a poll with one commitment show a collision, whatever the poll is like: the kind of
      vote is bound too. */
  lemma TwinsCollide(h: Hash, a: Ballot, b: Ballot)
    requires Commits(h, a) && Commits(h, b) && a.pollId == b.pollId && Twins(a, b)
    ensures IsCollision(h, RowPreimages(a, b))
  {
    CommitmentBinds(h, a.voterToken, VoteOfRow(a), a.receiptToken, b.voterToken, VoteOfRow(b), b.receiptToken);
  }

  /** The strings hashed for two different rows with one commitment. */
  ghost function RowCollision(rows: seq<Ballot>): (string, string)
    requires HasTwins(rows)
  {
    var a, b :| a in rows && b in rows && Twins(a, b);
    RowPreimages(a, b)
  }

  lemma RowsCollide(h: Hash, id: Uuid, rows: seq<Ballot>)
    requires CommittedRows(h, id, rows) && HasTwins(rows)
    ensures IsCollision(h, RowCollision(rows))
  {
    var a, b :| a in rows && b in rows && Twins(a, b) && RowCollision(rows) == RowPreimages(a, b);
    TwinsCollide(h, a, b);
  }

  lemma CommitmentsHasRow(rows: seq<Ballot>, c: string) returns (j: nat)
    requires c in FlatMap(CommitmentOf, rows)
    ensures j < |rows| && rows[j].commitment == c
  {
    CommitmentsByRow(rows);
    j :| 0 <= j < |rows| && FlatMap(CommitmentOf, rows)[j] == c;
  }

  lemma SameRow(a: seq<Ballot>, b: seq<Ballot>, i: nat, j: nat)
    requires !HasTwins(a + b) && i < |a| && j < |b| && a[i].commitment == b[j].commitment
    ensures a[i] == b[j]
  {
    assert a[i] in a + b && b[j] in a + b;
    assert !Twins(a[i], b[j]);
  }

  lemma FewerRows(a: seq<Ballot>, b: seq<Ballot>, fewerA: seq<Ballot>, fewerB: seq<Ballot>)
    requires !HasTwins(a + b)
    requires (forall x | x in fewerA :: x in a) && (forall x | x in fewerB :: x in b)
    ensures !HasTwins(fewerA + fewerB)
  {
    forall x, y | x in fewerA + fewerB && y in fewerA + fewerB ensures !Twins(x, y) {
      assert x in a + b && y in a + b;
    }
  }

  function Without(rows: seq<Ballot>, j: nat): seq<Ballot>
    requires j < |rows|
  {
    rows[..j] + rows[j + 1..]
  }

  lemma WithoutOne(rows: seq<Ballot>, j: nat)
    requires j < |rows|
    ensures multiset(rows) == multiset(Without(rows, j)) + multiset{rows[j]}
    ensures multiset(FlatMap(CommitmentOf, rows))
            == multiset(FlatMap(CommitmentOf, Without(rows, j))) + multiset(CommitmentOf(rows[j]))
  {
    RemoveAt(rows, j);
    assert rows[j] in multiset(rows);
    FlatMapWithout(CommitmentOf, rows, j);
  }

  lemma WithoutHasNoMore(rows: seq<Ballot>, j: nat)
    requires j < |rows|
    ensures forall b | b in Without(rows, j) :: b in rows
  {}

  lemma Cancel(x: multiset<string>, y: multiset<string>, z: multiset<string>)
    requires x + z == y + z
    ensures x == y
  {
    forall c ensures x[c] == y[c] {
      assert (x + z)[c] == (y + z)[c];
    }
  }

  /** A row of one list that is also in the other can be taken out of both. */
  lemma TakeRow(a: seq<Ballot>, b: seq<Ballot>, j: nat)
    requires !HasTwins(a + b) && a != [] && j < |b| && a[0] == b[j]
    requires multiset(FlatMap(CommitmentOf, a)) == multiset(FlatMap(CommitmentOf, b))
    ensures !HasTwins(Without(a, 0) + Without(b, j))
    ensures multiset(FlatMap(CommitmentOf, Without(a, 0))) == multiset(FlatMap(CommitmentOf, Without(b, j)))
  {
    WithoutOne(a, 0);
    WithoutOne(b, j);
    WithoutHasNoMore(a, 0);
    WithoutHasNoMore(b, j);
    Cancel(multiset(FlatMap(CommitmentOf, Without(a, 0))), multiset(FlatMap(CommitmentOf, Without(b, j))),
           multiset(CommitmentOf(b[j])));
    FewerRows(a, b, Without(a, 0), Without(b, j));
  }

  lemma NoRows(b: seq<Ballot>)
    requires multiset(FlatMap(CommitmentOf, b)) == multiset{}
    ensures b == []
  {
    CommitmentsByRow(b);
    assert |multiset(FlatMap(CommitmentOf, b))| == |b|;
  }

  lemma MatchOf(a: seq<Ballot>, b: seq<Ballot>) returns (j: nat)
    requires !HasTwins(a + b) && a != []
    requires multiset(FlatMap(CommitmentOf, a)) == multiset(FlatMap(CommitmentOf, b))
    ensures j < |b| && a[0] == b[j]
  {
    CommitmentsByRow(a);
    assert FlatMap(CommitmentOf, a)[0] in multiset(FlatMap(CommitmentOf, a));
    assert FlatMap(CommitmentOf, a)[0] in multiset(FlatMap(CommitmentOf, b));
    j := CommitmentsHasRow(b, a[0].commitment);
    SameRow(a, b, 0, j);
  }

  /** Where no rows are twins, the commitments determine the rows. */
  lemma {:induction false} SameCommitmentsSameRows(a: seq<Ballot>, b: seq<Ballot>)
    requires !HasTwins(a + b)
    requires multiset(FlatMap(CommitmentOf, a)) == multiset(FlatMap(CommitmentOf, b))
    ensures multiset(a) == multiset(b)
    decreases |a|
  {
    if a == [] {
      NoRows(b);
    } else {
      var j := MatchOf(a, b);
      TakeRow(a, b, j);
      SameCommitmentsSameRows(Without(a, 0), Without(b, j));
      WithoutOne(a, 0);
      WithoutOne(b, j);
    }
  }

  // ---------- the audit root ----------

  ghost function AuditCollision(a: seq<Ballot>, b: seq<Ballot>): (string, string) {
    if HasTwins(a + b) then RowCollision(a + b)
    else RootPreimages(FlatMap(CommitmentOf, a), FlatMap(CommitmentOf, b))
  }

  lemma CommitmentsAreDigests(rows: seq<Ballot>)
    ensures AllDigests(FlatMap(CommitmentOf, rows))
  {
    CommitmentsByRow(rows);
  }

  /** The promise of the audit: rows of a poll, however many, with the same audit root are the same ballots,
      with the same voter tokens, votes and receipts, and so have the same tally; or AuditCollision is a
      collision. */
  lemma AuditRootBindsBallots(h: Hash, id: Uuid, a: seq<Ballot>, b: seq<Ballot>)
    requires CommittedRows(h, id, a) && CommittedRows(h, id, b)
    requires RootOf(h, FlatMap(CommitmentOf, a)) == RootOf(h, FlatMap(CommitmentOf, b))
    ensures || IsCollision(h, AuditCollision(a, b))
            || (multiset(a) == multiset(b) && forall poll :: TallyOf(h, poll, a) == TallyOf(h, poll, b))
  {
    if HasTwins(a + b) {
      RowsCollide(h, id, a + b);
    } else {
      CommitmentsAreDigests(a);
      CommitmentsAreDigests(b);
      RootBinds(h, FlatMap(CommitmentOf, a), FlatMap(CommitmentOf, b));
      if multiset(FlatMap(CommitmentOf, a)) == multiset(FlatMap(CommitmentOf, b)) {
        SameCommitmentsSameRows(a, b);
        forall poll ensures TallyOf(h, poll, a) == TallyOf(h, poll, b) {
          TallyIgnoresOrder(h, poll, a, b);
        }
      }
    }
  }

  // ---------- the Merkle root ----------

  lemma CountsTwice(s: seq<string>, i: nat, j: nat)
    requires i < j < |s| && s[i] == s[j]
    ensures multiset(s)[s[i]] >= 2
  {
    assert s == s[..i] + [s[i]] + s[i + 1..j] + [s[j]] + s[j + 1..];
  }

  lemma CountsOnce(s: seq<string>, c: string)
    requires NoRepeats(s)
    ensures multiset(s)[c] <= 1
  {
    if c in s {
      var p :| 0 <= p < |s| && s[p] == c;
      assert s == s[..p] + [c] + s[p + 1..];
      assert c !in s[..p] && c !in s[p + 1..];
    } else {
      assert c !in multiset(s);
    }
  }

  lemma SortedNoRepeats(s: seq<string>)
    requires NoRepeats(s)
    ensures NoRepeats(SortStrings(s))
  {
    var sorted := SortStrings(s);
    forall i, j | 0 <= i < j < |sorted| ensures sorted[i] != sorted[j] {
      if sorted[i] == sorted[j] {
        CountsTwice(sorted, i, j);
        CountsOnce(s, sorted[i]);
      }
    }
  }

  /** In a table no two rows conflict, so without twins no commitment repeats. */
  lemma NoTwinsNoRepeats(rows: seq<Ballot>)
    requires Unique(rows) && !HasTwins(rows)
    ensures NoRepeats(SortedCommitments(rows))
  {
    CommitmentsByRow(rows);
    var commitments := FlatMap(CommitmentOf, rows);
    forall i, j | 0 <= i < j < |commitments| ensures commitments[i] != commitments[j] {
      assert rows[i] in rows && rows[j] in rows;
      assert !Twins(rows[i], rows[j]) && !Conflicts(rows[i], rows[j]);
    }
    SortedNoRepeats(commitments);
  }

  ghost function MerkleCollision(h: Hash, a: seq<Ballot>, b: seq<Ballot>): (string, string) {
    if HasTwins(a + b) then RowCollision(a + b)
    else RootCollision(h, SortedCommitments(a), SortedCommitments(b))
  }

  /** The same for the Merkle root, for rows of which no two conflict, as in the table. Sets of different
      sizes are told apart too: those that are not would repeat a commitment. */
  lemma MerkleRootBindsBallots(h: Hash, id: Uuid, a: seq<Ballot>, b: seq<Ballot>)
    requires CommittedRows(h, id, a) && CommittedRows(h, id, b)
    requires Unique(a) && Unique(b) && BallotRoot(h, a) == BallotRoot(h, b)
    ensures IsCollision(h, MerkleCollision(h, a, b)) || multiset(a) == multiset(b)
  {
    if HasTwins(a + b) {
      RowsCollide(h, id, a + b);
    } else {
      FewerRows(a, b, a, []);
      FewerRows(a, b, [], b);
      assert a + [] == a && [] + b == b;
      NoTwinsNoRepeats(a);
      NoTwinsNoRepeats(b);
      SortedHasSame(a);
      SortedHasSame(b);
      RootBindsDistinct(h, SortedCommitments(a), SortedCommitments(b));
      if SortedCommitments(a) == SortedCommitments(b) {
        SameCommitmentsSameRows(a, b);
      }
    }
  }

  // ---------- published roots ----------

  lemma PublishedRowsCommit(h: Hash, states: seq<State>, steps: seq<Step>, n: nat, id: Uuid)
    requires IsRun(h, states, steps) && n < |states|
    ensures var rows := RowsOf(states[n].tables.ballots, id); Unique(rows) && CommittedRows(h, id, rows)
  {
    RunIsSafe(h, states, steps, n);
    var ballots := states[n].tables.ballots;
    RowsOfIsPart(ballots, id);
    forall b | b in RowsOf(ballots, id) ensures Commits(h, b) {
      SoundRowCommits(h, states[n].tables.polls, b);
    }
  }

  /** Take any two moments, of one run or of two. If the audit roots published then for a poll agree, or the
      Merkle roots, so do its ballots, or there is an explicit collision. */
  lemma PublishedRootsBind(h: Hash, states: seq<State>, steps: seq<Step>, n: nat,
                           others: seq<State>, otherSteps: seq<Step>, m: nat, id: Uuid)
    requires IsRun(h, states, steps) && n < |states| && IsRun(h, others, otherSteps) && m < |others|
    ensures var a, b := RowsOf(states[n].tables.ballots, id), RowsOf(others[m].tables.ballots, id);
            && (RootOf(h, FlatMap(CommitmentOf, a)) == RootOf(h, FlatMap(CommitmentOf, b)) ==>
                  multiset(a) == multiset(b) || IsCollision(h, AuditCollision(a, b)))
            && (BallotRoot(h, a) == BallotRoot(h, b) ==>
                  multiset(a) == multiset(b) || IsCollision(h, MerkleCollision(h, a, b)))
  {
    var a, b := RowsOf(states[n].tables.ballots, id), RowsOf(others[m].tables.ballots, id);
    PublishedRowsCommit(h, states, steps, n, id);
    PublishedRowsCommit(h, others, otherSteps, m, id);
    if RootOf(h, FlatMap(CommitmentOf, a)) == RootOf(h, FlatMap(CommitmentOf, b)) {
      AuditRootBindsBallots(h, id, a, b);
    }
    if BallotRoot(h, a) == BallotRoot(h, b) {
      MerkleRootBindsBallots(h, id, a, b);
    }
  }

  // ---------- the independent check ----------

  /** The root an auditor computes from the pages of a ballot list. */
  function RecomputedRoot(h: Hash, rows: seq<Ballot>, limits: nat -> int): string {
    RootOf(h, FlatMap(EntryCommitment, Walk(rows, limits, 0)))
  }

  lemma RecomputedIsRoot(h: Hash, rows: seq<Ballot>, limits: nat -> int)
    ensures RecomputedRoot(h, rows, limits) == RootOf(h, FlatMap(CommitmentOf, rows))
  {
    WalkReassembles(h, rows, limits);
    assert PageOf(h, rows, 0, 0).auditRoot == RecomputedRoot(h, rows, limits);
  }

  lemma PastRowsCommit(h: Hash, ballots: seq<Ballot>, k: nat, id: Uuid)
    requires k <= |ballots| && CommittedRows(h, id, RowsOf(ballots, id))
    ensures CommittedRows(h, id, RowsOf(ballots[..k], id))
  {
    var later := LaterRows(ballots, k, id);
    forall b | b in RowsOf(ballots[..k], id) ensures b in RowsOf(ballots, id) {
      assert b in RowsOf(ballots[..k], id) + later;
    }
  }

  /** The published check compares the root recomputed from the ballot list with the one in the results. It
      succeeds if the total in the results is the number of ballots listed; and it fails if the results are
      older than the list, unless the ballots of then and now show a collision. */
  lemma AuditorsCheck(h: Hash, states: seq<State>, steps: seq<Step>, n: nat, j: nat, limits: nat -> int)
    returns (past: seq<Ballot>)
    requires IsRun(h, states, steps) && n < |states|
    requires j in states[n].jobs && states[n].jobs[j].Served?
    ensures var id, tally := states[n].jobs[j].pollId, states[n].jobs[j].tally;
            var rows := RowsOf(states[n].tables.ballots, id);
            && (tally.totalVotes == |rows| ==> RecomputedRoot(h, rows, limits) == tally.auditRoot)
            && (RecomputedRoot(h, rows, limits) == tally.auditRoot ==>
                  tally.totalVotes == |rows| || IsCollision(h, AuditCollision(past, rows)))
    ensures past <= RowsOf(states[n].tables.ballots, states[n].jobs[j].pollId)
  {
    var ballots, id, tally := states[n].tables.ballots, states[n].jobs[j].pollId, states[n].jobs[j].tally;
    var rows := RowsOf(ballots, id);
    var k := ServedAt(h, states, steps, n, j);
    past := RowsOf(ballots[..k], id);
    var later := LaterRows(ballots, k, id);
    RecomputedIsRoot(h, rows, limits);
    PublishedRowsCommit(h, states, steps, n, id);
    PastRowsCommit(h, ballots, k, id);
    if |past| == |rows| {
      assert later == [];
      assert rows == past;
    } else if RecomputedRoot(h, rows, limits) == tally.auditRoot {
      AuditRootBindsBallots(h, id, past, rows);
      assert |multiset(past)| == |past| && |multiset(rows)| == |rows|;
    }
  }
}
