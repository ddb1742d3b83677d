/** The public audit page read by read, while ballots may be stored in between. */
module AuditReads {
  import opened Wrappers
  import opened Hashing
  import opened AuditRoot
  import opened Sequences
  import opened Polls
  import opened Tallies
  import opened Audit
  import opened Casting
  import opened CastingSafety

  /** GetAuditProof counts the rows, then reads the page, then reads all rows for the root. */
  function AuditAnswer(h: Hash, counted: seq<Ballot>, paged: seq<Ballot>, listed: seq<Ballot>,
                       offset: nat, limit: int): AuditProof {
    AuditProof(EntriesOn(paged, offset, limit), RootOf(h, FlatMap(CommitmentOf, listed)),
               |counted|, offset, ClampLimit(limit))
  }

  lemma LaterTable(before: seq<Ballot>, after: seq<Ballot>, id: Uuid)
    requires before <= after
    ensures RowsOf(before, id) <= RowsOf(after, id)
  {
    assert after[..|before|] == before;
    var later := LaterRows(after, |before|, id);
  }

  lemma PageOfMore(before: seq<Ballot>, after: seq<Ballot>, offset: nat, limit: int)
    requires before <= after
    ensures EntriesOn(before, offset, limit) <= EntriesOn(after, offset, limit)
  {
    var page, longer := Slice(before, offset, ClampLimit(limit)), Slice(after, offset, ClampLimit(limit));
    forall i | 0 <= i < |page| ensures page[i] == longer[i] {}
  }

  /** Whatever is stored between the three reads, each sees the rows the one before saw, in their places, and
      perhaps more: the page shown is the front of the page of the rows under the root. The answer is a page
      of one ballot list, the one under the root, exactly when the total is the number of its ballots. */
  lemma AuditAnswerIsPage(h: Hash, states: seq<State>, steps: seq<Step>, i: nat, j: nat, k: nat,
                          id: Uuid, offset: nat, limit: int)
    requires IsRun(h, states, steps) && i <= j <= k < |states|
    ensures var counted, paged := RowsOf(states[i].tables.ballots, id), RowsOf(states[j].tables.ballots, id);
            var listed := RowsOf(states[k].tables.ballots, id);
            var answer := AuditAnswer(h, counted, paged, listed, offset, limit);
            && counted <= paged <= listed
            && answer.entries <= PageOf(h, listed, offset, limit).entries
            && (answer == PageOf(h, listed, offset, limit) <==> answer.total == |listed|)
  {
    RunKeeps(h, states, steps, i, j);
    RunKeeps(h, states, steps, j, k);
    LaterTable(states[i].tables.ballots, states[j].tables.ballots, id);
    LaterTable(states[j].tables.ballots, states[k].tables.ballots, id);
    PageOfMore(RowsOf(states[j].tables.ballots, id), RowsOf(states[k].tables.ballots, id), offset, limit);
  }

  // ---------- finding one's own vote ----------

  /** The entry shows the vote that was sent. */
  ghost predicate ShowsVote(poll: Poll, cast: CastRequest, entry: AuditEntry) {
    match poll.ballotType
    case Fptp => entry.choiceIndex == cast.choiceIndex && entry.rankings == []
    case Ranked => entry.choiceIndex == -1 && entry.rankings == cast.rankings
  }

  /** Entry i is the only one with the receipt. */
  ghost predicate IsOnlyEntry(entries: seq<AuditEntry>, receiptToken: Uuid, i: nat) {
    && i < |entries| && entries[i].receiptToken == receiptToken
    && forall j | 0 <= j < |entries| && j != i :: entries[j].receiptToken != receiptToken
  }

  lemma OnlyRow(rows: seq<Ballot>, i: nat)
    requires Unique(rows) && i < |rows|
    ensures forall j | 0 <= j < |rows| && j != i :: rows[j].receiptToken != rows[i].receiptToken
  {
    forall j | 0 <= j < |rows| && j != i ensures rows[j].receiptToken != rows[i].receiptToken {
      assert !Conflicts(rows[if i < j then i else j], rows[if i < j then j else i]);
    }
  }

  lemma OnlyBallot(ballots: seq<Ballot>, b: Ballot)
    requires Unique(ballots) && b in ballots
    ensures WithReceipt(ballots, b.receiptToken) == Some(b)
  {
    forall other | other in ballots && other.receiptToken == b.receiptToken ensures other == b {
      TwinsAreOne(ballots, other, b);
    }
    OwnReceiptIsFound(ballots, b);
  }

  /** Every voter whose ballot was stored finds exactly one entry with the receipt, in any walk through the audit
      pages and at any later time, and it shows the vote that was sent; and the receipt leads to that ballot. */
  lemma VoterFindsVote(h: Hash, states: seq<State>, steps: seq<Step>, n: nat, c: nat, limits: nat -> int)
    returns (i: nat)
    requires IsRun(h, states, steps) && n < |states|
    requires c in states[n].calls && BallotOf(states[n].calls[c]).Some?
    ensures var s, cast, b := states[n], states[n].calls[c].cast, BallotOf(states[n].calls[c]).value;
            var entries := Walk(RowsOf(s.tables.ballots, cast.pollId), limits, 0);
            && IsOnlyEntry(entries, b.receiptToken, i)
            && cast.pollId in s.tables.polls && ShowsVote(s.tables.polls[cast.pollId], cast, entries[i])
            && WithReceipt(s.tables.ballots, b.receiptToken) == Some(b)
  {
    CastingIsSafe(h, states, steps, n);
    RunIsSafe(h, states, steps, n);
    var s, cast, b := states[n], states[n].calls[c].cast, BallotOf(states[n].calls[c]).value;
    var rows := RowsOf(s.tables.ballots, cast.pollId);
    RowIsListed(s.tables.ballots, b);
    RowsOfIsPart(s.tables.ballots, cast.pollId);
    i :| 0 <= i < |rows| && rows[i] == b;
    OnlyRow(rows, i);
    WalkReassembles(h, rows, limits);
    OnlyBallot(s.tables.ballots, b);
  }
}
