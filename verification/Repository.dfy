/** The voter repository: the tables, changed in place by one statement at a time. */
module Repository {
  import opened Wrappers
  import opened Hashing
  import opened Polls
  import opened Tallies
  import opened Sequences

  class VoterRepository {
    var polls: map<Uuid, Poll>
    var ballots: seq<Ballot>
    var tallies: map<Uuid, StoredTally>

    constructor ()
      ensures Contents() == Tables(map[], [], map[])
    {
      polls, ballots, tallies := map[], [], map[];
    }

    ghost function Contents(): Tables
      reads this
    {
      Tables(polls, ballots, tallies)
    }

    /** The row is refused when the id is taken or closes_at is not after opens_at. */
    method CreatePoll(id: Uuid, poll: Poll) returns (created: bool)
      modifies `polls
      ensures created <==> id !in old(polls) && poll.closesAt > poll.opensAt
      ensures polls == if created then old(polls)[id := poll] else old(polls)
    {
      created := id !in polls && poll.closesAt > poll.opensAt;
      if created {
        polls := polls[id := poll];
      }
    }

    method GetPollByID(id: Uuid) returns (poll: Option<Poll>)
      ensures poll == if id in polls then Some(polls[id]) else None
    {
      poll := if id in polls then Some(polls[id]) else None;
    }

    static function DueToOpen(polls: map<Uuid, Poll>, now: int): set<Uuid> {
      set id | id in polls && polls[id].status == Draft && polls[id].opensAt <= now
    }

    static function DueToClose(polls: map<Uuid, Poll>, now: int): set<Uuid> {
      set id | id in polls && polls[id].status == Open && polls[id].closesAt <= now
    }

    /** The rows that have changed. */
    static function Changed(before: map<Uuid, Poll>, after: map<Uuid, Poll>): set<Uuid>
      requires before.Keys == after.Keys
    {
      set id | id in before && before[id] != after[id]
    }

    /** The drafts whose opening time has come become open, everything else stays, and they are counted. */
    method OpenDraftPolls(now: int) returns (affected: nat)
      modifies `polls
      ensures polls.Keys == old(polls).Keys
      ensures forall id | id in polls ::
                if id in DueToOpen(old(polls), now) then
                  polls[id].status == Open && SamePoll(polls[id], old(polls)[id])
                else polls[id] == old(polls)[id]
      ensures affected == |DueToOpen(old(polls), now)|
      ensures polls == OpenDrafts(old(polls), now)
    {
      var before := polls;
      polls := OpenDrafts(polls, now);
      affected := |Changed(before, polls)|;
      assert Changed(before, polls) == DueToOpen(before, now);
    }

    /** The open polls whose closing time has come become closed, everything else stays, and they are counted. */
    method CloseExpiredPolls(now: int) returns (affected: nat)
      modifies `polls
      ensures polls.Keys == old(polls).Keys
      ensures forall id | id in polls ::
                if id in DueToClose(old(polls), now) then
                  polls[id].status == Closed && SamePoll(polls[id], old(polls)[id])
                else polls[id] == old(polls)[id]
      ensures affected == |DueToClose(old(polls), now)|
      ensures polls == CloseExpired(old(polls), now)
    {
      var before := polls;
      polls := CloseExpired(polls, now);
      affected := |Changed(before, polls)|;
      assert Changed(before, polls) == DueToClose(before, now);
    }

    method InsertBallot(b: Ballot) returns (fault: Option<InsertError>)
      modifies `ballots
      ensures fault == Some(UniqueViolation) <==>
                exists row | row in old(ballots) ::
                  (row.pollId == b.pollId && row.voterToken == b.voterToken) || row.receiptToken == b.receiptToken
      ensures fault == Some(ForeignKeyViolation) ==> b.pollId !in polls
      ensures fault == None ==> b.pollId in polls
      ensures fault == InsertFault(old(Contents()), b)
      ensures ballots == if fault == None then old(ballots) + [b] else old(ballots)
    {
      fault := None;
      for i := 0 to |ballots|
        invariant fault == None && ballots == old(ballots)
        invariant forall j | 0 <= j < i :: !Conflicts(ballots[j], b)
      {
        if Conflicts(ballots[i], b) {
          assert ballots[i] in ballots;
          return Some(UniqueViolation);
        }
      }
      if b.pollId !in polls {
        return Some(ForeignKeyViolation);
      }
      ballots := ballots + [b];
    }

    method HasVoted(pollId: Uuid, voterToken: Digest) returns (voted: bool)
      ensures voted <==> exists b | b in ballots :: b.pollId == pollId && b.voterToken == voterToken
      ensures voted == Polls.HasVoted(ballots, pollId, voterToken)
    {
      VotedHasRow(ballots, pollId, voterToken);
      var count := 0;
      for i := 0 to |ballots|
        invariant 0 <= count
        invariant count > 0 <==> Polls.HasVoted(ballots[..i], pollId, voterToken)
      {
        if ballots[i].pollId == pollId && ballots[i].voterToken == voterToken {
          count := count + 1;
        }
        assert ballots[..i + 1] == ballots[..i] + [ballots[i]];
      }
      assert ballots[..|ballots|] == ballots;
      return count > 0;
    }

    /** The rows are kept in the order of cast_at. */
    method GetBallotsByPoll(pollId: Uuid) returns (rows: seq<Ballot>)
      ensures AreRowsOf(ballots, pollId, rows)
      ensures rows == RowsOf(ballots, pollId)
    {
      RowsOfAreRows(ballots, pollId);
      rows := [];
      for i := 0 to |ballots|
        invariant rows == RowsOf(ballots[..i], pollId)
      {
        assert ballots[..i + 1][..i] == ballots[..i];
        if ballots[i].pollId == pollId {
          rows := rows + [ballots[i]];
        }
      }
      assert ballots[..|ballots|] == ballots;
    }

    /** PostgreSQL refuses a negative offset. */
    method GetBallotsByPollPaginated(pollId: Uuid, offset: int, limit: nat)
      returns (page: Result<(seq<Ballot>, nat), CastError>)
      ensures offset >= 0 ==>
                && page.Success? && page.value.1 == |RowsOf(ballots, pollId)|
                && IsPage(RowsOf(ballots, pollId), offset, limit, page.value.0)
      ensures page == if offset < 0 then Failure(DatabaseError)
                      else Success((Slice(RowsOf(ballots, pollId), offset, limit), |RowsOf(ballots, pollId)|))
    {
      var rows := GetBallotsByPoll(pollId);
      if offset < 0 {
        return Failure(DatabaseError);
      }
      SliceIsPage(rows, offset, limit);
      return Success((Slice(rows, offset, limit), |rows|));
    }

    /** The ballots of a poll by choice; a ranked ballot has choice -1. */
    method CountVotesByPoll(pollId: Uuid) returns (counts: map<int, nat>)
      ensures AreGroups(RowsOf(ballots, pollId), counts)
      ensures counts == Groups(FlatMap(ChoiceOf, RowsOf(ballots, pollId)))
    {
      var rows := GetBallotsByPoll(pollId);
      counts := map[];
      for i := 0 to |rows|
        invariant counts == Groups(FlatMap(ChoiceOf, rows[..i]))
      {
        OneMoreInGroup(rows, i);
        counts := Bumped(counts, rows[i].choiceIndex);
      }
      assert rows[..|rows|] == rows;
      GroupsAreVotes(rows);
    }

    method GetBallotByReceiptToken(receiptToken: string) returns (found: Option<Ballot>)
      ensures match found
              case Some(b) => b in ballots && b.receiptToken == receiptToken
              case None => forall b | b in ballots :: b.receiptToken != receiptToken
      ensures found == WithReceipt(ballots, receiptToken)
    {
      ReceiptIsFound(ballots, receiptToken);
      for i := 0 to |ballots|
        invariant WithReceipt(ballots, receiptToken) == WithReceipt(ballots[i..], receiptToken)
      {
        if ballots[i].receiptToken == receiptToken {
          return Some(ballots[i]);
        }
      }
      return None;
    }

    method UpsertTally(pollId: Uuid, tally: StoredTally)
      modifies `tallies
      ensures tallies == old(tallies)[pollId := tally]
    {
      tallies := tallies[pollId := tally];
    }

    method GetTallyByPoll(pollId: Uuid) returns (tally: Option<StoredTally>)
      ensures tally == if pollId in tallies then Some(tallies[pollId]) else None
    {
      tally := if pollId in tallies then Some(tallies[pollId]) else None;
    }
  }
}
