/** Polls, ballots and the tables that hold them, as values: what each statement sent to the
    database does to the tables, and what the voting service computes between statements. */
module Polls {
  import opened Wrappers
  import opened Hashing
  import opened Decimals
  import opened Commitments

  type Uuid = s: string | |s| == UUID_LENGTH witness seq(UUID_LENGTH, _ => '0')

  datatype PollStatus = Draft | Open | Closed

  datatype BallotType = Fptp | Ranked

  datatype Poll = Poll(options: seq<string>, ballotType: BallotType, status: PollStatus,
                       salt: string, opensAt: int, closesAt: int)

  datatype Ballot = Ballot(pollId: Uuid, voterToken: Digest, choiceIndex: int, rankings: seq<int>,
                           receiptToken: Uuid, commitment: Digest)

  /** What a voter sends: for a single-choice poll the choice counts, for a ranked one the rankings. */
  datatype CastRequest = CastRequest(flt: string, pollId: Uuid, choiceIndex: int, rankings: seq<int>)

  datatype RankingError = EmptyRanking | IndexOutOfRange(index: int) | DuplicateIndex(index: int)

  datatype CastError =
    | PollNotFound
    | PollNotOpen
    | AlreadyVoted
    | BadRanking(error: RankingError)
    | ChoiceOutOfRange(choice: int)
    | DatabaseError

  // ---------- rankings ----------

  /** A ranking lists at least one option, each once. */
  ghost predicate IsRanking(rankings: seq<int>, numOptions: nat) {
    && rankings != []
    && (forall i | 0 <= i < |rankings| :: 0 <= rankings[i] < numOptions)
    && (forall i, j | 0 <= i < j < |rankings| :: rankings[i] != rankings[j])
  }

  /** The first fault at position i or later. */
  function FaultFrom(rankings: seq<int>, numOptions: nat, i: nat): Option<RankingError>
    requires i <= |rankings|
    decreases |rankings| - i
  {
    if i == |rankings| then None
    else if rankings[i] < 0 || rankings[i] >= numOptions then Some(IndexOutOfRange(rankings[i]))
    else if rankings[i] in rankings[..i] then Some(DuplicateIndex(rankings[i]))
    else FaultFrom(rankings, numOptions, i + 1)
  }

  function RankingFault(rankings: seq<int>, numOptions: nat): Option<RankingError> {
    if rankings == [] then Some(EmptyRanking) else FaultFrom(rankings, numOptions, 0)
  }

  lemma {:induction false} FaultlessFrom(rankings: seq<int>, numOptions: nat, i: nat)
    requires i <= |rankings|
    ensures FaultFrom(rankings, numOptions, i) == None
            <==> (forall j | i <= j < |rankings| :: 0 <= rankings[j] < numOptions && rankings[j] !in rankings[..j])
    decreases |rankings| - i
  {
    if i == |rankings| {
    } else {
      FaultlessFrom(rankings, numOptions, i + 1);
    }
  }

  /** The check passes exactly on rankings. */
  lemma FaultlessIsRanking(rankings: seq<int>, numOptions: nat)
    ensures RankingFault(rankings, numOptions) == None <==> IsRanking(rankings, numOptions)
  {
    FaultlessFrom(rankings, numOptions, 0);
    forall j, x: int | 0 <= j <= |rankings|
      ensures x in rankings[..j] <==> exists i :: 0 <= i < j && rankings[i] == x
    {}
  }

  /** The index at position i is the first to be out of range or a repetition. */
  ghost predicate IsFirstFault(rankings: seq<int>, numOptions: nat, i: nat) {
    && i < |rankings|
    && (!(0 <= rankings[i] < numOptions) || rankings[i] in rankings[..i])
    && (i > 0 ==> IsRanking(rankings[..i], numOptions))
  }

  /** What an error says of a ranking. An index out of range is reported as such, even if it is a repetition. */
  ghost predicate IsFaultOf(rankings: seq<int>, numOptions: nat, error: RankingError) {
    match error
    case EmptyRanking => rankings == []
    case IndexOutOfRange(x) =>
      !(0 <= x < numOptions) && exists i: nat :: IsFirstFault(rankings, numOptions, i) && rankings[i] == x
    case DuplicateIndex(x) =>
      0 <= x < numOptions && exists i: nat :: IsFirstFault(rankings, numOptions, i) && rankings[i] == x
  }

  lemma {:induction false} FaultFromIsFirst(rankings: seq<int>, numOptions: nat, i: nat)
    requires i <= |rankings| && (i > 0 ==> IsRanking(rankings[..i], numOptions))
    ensures var fault := FaultFrom(rankings, numOptions, i);
            fault.Some? ==> !fault.value.EmptyRanking? && IsFaultOf(rankings, numOptions, fault.value)
    decreases |rankings| - i
  {
    if i == |rankings| {
    } else if !(0 <= rankings[i] < numOptions) || rankings[i] in rankings[..i] {
      assert IsFirstFault(rankings, numOptions, i);
    } else {
      assert rankings[..i + 1] == rankings[..i] + [rankings[i]];
      FaultFromIsFirst(rankings, numOptions, i + 1);
    }
  }

  lemma FaultSpoils(rankings: seq<int>, numOptions: nat, i: nat, end: nat)
    requires IsFirstFault(rankings, numOptions, i) && i < end <= |rankings|
    ensures !IsRanking(rankings[..end], numOptions)
  {
    assert rankings[..end][..i] == rankings[..i];
    assert rankings[..end][i] == rankings[i];
  }

  lemma FirstFaultIsOne(rankings: seq<int>, numOptions: nat, i: nat, j: nat)
    requires IsFirstFault(rankings, numOptions, i) && IsFirstFault(rankings, numOptions, j)
    ensures i == j
  {
    if i < j {
      FaultSpoils(rankings, numOptions, i, j);
    } else if j < i {
      FaultSpoils(rankings, numOptions, j, i);
    }
  }

  /** A ranking that is refused is refused for its first fault, and for nothing else. */
  lemma FaultIsFirst(rankings: seq<int>, numOptions: nat, error: RankingError)
    ensures RankingFault(rankings, numOptions) == Some(error) <==> IsFaultOf(rankings, numOptions, error)
  {
    FaultlessIsRanking(rankings, numOptions);
    FaultFromIsFirst(rankings, numOptions, 0);
    if IsFaultOf(rankings, numOptions, error) && rankings != [] {
      var i: nat :| IsFirstFault(rankings, numOptions, i) && rankings[i] == error.index;
      assert !IsRanking(rankings, numOptions);
      var first := FaultFrom(rankings, numOptions, 0).value;
      var j: nat :| IsFirstFault(rankings, numOptions, j) && rankings[j] == first.index;
      FirstFaultIsOne(rankings, numOptions, i, j);
    }
  }

  /** validateRankings. */
  method ValidateRankings(rankings: seq<int>, numOptions: nat) returns (fault: Option<RankingError>)
    ensures fault == RankingFault(rankings, numOptions)
    ensures fault == None <==> IsRanking(rankings, numOptions)
    ensures fault.Some? ==> IsFaultOf(rankings, numOptions, fault.value)
  {
    FaultlessIsRanking(rankings, numOptions);
    FaultFromIsFirst(rankings, numOptions, 0);
    if |rankings| == 0 {
      return Some(EmptyRanking);
    }
    var seen: set<int> := {};
    for i := 0 to |rankings|
      invariant forall x :: x in seen <==> x in rankings[..i]
      invariant FaultFrom(rankings, numOptions, i) == FaultFrom(rankings, numOptions, 0)
    {
      var idx := rankings[i];
      if idx < 0 || idx >= numOptions {
        return Some(IndexOutOfRange(idx));
      }
      if idx in seen {
        return Some(DuplicateIndex(idx));
      }
      seen := seen + {idx};
      assert rankings[..i + 1] == rankings[..i] + [idx];
    }
    return None;
  }

  // ---------- the tables ----------

  datatype StoredTally = StoredTally(counts: map<string, nat>, totalVotes: nat, auditRoot: string)

  datatype Tables = Tables(polls: map<Uuid, Poll>, ballots: seq<Ballot>, tallies: map<Uuid, StoredTally>)

  /** Some row has this poll and voter token. */
  predicate HasVoted(ballots: seq<Ballot>, pollId: Uuid, voterToken: Digest) {
    exists i | 0 <= i < |ballots| :: ballots[i].pollId == pollId && ballots[i].voterToken == voterToken
  }

  lemma VotedHasRow(ballots: seq<Ballot>, pollId: Uuid, voterToken: Digest)
    ensures HasVoted(ballots, pollId, voterToken)
            <==> exists b | b in ballots :: b.pollId == pollId && b.voterToken == voterToken
  {
    if HasVoted(ballots, pollId, voterToken) {
      var i :| 0 <= i < |ballots| && ballots[i].pollId == pollId && ballots[i].voterToken == voterToken;
      assert ballots[i] in ballots;
    }
  }

  /** The two rows cannot both be in the table: they share poll and voter token, or the receipt. */
  predicate Conflicts(a: Ballot, b: Ballot) {
    (a.pollId == b.pollId && a.voterToken == b.voterToken) || a.receiptToken == b.receiptToken
  }

  datatype InsertError = UniqueViolation | ForeignKeyViolation

  function InsertFault(tables: Tables, b: Ballot): Option<InsertError> {
    if exists i | 0 <= i < |tables.ballots| :: Conflicts(tables.ballots[i], b) then Some(UniqueViolation)
    else if b.pollId !in tables.polls then Some(ForeignKeyViolation)
    else None
  }

  // ---------- the life of a poll ----------

  function StatusRank(status: PollStatus): nat {
    match status
    case Draft => 0
    case Open => 1
    case Closed => 2
  }

  /** The status a poll should have at a given time. */
  function ClockStatus(poll: Poll, now: int): PollStatus {
    if poll.closesAt <= now then Closed else if poll.opensAt <= now then Open else Draft
  }

  /** All of a poll but its status. */
  predicate SamePoll(p: Poll, q: Poll) {
    p.(status := q.status) == q
  }

  /** What the opening statement makes of a row. */
  function Opened(poll: Poll, now: int): Poll {
    if poll.status == Draft && poll.opensAt <= now then poll.(status := Open) else poll
  }

  /** What the closing statement makes of a row. */
  function ClosedBy(poll: Poll, now: int): Poll {
    if poll.status == Open && poll.closesAt <= now then poll.(status := Closed) else poll
  }

  function OpenDrafts(polls: map<Uuid, Poll>, now: int): map<Uuid, Poll> {
    map id | id in polls :: Opened(polls[id], now)
  }

  function CloseExpired(polls: map<Uuid, Poll>, now: int): map<Uuid, Poll> {
    map id | id in polls :: ClosedBy(polls[id], now)
  }

  /** The CHECK on polls, the request validation, and the status CreatePoll picks by the time it looks at. */
  predicate IsNewPoll(poll: Poll, decidedAt: int) {
    && |poll.options| >= 2
    && poll.closesAt > poll.opensAt
    && poll.status == (if poll.opensAt <= decidedAt then Open else Draft)
  }

  // ---------- casting a ballot, between the statements ----------

  /** What CastBallot answers in the end. A ballot may be stored and its voter not told so. */
  datatype Answer = Confirmed(ballot: Ballot) | Unconfirmed(stored: Ballot) | Refused(error: CastError)

  /** Where a CastBallot call stands. */
  datatype Phase =
    | Arrived
    | PollRead(poll: Poll)
    | NotSeenBefore(checkedPoll: Poll, voterToken: Digest)
    | Recorded(ballot: Ballot)
    | Answered(answer: Answer)

  function VoterTokenOf(h: Hash, request: CastRequest, salt: string): Digest {
    DeriveVoterToken(h, FltHash(h, request.flt), request.pollId, salt)
  }

  function AfterRead(polls: map<Uuid, Poll>, request: CastRequest): Phase {
    if request.pollId !in polls then Answered(Refused(PollNotFound))
    else if polls[request.pollId].status != Open then Answered(Refused(PollNotOpen))
    else PollRead(polls[request.pollId])
  }

  function AfterCheck(h: Hash, ballots: seq<Ballot>, request: CastRequest, poll: Poll): Phase {
    var voterToken := VoterTokenOf(h, request, poll.salt);
    if HasVoted(ballots, request.pollId, voterToken) then Answered(Refused(AlreadyVoted))
    else NotSeenBefore(poll, voterToken)
  }

  function VoteOf(poll: Poll, request: CastRequest): Vote {
    if poll.ballotType == Ranked then Ranking(request.rankings) else Single(request.choiceIndex)
  }

  function BallotFor(h: Hash, request: CastRequest, poll: Poll, voterToken: Digest, receiptToken: Uuid): Ballot {
    Ballot(request.pollId, voterToken,
           if poll.ballotType == Ranked then -1 else request.choiceIndex,
           if poll.ballotType == Ranked then request.rankings else [],
           receiptToken,
           DeriveCommitment(h, voterToken, ChoiceStr(VoteOf(poll, request)), receiptToken))
  }

  function VoteFault(poll: Poll, request: CastRequest): Option<CastError> {
    if poll.ballotType == Ranked then
      var fault := RankingFault(request.rankings, |poll.options|);
      if fault.Some? then Some(BadRanking(fault.value)) else None
    else if request.choiceIndex < 0 || request.choiceIndex >= |poll.options| then
      Some(ChoiceOutOfRange(request.choiceIndex))
    else None
  }

  function AfterInsert(h: Hash, tables: Tables, request: CastRequest, poll: Poll, voterToken: Digest,
                       receiptToken: Uuid): (Tables, Phase) {
    var fault := VoteFault(poll, request);
    if fault.Some? then (tables, Answered(Refused(fault.value)))
    else
      var ballot := BallotFor(h, request, poll, voterToken, receiptToken);
      match InsertFault(tables, ballot)
      case None => (tables.(ballots := tables.ballots + [ballot]), Recorded(ballot))
      case Some(UniqueViolation) => (tables, Answered(Refused(AlreadyVoted)))
      case Some(ForeignKeyViolation) => (tables, Answered(Refused(DatabaseError)))
  }

  /** CastBallot when nothing else happens between its statements. */
  function CastOutcome(h: Hash, tables: Tables, request: CastRequest, receiptToken: Uuid): (Tables, Phase) {
    match AfterRead(tables.polls, request)
    case PollRead(poll) =>
      (match AfterCheck(h, tables.ballots, request, poll)
       case NotSeenBefore(_, voterToken) => AfterInsert(h, tables, request, poll, voterToken, receiptToken)
       case other => (tables, other))
    case other => (tables, other)
  }

  /** A stored vote is one its poll allows. */
  ghost predicate IsValidVote(poll: Poll, b: Ballot) {
    match poll.ballotType
    case Ranked => b.choiceIndex == -1 && IsRanking(b.rankings, |poll.options|)
    case Fptp => 0 <= b.choiceIndex < |poll.options| && b.rankings == []
  }

  /** The row holds what was sent, under the name and with the commitment that the service promises: the
      digests are those of the concatenated fields. */
  ghost predicate HoldsVote(h: Hash, request: CastRequest, poll: Poll, receiptToken: Uuid, b: Ballot) {
    && b.pollId == request.pollId && b.receiptToken == receiptToken
    && b.voterToken == h(h(request.flt) + request.pollId + poll.salt)
    && match poll.ballotType
       case Fptp =>
         && b.choiceIndex == request.choiceIndex && b.rankings == []
         && b.commitment == h(b.voterToken + Itoa(request.choiceIndex) + receiptToken)
       case Ranked =>
         && b.choiceIndex == -1 && b.rankings == request.rankings
         && b.commitment == h(b.voterToken + JsonInts(request.rankings) + receiptToken)
  }

  lemma BallotHoldsVote(h: Hash, request: CastRequest, poll: Poll, receiptToken: Uuid, b: Ballot)
    ensures b == BallotFor(h, request, poll, VoterTokenOf(h, request, poll.salt), receiptToken)
            <==> HoldsVote(h, request, poll, receiptToken, b)
  {}

  /** The checks pass exactly if the row that holds the vote sent is one the poll allows. */
  lemma FaultlessVoteIsValid(h: Hash, request: CastRequest, poll: Poll, receiptToken: Uuid, b: Ballot)
    requires HoldsVote(h, request, poll, receiptToken, b)
    ensures VoteFault(poll, request) == None <==> IsValidVote(poll, b)
  {
    FaultlessIsRanking(request.rankings, |poll.options|);
  }

  /** The voter that sends the request has a ballot in the poll. */
  ghost predicate HasBallot(h: Hash, ballots: seq<Ballot>, request: CastRequest, poll: Poll) {
    exists b | b in ballots ::
      b.pollId == request.pollId && b.voterToken == h(h(request.flt) + request.pollId + poll.salt)
  }

  lemma HasBallotIsVoted(h: Hash, ballots: seq<Ballot>, request: CastRequest, poll: Poll)
    ensures HasBallot(h, ballots, request, poll)
            <==> HasVoted(ballots, request.pollId, VoterTokenOf(h, request, poll.salt))
  {
    VotedHasRow(ballots, request.pollId, VoterTokenOf(h, request, poll.salt));
  }

  ghost predicate ReceiptTaken(ballots: seq<Ballot>, receiptToken: Uuid) {
    exists b | b in ballots :: b.receiptToken == receiptToken
  }

  /** The vote sent is one the poll allows. */
  ghost predicate IsValidRequest(poll: Poll, request: CastRequest) {
    match poll.ballotType
    case Ranked => IsRanking(request.rankings, |poll.options|)
    case Fptp => 0 <= request.choiceIndex < |poll.options|
  }

  /** The poll is open and the voter has no ballot there yet. */
  ghost predicate MayVote(h: Hash, tables: Tables, request: CastRequest) {
    && request.pollId in tables.polls && tables.polls[request.pollId].status == Open
    && !HasBallot(h, tables.ballots, request, tables.polls[request.pollId])
  }

  /** When a call taken alone is refused, and with what error. */
  ghost predicate IsRefusal(h: Hash, tables: Tables, request: CastRequest, receiptToken: Uuid, error: CastError) {
    match error
    case PollNotFound => request.pollId !in tables.polls
    case PollNotOpen => request.pollId in tables.polls && tables.polls[request.pollId].status != Open
    case AlreadyVoted =>
      && request.pollId in tables.polls
      && var poll := tables.polls[request.pollId];
         && poll.status == Open
         && (|| HasBallot(h, tables.ballots, request, poll)
             || (IsValidRequest(poll, request) && ReceiptTaken(tables.ballots, receiptToken)))
    case BadRanking(fault) =>
      && MayVote(h, tables, request) && tables.polls[request.pollId].ballotType == Ranked
      && IsFaultOf(request.rankings, |tables.polls[request.pollId].options|, fault)
    case ChoiceOutOfRange(choice) =>
      && MayVote(h, tables, request) && tables.polls[request.pollId].ballotType == Fptp
      && choice == request.choiceIndex && !(0 <= choice < |tables.polls[request.pollId].options|)
    case DatabaseError => false
  }

  /** Nothing stands in the way of the ballot: its poll is open, the voter has none there yet, the vote is
      one the poll allows, and the receipt token is new. */
  ghost predicate MayCast(h: Hash, tables: Tables, request: CastRequest, receiptToken: Uuid) {
    && MayVote(h, tables, request)
    && IsValidRequest(tables.polls[request.pollId], request)
    && !ReceiptTaken(tables.ballots, receiptToken)
  }

  /** What the service owes a call: a ballot that may be cast becomes the one new row and holds the vote sent;
      any other is refused for the first thing that stands in its way, and the tables stay as they were. */
  ghost predicate IsRightOutcome(h: Hash, tables: Tables, request: CastRequest, receiptToken: Uuid,
                                 after: Tables, phase: Phase) {
    if MayCast(h, tables, request, receiptToken) then
      && phase.Recorded?
      && HoldsVote(h, request, tables.polls[request.pollId], receiptToken, phase.ballot)
      && after == tables.(ballots := tables.ballots + [phase.ballot])
    else
      && phase.Answered? && phase.answer.Refused?
      && IsRefusal(h, tables, request, receiptToken, phase.answer.error)
      && after == tables
  }

  /** No call meets the conditions of two errors, or may be cast and be refused as well. */
  lemma RefusalIsOne(h: Hash, tables: Tables, request: CastRequest, receiptToken: Uuid, a: CastError, b: CastError)
    requires IsRefusal(h, tables, request, receiptToken, a)
    ensures !MayCast(h, tables, request, receiptToken)
    ensures IsRefusal(h, tables, request, receiptToken, b) ==> a == b
  {
    if a.BadRanking? {
      FaultIsFirst(request.rankings, |tables.polls[request.pollId].options|, a.error);
      FaultlessIsRanking(request.rankings, |tables.polls[request.pollId].options|);
    }
    if a.AlreadyVoted? || a.BadRanking? {
      if b.BadRanking? && IsRefusal(h, tables, request, receiptToken, b) {
        FaultIsFirst(request.rankings, |tables.polls[request.pollId].options|, b.error);
        FaultlessIsRanking(request.rankings, |tables.polls[request.pollId].options|);
      }
    }
  }

  /** VoteFault is the answer the request deserves. */
  lemma VoteFaultIsRight(poll: Poll, request: CastRequest)
    ensures VoteFault(poll, request) == None <==> IsValidRequest(poll, request)
    ensures match VoteFault(poll, request)
            case None => true
            case Some(BadRanking(fault)) =>
              poll.ballotType == Ranked && IsFaultOf(request.rankings, |poll.options|, fault)
            case Some(ChoiceOutOfRange(choice)) => poll.ballotType == Fptp && choice == request.choiceIndex
            case Some(_) => false
  {
    FaultlessIsRanking(request.rankings, |poll.options|);
    var fault := RankingFault(request.rankings, |poll.options|);
    if fault.Some? {
      FaultIsFirst(request.rankings, |poll.options|, fault.value);
    }
  }

  lemma InsertFaultIsRight(h: Hash, tables: Tables, request: CastRequest, receiptToken: Uuid, b: Ballot)
    requires MayVote(h, tables, request)
    requires HoldsVote(h, request, tables.polls[request.pollId], receiptToken, b)
    ensures InsertFault(tables, b) == if ReceiptTaken(tables.ballots, receiptToken) then Some(UniqueViolation) else None
  {
    forall i | 0 <= i < |tables.ballots|
      ensures Conflicts(tables.ballots[i], b) <==> tables.ballots[i].receiptToken == receiptToken
    {
      assert tables.ballots[i] in tables.ballots;
    }
  }

  /** CastBallot taken alone owes the voter just that, and gives it. */
  lemma CastOutcomeIsRight(h: Hash, tables: Tables, request: CastRequest, receiptToken: Uuid)
    ensures var (after, phase) := CastOutcome(h, tables, request, receiptToken);
            IsRightOutcome(h, tables, request, receiptToken, after, phase)
  {
    if request.pollId in tables.polls && tables.polls[request.pollId].status == Open {
      var poll := tables.polls[request.pollId];
      HasBallotIsVoted(h, tables.ballots, request, poll);
      if MayVote(h, tables, request) {
        var b := BallotFor(h, request, poll, VoterTokenOf(h, request, poll.salt), receiptToken);
        VoteFaultIsRight(poll, request);
        BallotHoldsVote(h, request, poll, receiptToken, b);
        InsertFaultIsRight(h, tables, request, receiptToken, b);
      }
    }
  }
}
