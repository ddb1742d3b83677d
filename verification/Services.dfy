/** The services over the repository, each call taken alone. How calls interleave is the
    subject of the module Casting. */
module Services {
  import opened Wrappers
  import opened Hashing
  import opened AuditRoot
  import opened Decimals
  import opened Commitments
  import opened Polls
  import opened Tallies
  import opened Audit
  import opened Repository

  /** Times count from the zero value of time.Time. */
  const ZERO_TIME := 0

  datatype CreatePollRequest =
    CreatePollRequest(title: string, options: seq<string>, ballotType: string, opensAt: int, closesAt: int)

  datatype CreateError = NoTitle | TooFewOptions | NoClosesAt | ClosesTooEarly | RowRefused

  /** validateCreatePollRequest. An opening time left at zero is not compared with the closing time. */
  function CreateFault(req: CreatePollRequest): (fault: Option<CreateError>)
    ensures fault == None <==>
              && req.title != "" && |req.options| >= 2 && req.closesAt != ZERO_TIME
              && (req.opensAt == ZERO_TIME || req.opensAt < req.closesAt)
    ensures fault == Some(NoTitle) <==> req.title == ""
    ensures fault == Some(TooFewOptions) <==> req.title != "" && |req.options| < 2
    ensures fault == Some(NoClosesAt) <==> req.title != "" && |req.options| >= 2 && req.closesAt == ZERO_TIME
    ensures fault != Some(RowRefused)
  {
    if req.title == "" then Some(NoTitle)
    else if |req.options| < 2 then Some(TooFewOptions)
    else if req.closesAt == ZERO_TIME then Some(NoClosesAt)
    else if req.opensAt != ZERO_TIME && !(req.closesAt > req.opensAt) then Some(ClosesTooEarly)
    else None
  }

  /** The ballot types the CHECK on polls lets through. */
  function BallotTypeOf(name: string): Option<BallotType> {
    if name == "fptp" then Some(Fptp) else if name == "ranked" then Some(Ranked) else None
  }

  class PollService {
    const repo: VoterRepository

    constructor (repo: VoterRepository)
      ensures this.repo == repo
    {
      this.repo := repo;
    }

    /** CreatePoll: a poll that is created is new in the sense of the scheduling model, and nothing changes
        when none is. */
    method CreatePoll(id: Uuid, salt: string, req: CreatePollRequest, now: int) returns (r: Result<Poll, CreateError>)
      modifies repo`polls
      ensures r.Success? <==>
              && req.title != "" && |req.options| >= 2 && req.ballotType in {"", "fptp", "ranked"}
              && req.closesAt != ZERO_TIME && req.opensAt < req.closesAt && id !in old(repo.polls)
      ensures r.Success? ==>
                && IsNewPoll(r.value, now)
                && r.value == Poll(req.options, if req.ballotType == "ranked" then Ranked else Fptp,
                                   if req.opensAt <= now then Open else Draft, salt, req.opensAt, req.closesAt)
      ensures r.Failure? ==> r.error == if CreateFault(req).Some? then CreateFault(req).value else RowRefused
      ensures repo.polls == if r.Success? then old(repo.polls)[id := r.value] else old(repo.polls)
    {
      var fault := CreateFault(req);
      if fault.Some? {
        return Failure(fault.value);
      }
      var bt := req.ballotType;
      if bt == "" {
        bt := "fptp";
      }
      var ballotType := BallotTypeOf(bt);
      if ballotType == None {
        return Failure(RowRefused);
      }
      var poll := Poll(req.options, ballotType.value, Draft, salt, req.opensAt, req.closesAt);
      if !(req.opensAt > now) {
        poll := poll.(status := Open);
      }
      var created := repo.CreatePoll(id, poll);
      if !created {
        return Failure(RowRefused);
      }
      return Success(poll);
    }

    /** CastBallot. A ballot that may be cast becomes the one new row and holds the vote sent, for the receipt
        returned; any other is refused for the first thing that stands in its way. */
    method CastBallot(h: Hash, request: CastRequest, receiptToken: Uuid) returns (answer: Phase)
      modifies repo`ballots
      ensures IsRightOutcome(h, old(repo.Contents()), request, receiptToken, repo.Contents(), answer)
      ensures (repo.Contents(), answer) == CastOutcome(h, old(repo.Contents()), request, receiptToken)
    {
      CastOutcomeIsRight(h, repo.Contents(), request, receiptToken);
      var poll := repo.GetPollByID(request.pollId);
      if poll == None {
        return Answered(Refused(PollNotFound));
      }
      if poll.value.status != Open {
        return Answered(Refused(PollNotOpen));
      }
      var voterToken := DeriveVoterToken(h, FltHash(h, request.flt), request.pollId, poll.value.salt);
      var hasVoted := repo.HasVoted(request.pollId, voterToken);
      if hasVoted {
        return Answered(Refused(AlreadyVoted));
      }
      var ballot: Ballot;
      if poll.value.ballotType == Ranked {
        var fault := ValidateRankings(request.rankings, |poll.value.options|);
        if fault.Some? {
          return Answered(Refused(BadRanking(fault.value)));
        }
        var commitment := DeriveCommitment(h, voterToken, JsonInts(request.rankings), receiptToken);
        ballot := Ballot(request.pollId, voterToken, -1, request.rankings, receiptToken, commitment);
      } else {
        if request.choiceIndex < 0 || request.choiceIndex >= |poll.value.options| {
          return Answered(Refused(ChoiceOutOfRange(request.choiceIndex)));
        }
        var commitment := DeriveCommitment(h, voterToken, Itoa(request.choiceIndex), receiptToken);
        ballot := Ballot(request.pollId, voterToken, request.choiceIndex, [], receiptToken, commitment);
      }
      var fault := repo.InsertBallot(ballot);
      if fault.Some? {
        return Answered(Refused(if fault.value == UniqueViolation then AlreadyVoted else DatabaseError));
      }
      return Recorded(ballot);
    }
  }

  // ---------- the scheduler ----------

  /** When the two statements of a tick run, and whether the database carries them out. */
  datatype TickRun = TickRun(openAt: int, opens: bool, closeAt: int, closes: bool)

  function AfterTick(polls: map<Uuid, Poll>, tick: TickRun): map<Uuid, Poll> {
    var half := if tick.opens then OpenDrafts(polls, tick.openAt) else polls;
    if tick.closes then CloseExpired(half, tick.closeAt) else half
  }

  function AfterTicks(polls: map<Uuid, Poll>, ticks: seq<TickRun>): map<Uuid, Poll> {
    if ticks == [] then polls
    else
      var last := |ticks| - 1;
      AfterTick(AfterTicks(polls, ticks[..last]), ticks[last])
  }

  /** What a tick makes of a poll: a draft that is due is opened if that statement is carried out, and then closed,
      like any open poll that is due, if the other one is; nothing else of it changes. */
  ghost predicate IsTicked(before: Poll, tick: TickRun, after: Poll) {
    var opens := tick.opens && before.status == Draft && before.opensAt <= tick.openAt;
    var closes := tick.closes && (before.status == Open || opens) && before.closesAt <= tick.closeAt;
    after == before.(status := if closes then Closed else if opens then Open else before.status)
  }

  class PollScheduler {
    const repo: VoterRepository

    constructor (repo: VoterRepository)
      ensures this.repo == repo
    {
      this.repo := repo;
    }

    /** tick: a statement that fails is logged and the other one still runs. */
    method Tick(tick: TickRun)
      modifies repo`polls
      ensures repo.polls.Keys == old(repo.polls).Keys
      ensures forall id | id in repo.polls :: IsTicked(old(repo.polls)[id], tick, repo.polls[id])
      ensures repo.polls == AfterTick(old(repo.polls), tick)
    {
      if tick.opens {
        var count := repo.OpenDraftPolls(tick.openAt);
      }
      if tick.closes {
        var count := repo.CloseExpiredPolls(tick.closeAt);
      }
    }

    /** Run: one tick at once, then one for every signal of the ticker until the context is cancelled. */
    method Run(first: TickRun, signals: seq<TickRun>)
      modifies repo`polls
      ensures repo.polls == AfterTicks(old(repo.polls), [first] + signals)
    {
      var ticks := [first] + signals;
      assert ticks[..1][..0] == [] && ticks[..1][0] == first;
      Tick(first);
      for i := 0 to |signals|
        invariant repo.polls == AfterTicks(old(repo.polls), ticks[..i + 1])
      {
        assert ticks[..i + 2][..i + 1] == ticks[..i + 1];
        Tick(signals[i]);
      }
      assert ticks[..|signals| + 1] == ticks;
    }
  }

  // ---------- tallies and proofs ----------

  datatype TallyError = NoSuchPoll | NegativeOffset | CommitmentNotFound

  class TallyService {
    const repo: VoterRepository

    constructor (repo: VoterRepository)
      ensures this.repo == repo
    {
      this.repo := repo;
    }

    method ComputeAndStoreTally(h: Hash, pollId: Uuid) returns (r: Result<Tally, TallyError>)
      requires |repo.ballots| <= MAX_INT / 2
      modifies repo`tallies
      ensures pollId !in repo.polls ==> r == Failure(NoSuchPoll) && repo.tallies == old(repo.tallies)
      ensures pollId in repo.polls ==>
                var poll, rows := repo.polls[pollId], RowsOf(repo.ballots, pollId);
                && r == Success(Tally(TallyOf(h, poll, rows),
                                      if poll.ballotType == Ranked then Some(Runoff(poll, rows)) else None))
                && IsRightTally(h, poll, rows, r.value.stored, r.value.irv)
                && repo.tallies == old(repo.tallies)[pollId := TallyOf(h, poll, rows)]
    {
      var poll := repo.GetPollByID(pollId);
      if poll == None {
        return Failure(NoSuchPoll);
      }
      var rows := repo.GetBallotsByPoll(pollId);
      var tally := ComputeTally(h, poll.value, rows);
      repo.UpsertTally(pollId, tally.stored);
      return Success(tally);
    }

    method GetTally(h: Hash, pollId: Uuid) returns (r: Result<Tally, TallyError>)
      requires |repo.ballots| <= MAX_INT / 2
      modifies repo`tallies
      ensures pollId !in repo.polls ==> r == Failure(NoSuchPoll)
      ensures pollId in repo.polls && pollId in old(repo.tallies) ==>
                r == Success(Tally(old(repo.tallies)[pollId], None))
      ensures pollId !in repo.polls || pollId in old(repo.tallies) ==> repo.tallies == old(repo.tallies)
      ensures pollId in repo.polls && pollId !in old(repo.tallies) ==>
                && r.Success? && r.value.stored == TallyOf(h, repo.polls[pollId], RowsOf(repo.ballots, pollId))
                && IsRightTally(h, repo.polls[pollId], RowsOf(repo.ballots, pollId), r.value.stored, r.value.irv)
                && repo.tallies == old(repo.tallies)[pollId := r.value.stored]
    {
      var poll := repo.GetPollByID(pollId);
      if poll == None {
        return Failure(NoSuchPoll);
      }
      var stored := repo.GetTallyByPoll(pollId);
      if stored == None {
        r := ComputeAndStoreTally(h, pollId);
        return;
      }
      return Success(Tally(stored.value, None));
    }

    method GetAuditProof(h: Hash, pollId: Uuid, offset: int, limit: int) returns (r: Result<AuditProof, TallyError>)
      ensures offset >= 0 ==> r.Success? && ShowsPage(h, RowsOf(repo.ballots, pollId), offset, limit, r.value)
      ensures r == if offset < 0 then Failure(NegativeOffset)
                   else Success(PageOf(h, RowsOf(repo.ballots, pollId), offset, limit))
    {
      var clamped := if limit <= 0 || limit > MAX_AUDIT_PAGE_SIZE then DEFAULT_AUDIT_PAGE_SIZE else limit;
      var page := repo.GetBallotsByPollPaginated(pollId, offset, clamped);
      if page.Failure? {
        return Failure(NegativeOffset);
      }
      var (rows, total) := page.value;
      var entries := EntriesIn(rows);
      var allRows := repo.GetBallotsByPoll(pollId);
      var commitments := CommitmentsIn(allRows);
      var root := ComputeAuditRoot(h, commitments);
      PageShowsRows(h, allRows, offset, limit);
      return Success(AuditProof(entries, root, total, offset, clamped));
    }

    /** The row with the receipt, where no other row has it. */
    ghost predicate IsRowWith(receiptToken: string, b: Ballot)
      reads repo
    {
      && b in repo.ballots && b.receiptToken == receiptToken
      && forall other | other in repo.ballots && other.receiptToken == receiptToken :: other == b
    }

    /** GetMerkleProof: nothing for a receipt that is unknown or belongs to another poll; for the receipt of a
        ballot of the poll a proof, accepted, for the commitment of that very ballot. Taken alone the call never
        misses the commitment it looks for. */
    method GetMerkleProof(h: Hash, pollId: Uuid, receiptToken: string)
      returns (r: Result<Option<MerkleProof>, TallyError>)
      ensures r.Success?
      ensures (forall b | b in repo.ballots :: b.receiptToken != receiptToken) ==> r.value == None
      ensures forall b | IsRowWith(receiptToken, b) ::
                if b.pollId == pollId then
                  && r.value.Some?
                  && ProvesCommitment(h, RowsOf(repo.ballots, pollId), b.commitment, r.value.value)
                  && IsTreeProof(h, RowsOf(repo.ballots, pollId), b.commitment, r.value.value)
                else r.value == None
      ensures r.value.Some? ==>
                exists b | b in repo.ballots && b.receiptToken == receiptToken && b.pollId == pollId ::
                  ProvesCommitment(h, RowsOf(repo.ballots, pollId), b.commitment, r.value.value)
    {
      var ballot := repo.GetBallotByReceiptToken(receiptToken);
      if ballot == None || ballot.value.pollId != pollId {
        return Success(None);
      }
      var rows := repo.GetBallotsByPoll(pollId);
      var proof := ProveBallot(h, ballot.value, rows);
      RowIsListed(repo.ballots, ballot.value);
      if proof == None {
        return Failure(CommitmentNotFound);
      }
      return Success(proof);
    }
  }
}
