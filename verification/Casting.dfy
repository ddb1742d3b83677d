/** Casting, scheduling and tallying as they run together.

    Every CastBallot call, every tick of the scheduler and every GetTally call is a small
    program whose statements reach the database one by one, in any interleaving with the
    others. Nothing is transactional: the only guards are the UNIQUE constraints. */
module Casting {
  import opened Wrappers
  import opened Hashing
  import opened Commitments
  import opened Polls
  import opened Tallies

  /** A call to CastBallot: what was asked, the receipt token drawn for it, and where it stands. */
  datatype Call = Call(cast: CastRequest, drawn: Option<Uuid>, phase: Phase)

  /** Between the two statements of a tick: when the first ran, the polls there were, whether it worked. */
  datatype Ticker = Resting | HalfDone(openedAt: int, known: set<Uuid>, ok: bool)

  /** A call to GetTally. */
  datatype Job =
    | Asked(pollId: Uuid)
    | NoPoll
    | Missing(pollId: Uuid)
    | Loaded(pollId: Uuid, rows: seq<Ballot>)
    | Served(pollId: Uuid, tally: StoredTally)

  /** The clock, the tables and the calls. Bookkeeping for the lag bound: swept says of a poll
      at what time the first statement of the last successful tick saw it. */
  datatype State = State(now: int, tables: Tables, calls: map<nat, Call>, ticker: Ticker, swept: map<Uuid, int>,
                         jobs: map<nat, Job>)

  datatype Step =
    | Advance(to: int)
    | Create(id: Uuid, poll: Poll, decidedAt: int)
    | Arrive(call: nat, cast: CastRequest)
    | Read(call: nat)
    | Check(call: nat)
    | Insert(call: nat, receiptToken: Uuid)
    | Respond(call: nat)
    | LoseReply(call: nat)
    | Fail(call: nat)
    | TickOpens(ok: bool)
    | TickCloses(ok: bool)
    | AskTally(job: nat, pollId: Uuid)
    | LookUp(job: nat)
    | Load(job: nat, rows: seq<Ballot>)
    | Store(job: nat)

  function Initial(now: int): State {
    State(now, Tables(map[], [], map[]), map[], Resting, map[], map[])
  }

  /** When a step can happen. Rows are read in some order: ties in cast_at may fall either way. */
  ghost predicate Enabled(s: State, step: Step) {
    match step
    case Advance(to) => s.now <= to
    case Create(id, poll, decidedAt) => id !in s.tables.polls && decidedAt <= s.now && IsNewPoll(poll, decidedAt)
    case Arrive(c, _) => c !in s.calls
    case Read(c) => c in s.calls && s.calls[c].phase.Arrived?
    case Check(c) => c in s.calls && s.calls[c].phase.PollRead?
    case Insert(c, _) => c in s.calls && s.calls[c].phase.NotSeenBefore?
    case Respond(c) => c in s.calls && s.calls[c].phase.Recorded?
    case LoseReply(c) => c in s.calls && s.calls[c].phase.Recorded?
    case Fail(c) => c in s.calls && !s.calls[c].phase.Recorded? && !s.calls[c].phase.Answered?
    case TickOpens(_) => s.ticker.Resting?
    case TickCloses(_) => s.ticker.HalfDone?
    case AskTally(j, _) => j !in s.jobs
    case LookUp(j) => j in s.jobs && s.jobs[j].Asked?
    case Load(j, rows) =>
      j in s.jobs && s.jobs[j].Missing? && multiset(rows) == multiset(RowsOf(s.tables.ballots, s.jobs[j].pollId))
    case Store(j) => j in s.jobs && s.jobs[j].Loaded? && s.jobs[j].pollId in s.tables.polls
  }

  function Goto(s: State, c: nat, phase: Phase): State
    requires c in s.calls
  {
    s.(calls := s.calls[c := s.calls[c].(phase := phase)])
  }

  function AfterInsertStep(h: Hash, s: State, c: nat, receiptToken: Uuid): State
    requires c in s.calls && s.calls[c].phase.NotSeenBefore?
  {
    var call := s.calls[c];
    var (tables, phase) :=
      AfterInsert(h, s.tables, call.cast, call.phase.checkedPoll, call.phase.voterToken, receiptToken);
    s.(tables := tables, calls := s.calls[c := Call(call.cast, Some(receiptToken), phase)])
  }

  ghost function Apply(h: Hash, s: State, step: Step): State
    requires Enabled(s, step)
  {
    match step
    case Advance(to) => s.(now := to)
    case Create(id, poll, _) => s.(tables := s.tables.(polls := s.tables.polls[id := poll]))
    case Arrive(c, cast) => s.(calls := s.calls[c := Call(cast, None, Arrived)])
    case Read(c) => Goto(s, c, AfterRead(s.tables.polls, s.calls[c].cast))
    case Check(c) => Goto(s, c, AfterCheck(h, s.tables.ballots, s.calls[c].cast, s.calls[c].phase.poll))
    case Insert(c, receiptToken) => AfterInsertStep(h, s, c, receiptToken)
    case Respond(c) => Goto(s, c, Answered(Confirmed(s.calls[c].phase.ballot)))
    case LoseReply(c) => Goto(s, c, Answered(Unconfirmed(s.calls[c].phase.ballot)))
    case Fail(c) => Goto(s, c, Answered(Refused(DatabaseError)))
    case TickOpens(ok) =>
      s.(ticker := HalfDone(s.now, s.tables.polls.Keys, ok),
         tables := if ok then s.tables.(polls := OpenDrafts(s.tables.polls, s.now)) else s.tables)
    case TickCloses(ok) =>
      s.(ticker := Resting,
         tables := if ok then s.tables.(polls := CloseExpired(s.tables.polls, s.now)) else s.tables,
         swept := if ok && s.ticker.ok then s.swept + (map id | id in s.ticker.known :: s.ticker.openedAt) else s.swept)
    case AskTally(j, pollId) => s.(jobs := s.jobs[j := Asked(pollId)])
    case LookUp(j) =>
      var id := s.jobs[j].pollId;
      s.(jobs := s.jobs[j := if id !in s.tables.polls then NoPoll
                             else if id in s.tables.tallies then Served(id, s.tables.tallies[id])
                             else Missing(id)])
    case Load(j, rows) => s.(jobs := s.jobs[j := Loaded(s.jobs[j].pollId, rows)])
    case Store(j) =>
      var id := s.jobs[j].pollId;
      var tally := TallyOf(h, s.tables.polls[id], s.jobs[j].rows);
      s.(jobs := s.jobs[j := Served(id, tally)],
         tables := s.tables.(tallies := s.tables.tallies[id := tally]))
  }

  // ---------- runs ----------

  ghost predicate StepAt(h: Hash, states: seq<State>, steps: seq<Step>, i: nat)
    requires i < |steps| && |states| == |steps| + 1
  {
    Enabled(states[i], steps[i]) && states[i + 1] == Apply(h, states[i], steps[i])
  }

  ghost predicate IsRun(h: Hash, states: seq<State>, steps: seq<Step>) {
    && |states| == |steps| + 1
    && (exists now :: states[0] == Initial(now))
    && forall i | 0 <= i < |steps| :: StepAt(h, states, steps, i)
  }

  // ---------- what never changes ----------

  /** Polls stay, with everything but their status, which only moves forward. */
  ghost predicate PollsKept(before: map<Uuid, Poll>, after: map<Uuid, Poll>) {
    forall id | id in before ::
      id in after && SamePoll(before[id], after[id]) && StatusRank(before[id].status) <= StatusRank(after[id].status)
  }

  /** The polls after a step. */
  ghost function PollsAfter(s: State, step: Step): map<Uuid, Poll> {
    match step
    case Create(id, poll, _) => s.tables.polls[id := poll]
    case TickOpens(true) => OpenDrafts(s.tables.polls, s.now)
    case TickCloses(true) => CloseExpired(s.tables.polls, s.now)
    case _ => s.tables.polls
  }

  lemma StepPolls(h: Hash, s: State, step: Step)
    requires Enabled(s, step)
    ensures Apply(h, s, step).tables.polls == PollsAfter(s, step)
  {}

  lemma PollsAfterKept(s: State, step: Step)
    requires Enabled(s, step)
    ensures PollsKept(s.tables.polls, PollsAfter(s, step))
  {}

  lemma StepKeepsPolls(h: Hash, s: State, step: Step)
    requires Enabled(s, step)
    ensures PollsKept(s.tables.polls, Apply(h, s, step).tables.polls)
  {
    PollsAfterKept(s, step);
    StepPolls(h, s, step);
  }

  lemma StepKeepsBallots(h: Hash, s: State, step: Step)
    requires Enabled(s, step)
    ensures s.tables.ballots <= Apply(h, s, step).tables.ballots
    ensures |Apply(h, s, step).tables.ballots| <= |s.tables.ballots| + 1
  {}

  // ---------- the life of a poll ----------

  /** The poll is not ahead of the clock. */
  predicate NotAhead(poll: Poll, now: int) {
    poll.opensAt < poll.closesAt && StatusRank(poll.status) <= StatusRank(ClockStatus(poll, now))
  }

  /** The poll is not behind a given time. */
  predicate NotBehind(poll: Poll, time: int) {
    StatusRank(ClockStatus(poll, time)) <= StatusRank(poll.status)
  }

  /** Between the statements of a tick, no poll it has seen is a draft that should have been opened. */
  ghost predicate HalfSwept(polls: map<Uuid, Poll>, ticker: Ticker)
    requires ticker.HalfDone?
  {
    forall id | id in ticker.known ::
      id in polls && (ticker.ok && polls[id].opensAt <= ticker.openedAt ==> polls[id].status != Draft)
  }

  /** No poll is ahead of the clock, and none is behind the last successful tick that saw it. */
  ghost predicate OnTime(s: State) {
    var polls := s.tables.polls;
    && (forall id | id in polls :: NotAhead(polls[id], s.now))
    && (forall id | id in s.swept :: id in polls && s.swept[id] <= s.now && NotBehind(polls[id], s.swept[id]))
    && (s.ticker.HalfDone? ==> s.ticker.openedAt <= s.now && HalfSwept(polls, s.ticker))
  }

  lemma PollOpens(poll: Poll, now: int, time: int)
    requires NotAhead(poll, now)
    ensures NotAhead(Opened(poll, now), now)
    ensures NotBehind(poll, time) ==> NotBehind(Opened(poll, now), time)
    ensures poll.opensAt <= now ==> Opened(poll, now).status != Draft
  {}

  lemma PollCloses(poll: Poll, now: int, time: int)
    requires NotAhead(poll, now)
    ensures NotAhead(ClosedBy(poll, now), now)
    ensures NotBehind(poll, time) ==> NotBehind(ClosedBy(poll, now), time)
    ensures time <= now && (poll.opensAt <= time ==> poll.status != Draft) ==> NotBehind(ClosedBy(poll, now), time)
  {}

  lemma TimePasses(s: State, t: State)
    requires OnTime(s) && s.now <= t.now
    requires t.tables.polls == s.tables.polls && t.swept == s.swept && t.ticker == s.ticker
    ensures OnTime(t)
  {}

  lemma TickOpensOnTime(s: State, t: State, ok: bool)
    requires OnTime(s) && s.ticker.Resting? && t.now == s.now && t.swept == s.swept
    requires t.ticker == HalfDone(s.now, s.tables.polls.Keys, ok)
    requires t.tables.polls == if ok then OpenDrafts(s.tables.polls, s.now) else s.tables.polls
    ensures OnTime(t)
  {
    forall id | id in s.tables.polls && ok
      ensures t.tables.polls[id] == Opened(s.tables.polls[id], s.now) && NotAhead(t.tables.polls[id], t.now)
    {
      PollOpens(s.tables.polls[id], s.now, s.now);
    }
    forall id | id in s.swept ensures NotBehind(t.tables.polls[id], s.swept[id]) {
      PollOpens(s.tables.polls[id], s.now, s.swept[id]);
    }
  }

  lemma TickClosesOnTime(s: State, t: State, ok: bool)
    requires OnTime(s) && s.ticker.HalfDone? && t.now == s.now && t.ticker == Resting
    requires t.tables.polls == if ok then CloseExpired(s.tables.polls, s.now) else s.tables.polls
    requires t.swept == if ok && s.ticker.ok then s.swept + (map id | id in s.ticker.known :: s.ticker.openedAt)
                        else s.swept
    ensures OnTime(t)
  {
    forall id | id in s.tables.polls ensures NotAhead(t.tables.polls[id], t.now) {
      PollCloses(s.tables.polls[id], s.now, s.now);
    }
    forall id | id in t.swept ensures NotBehind(t.tables.polls[id], t.swept[id]) && t.swept[id] <= t.now {
      PollCloses(s.tables.polls[id], s.now, t.swept[id]);
    }
  }

  lemma CreateOnTime(s: State, t: State, id: Uuid, poll: Poll, decidedAt: int)
    requires OnTime(s) && id !in s.tables.polls && decidedAt <= s.now && IsNewPoll(poll, decidedAt)
    requires t.tables.polls == s.tables.polls[id := poll]
    requires t.now == s.now && t.swept == s.swept && t.ticker == s.ticker
    ensures OnTime(t)
  {}

  lemma OthersTakeTime(h: Hash, s: State, step: Step)
    requires Enabled(s, step) && !step.TickOpens? && !step.TickCloses? && !step.Create?
    ensures var t := Apply(h, s, step);
            s.now <= t.now && t.tables.polls == s.tables.polls && t.swept == s.swept && t.ticker == s.ticker
  {}

  lemma StepKeepsOnTime(h: Hash, s: State, step: Step)
    requires Enabled(s, step) && OnTime(s)
    ensures OnTime(Apply(h, s, step))
  {
    match step
    case TickOpens(ok) => TickOpensOnTime(s, Apply(h, s, step), ok);
    case TickCloses(ok) => TickClosesOnTime(s, Apply(h, s, step), ok);
    case Create(id, poll, decidedAt) => CreateOnTime(s, Apply(h, s, step), id, poll, decidedAt);
    case _ =>
      OthersTakeTime(h, s, step);
      TimePasses(s, Apply(h, s, step));
  }

  // ---------- the ballots ----------

  /** The ballot a call has put into the table. */
  function BallotOf(call: Call): Option<Ballot> {
    match call.phase
    case Recorded(b) => Some(b)
    case Answered(Confirmed(b)) => Some(b)
    case Answered(Unconfirmed(b)) => Some(b)
    case _ => None
  }

  /** No two rows of the table conflict. */
  ghost predicate Unique(ballots: seq<Ballot>) {
    forall i, j | 0 <= i < j < |ballots| :: !Conflicts(ballots[i], ballots[j])
  }

  function VoteIn(b: Ballot, poll: Poll): Vote {
    if poll.ballotType == Ranked then Ranking(b.rankings) else Single(b.choiceIndex)
  }

  /** A row belongs to a poll, is a vote that poll allows, and carries the commitment for it. */
  ghost predicate RowIsSound(h: Hash, polls: map<Uuid, Poll>, b: Ballot) {
    && b.pollId in polls
    && IsValidVote(polls[b.pollId], b)
    && b.commitment == DeriveCommitment(h, b.voterToken, ChoiceStr(VoteIn(b, polls[b.pollId])), b.receiptToken)
  }

  /** The row is in the table and is exactly what the call asked for. */
  ghost predicate IsBallotOf(h: Hash, tables: Tables, call: Call, b: Ballot) {
    && b in tables.ballots
    && call.cast.pollId in tables.polls && call.drawn == Some(b.receiptToken)
    && HoldsVote(h, call.cast, tables.polls[call.cast.pollId], b.receiptToken, b)
  }

  /** A ballot of the same voter token is in the poll, or the drawn receipt token was taken. */
  ghost predicate HasGrounds(h: Hash, tables: Tables, call: Call) {
    && call.cast.pollId in tables.polls
    && (|| HasVoted(tables.ballots, call.cast.pollId,
                    VoterTokenOf(h, call.cast, tables.polls[call.cast.pollId].salt))
        || exists b | b in tables.ballots :: call.drawn == Some(b.receiptToken))
  }

  /** What a call knows at each stage is true of the tables. */
  ghost predicate CallIsSound(h: Hash, tables: Tables, call: Call) {
    var id := call.cast.pollId;
    match call.phase
    case Arrived => true
    case PollRead(poll) => id in tables.polls && SamePoll(poll, tables.polls[id])
    case NotSeenBefore(poll, voterToken) =>
      && id in tables.polls && SamePoll(poll, tables.polls[id])
      && voterToken == VoterTokenOf(h, call.cast, poll.salt)
    case Recorded(b) => IsBallotOf(h, tables, call, b)
    case Answered(Confirmed(b)) => IsBallotOf(h, tables, call, b)
    case Answered(Unconfirmed(b)) => IsBallotOf(h, tables, call, b)
    case Answered(Refused(AlreadyVoted)) => HasGrounds(h, tables, call)
    case Answered(Refused(BadRanking(fault))) =>
      && id in tables.polls && tables.polls[id].ballotType == Ranked
      && IsFaultOf(call.cast.rankings, |tables.polls[id].options|, fault)
    case Answered(Refused(ChoiceOutOfRange(choice))) =>
      && id in tables.polls && tables.polls[id].ballotType == Fptp
      && choice == call.cast.choiceIndex && !(0 <= choice < |tables.polls[id].options|)
    case Answered(Refused(_)) => true
  }

  /** Some call has put the row there. */
  ghost predicate HasOwner(calls: map<nat, Call>, b: Ballot) {
    exists c | c in calls :: BallotOf(calls[c]) == Some(b)
  }

  ghost predicate BallotsAreSound(h: Hash, s: State) {
    && Unique(s.tables.ballots)
    && (forall b | b in s.tables.ballots :: RowIsSound(h, s.tables.polls, b))
    && (forall c | c in s.calls :: CallIsSound(h, s.tables, s.calls[c]))
    && (forall b | b in s.tables.ballots :: HasOwner(s.calls, b))
    && (forall c, d | c in s.calls && d in s.calls && c != d && BallotOf(s.calls[c]).Some? ::
          BallotOf(s.calls[c]) != BallotOf(s.calls[d]))
  }

  /** Sound rows and calls stay sound when polls move on and rows are added. */
  lemma TablesGrow(h: Hash, before: Tables, after: Tables)
    requires PollsKept(before.polls, after.polls) && before.ballots <= after.ballots
    ensures forall b | RowIsSound(h, before.polls, b) :: RowIsSound(h, after.polls, b)
    ensures forall call | CallIsSound(h, before, call) :: CallIsSound(h, after, call)
  {}

  /** Steps of the clock, the scheduler and the tallies leave calls and rows alone. */
  lemma OthersMove(h: Hash, s: State, t: State)
    requires BallotsAreSound(h, s) && t.calls == s.calls && t.tables.ballots == s.tables.ballots
    requires PollsKept(s.tables.polls, t.tables.polls)
    ensures BallotsAreSound(h, t)
  {
    TablesGrow(h, s.tables, t.tables);
  }

  /** One call moves on without adding a row. */
  lemma CallMoves(h: Hash, s: State, t: State, c: nat)
    requires BallotsAreSound(h, s) && t.tables == s.tables
    requires c in t.calls && t.calls == s.calls[c := t.calls[c]]
    requires CallIsSound(h, t.tables, t.calls[c])
    requires BallotOf(t.calls[c]) == if c in s.calls then BallotOf(s.calls[c]) else None
    ensures BallotsAreSound(h, t)
  {
    forall b | b in t.tables.ballots ensures HasOwner(t.calls, b) {
      var d :| d in s.calls && BallotOf(s.calls[d]) == Some(b);
      assert BallotOf(t.calls[d]) == Some(b);
    }
  }

  lemma OwnedIsListed(h: Hash, s: State, c: nat)
    requires BallotsAreSound(h, s) && c in s.calls
    ensures BallotOf(s.calls[c]).Some? ==> BallotOf(s.calls[c]).value in s.tables.ballots
  {}

  lemma NewRowIsNew(tables: Tables, b: Ballot)
    requires InsertFault(tables, b) == None
    ensures b !in tables.ballots
  {}

  /** One call adds its row. */
  lemma CallRecords(h: Hash, s: State, t: State, c: nat, b: Ballot)
    requires BallotsAreSound(h, s) && c in s.calls && BallotOf(s.calls[c]) == None
    requires t.tables == s.tables.(ballots := s.tables.ballots + [b])
    requires c in t.calls && t.calls == s.calls[c := t.calls[c]] && t.calls[c].phase == Recorded(b)
    requires IsBallotOf(h, t.tables, t.calls[c], b) && RowIsSound(h, s.tables.polls, b)
    requires InsertFault(s.tables, b) == None
    ensures BallotsAreSound(h, t)
  {
    TablesGrow(h, s.tables, t.tables);
    forall row | row in t.tables.ballots ensures HasOwner(t.calls, row) && RowIsSound(h, t.tables.polls, row) {
      if row == b {
        assert BallotOf(t.calls[c]) == Some(row);
      } else {
        assert row in s.tables.ballots;
        var d :| d in s.calls && BallotOf(s.calls[d]) == Some(row);
        assert BallotOf(t.calls[d]) == Some(row);
      }
    }
    forall d | d in s.calls && d != c ensures BallotOf(t.calls[d]) != Some(b) {
      OwnedIsListed(h, s, d);
      NewRowIsNew(s.tables, b);
    }
  }

  /** What Read and Check find out is true. */
  lemma ReadsAreSound(h: Hash, s: State, call: Call)
    ensures call.phase.Arrived? ==>
              CallIsSound(h, s.tables, call.(phase := AfterRead(s.tables.polls, call.cast)))
    ensures call.phase.PollRead? && CallIsSound(h, s.tables, call) ==>
              CallIsSound(h, s.tables, call.(phase := AfterCheck(h, s.tables.ballots, call.cast, call.phase.poll)))
  {}

  /** What Insert stores or answers is right. */
  lemma InsertIsSound(h: Hash, s: State, call: Call, receiptToken: Uuid)
    requires call.phase.NotSeenBefore? && CallIsSound(h, s.tables, call)
    ensures var (tables, phase) :=
              AfterInsert(h, s.tables, call.cast, call.phase.checkedPoll, call.phase.voterToken, receiptToken);
            var moved := Call(call.cast, Some(receiptToken), phase);
            if phase.Recorded? then
              && tables == s.tables.(ballots := s.tables.ballots + [phase.ballot])
              && InsertFault(s.tables, phase.ballot) == None
              && RowIsSound(h, s.tables.polls, phase.ballot)
              && IsBallotOf(h, tables, moved, phase.ballot)
            else
              tables == s.tables && BallotOf(moved) == None && CallIsSound(h, s.tables, moved)
  {
    var poll := call.phase.checkedPoll;
    var b := BallotFor(h, call.cast, poll, call.phase.voterToken, receiptToken);
    BallotHoldsVote(h, call.cast, poll, receiptToken, b);
    FaultlessVoteIsValid(h, call.cast, poll, receiptToken, b);
    VoteFaultIsRight(poll, call.cast);
    if VoteFault(poll, call.cast) == None && InsertFault(s.tables, b) == Some(UniqueViolation) {
      var i :| 0 <= i < |s.tables.ballots| && Conflicts(s.tables.ballots[i], b);
      assert s.tables.ballots[i] in s.tables.ballots;
    }
  }

  lemma InsertKeepsBallotsSound(h: Hash, s: State, c: nat, receiptToken: Uuid)
    requires BallotsAreSound(h, s) && c in s.calls && s.calls[c].phase.NotSeenBefore?
    ensures BallotsAreSound(h, AfterInsertStep(h, s, c, receiptToken))
  {
    var t := AfterInsertStep(h, s, c, receiptToken);
    InsertIsSound(h, s, s.calls[c], receiptToken);
    if t.calls[c].phase.Recorded? {
      CallRecords(h, s, t, c, t.calls[c].phase.ballot);
    } else {
      CallMoves(h, s, t, c);
    }
  }

  /** The step of a call that neither stores nor loses a row. */
  predicate MovesCall(step: Step) {
    step.Arrive? || step.Read? || step.Check? || step.Respond? || step.LoseReply? || step.Fail?
  }

  lemma CallStep(h: Hash, s: State, step: Step, c: nat)
    requires Enabled(s, step) && BallotsAreSound(h, s) && MovesCall(step) && step.call == c
    ensures var t := Apply(h, s, step);
            && t.tables == s.tables && c in t.calls && t.calls == s.calls[c := t.calls[c]]
            && CallIsSound(h, t.tables, t.calls[c])
            && BallotOf(t.calls[c]) == if c in s.calls then BallotOf(s.calls[c]) else None
  {
    if step.Read? || step.Check? {
      ReadsAreSound(h, s, s.calls[c]);
    }
  }

  lemma OthersKeepBallots(h: Hash, s: State, step: Step)
    requires Enabled(s, step) && !MovesCall(step) && !step.Insert?
    ensures var t := Apply(h, s, step); t.calls == s.calls && t.tables.ballots == s.tables.ballots
  {}

  lemma StepKeepsBallotsSound(h: Hash, s: State, step: Step)
    requires Enabled(s, step) && BallotsAreSound(h, s)
    ensures BallotsAreSound(h, Apply(h, s, step))
  {
    if step.Insert? {
      InsertKeepsBallotsSound(h, s, step.call, step.receiptToken);
    } else if MovesCall(step) {
      CallStep(h, s, step, step.call);
      CallMoves(h, s, Apply(h, s, step), step.call);
    } else {
      OthersKeepBallots(h, s, step);
      StepKeepsPolls(h, s, step);
      OthersMove(h, s, Apply(h, s, step));
    }
  }
}
