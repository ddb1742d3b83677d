/** What holds of every run of the voting protocol, however its calls and ticks interleave. */
module CastingSafety {
  import opened Wrappers
  import opened Hashing
  import opened Commitments
  import opened Sets
  import opened Polls
  import opened Tallies
  import opened Casting

  // ---------- tallies ----------

  /** The tally is the exact tally of the rows the poll had when the table had its first k rows. */
  ghost predicate IsTallyAt(h: Hash, tables: Tables, id: Uuid, tally: StoredTally, k: nat) {
    && id in tables.polls && k <= |tables.ballots|
    && tally == TallyOf(h, tables.polls[id], RowsOf(tables.ballots[..k], id))
  }

  ghost predicate IsPastTally(h: Hash, tables: Tables, id: Uuid, tally: StoredTally) {
    exists k: nat :: IsTallyAt(h, tables, id, tally, k)
  }

  /** The rows are those the poll had when the table had its first k rows, in some order. */
  ghost predicate AreRowsAt(ballots: seq<Ballot>, id: Uuid, rows: seq<Ballot>, k: nat) {
    k <= |ballots| && multiset(rows) == multiset(RowsOf(ballots[..k], id))
  }

  ghost predicate JobIsSound(h: Hash, tables: Tables, job: Job) {
    match job
    case Loaded(id, rows) => exists k: nat :: AreRowsAt(tables.ballots, id, rows, k)
    case Served(id, tally) => IsPastTally(h, tables, id, tally)
    case _ => true
  }

  ghost predicate TalliesAreSound(h: Hash, s: State) {
    && (forall id | id in s.tables.tallies :: IsPastTally(h, s.tables, id, s.tables.tallies[id]))
    && (forall j | j in s.jobs :: JobIsSound(h, s.tables, s.jobs[j]))
  }

  lemma SamePollSameTally(h: Hash, p: Poll, q: Poll, rows: seq<Ballot>)
    requires SamePoll(p, q)
    ensures TallyOf(h, p, rows) == TallyOf(h, q, rows)
  {}

  lemma PastStaysPast(h: Hash, before: Tables, after: Tables, id: Uuid, tally: StoredTally)
    requires PollsKept(before.polls, after.polls) && before.ballots <= after.ballots
    requires IsPastTally(h, before, id, tally)
    ensures IsPastTally(h, after, id, tally)
  {
    var k: nat :| IsTallyAt(h, before, id, tally, k);
    assert before.ballots[..k] == after.ballots[..k];
    SamePollSameTally(h, before.polls[id], after.polls[id], RowsOf(before.ballots[..k], id));
    assert IsTallyAt(h, after, id, tally, k);
  }

  lemma JobStaysSound(h: Hash, before: Tables, after: Tables, job: Job)
    requires PollsKept(before.polls, after.polls) && before.ballots <= after.ballots
    requires JobIsSound(h, before, job)
    ensures JobIsSound(h, after, job)
  {
    match job
    case Loaded(id, rows) =>
      var k: nat :| AreRowsAt(before.ballots, id, rows, k);
      assert before.ballots[..k] == after.ballots[..k];
      assert AreRowsAt(after.ballots, id, rows, k);
    case Served(id, tally) => PastStaysPast(h, before, after, id, tally);
    case _ =>
  }

  /** A step that stores no tally and changes at most one job, to a sound one. */
  lemma JobMoves(h: Hash, s: State, t: State, j: nat)
    requires TalliesAreSound(h, s) && t.tables.tallies == s.tables.tallies
    requires PollsKept(s.tables.polls, t.tables.polls) && s.tables.ballots <= t.tables.ballots
    requires t.jobs == s.jobs || (j in t.jobs && t.jobs == s.jobs[j := t.jobs[j]] && JobIsSound(h, t.tables, t.jobs[j]))
    ensures TalliesAreSound(h, t)
  {
    forall id | id in t.tables.tallies ensures IsPastTally(h, t.tables, id, t.tables.tallies[id]) {
      PastStaysPast(h, s.tables, t.tables, id, t.tables.tallies[id]);
    }
    forall i | i in t.jobs ensures JobIsSound(h, t.tables, t.jobs[i]) {
      if t.jobs == s.jobs || i != j {
        JobStaysSound(h, s.tables, t.tables, s.jobs[i]);
      }
    }
  }

  lemma StoredIsPast(h: Hash, s: State, j: nat, id: Uuid, rows: seq<Ballot>)
    requires TalliesAreSound(h, s) && j in s.jobs && s.jobs[j] == Loaded(id, rows) && id in s.tables.polls
    ensures IsPastTally(h, s.tables, id, TallyOf(h, s.tables.polls[id], rows))
  {
    assert JobIsSound(h, s.tables, s.jobs[j]);
    var k: nat :| AreRowsAt(s.tables.ballots, id, rows, k);
    TallyIgnoresOrder(h, s.tables.polls[id], rows, RowsOf(s.tables.ballots[..k], id));
    assert IsTallyAt(h, s.tables, id, TallyOf(h, s.tables.polls[id], rows), k);
  }

  /** The step that stores a tally computed from rows read earlier, perhaps in another order. */
  lemma TallyIsStored(h: Hash, s: State, t: State, j: nat, id: Uuid, rows: seq<Ballot>)
    requires TalliesAreSound(h, s) && j in s.jobs && s.jobs[j] == Loaded(id, rows) && id in s.tables.polls
    requires var tally := TallyOf(h, s.tables.polls[id], rows);
             && t.jobs == s.jobs[j := Served(id, tally)]
             && t.tables == s.tables.(tallies := s.tables.tallies[id := tally])
    ensures TalliesAreSound(h, t)
  {
    StoredIsPast(h, s, j, id, rows);
    var tally := TallyOf(h, s.tables.polls[id], rows);
    PastStaysPast(h, s.tables, t.tables, id, tally);
    forall i | i in t.tables.tallies && i != id ensures IsPastTally(h, t.tables, i, t.tables.tallies[i]) {
      PastStaysPast(h, s.tables, t.tables, i, s.tables.tallies[i]);
    }
    forall i | i in t.jobs && i != j ensures JobIsSound(h, t.tables, t.jobs[i]) {
      JobStaysSound(h, s.tables, t.tables, s.jobs[i]);
    }
  }

  lemma OthersKeepJobs(h: Hash, s: State, step: Step)
    requires Enabled(s, step) && !step.Store? && !step.AskTally? && !step.LookUp? && !step.Load?
    ensures Apply(h, s, step).jobs == s.jobs && Apply(h, s, step).tables.tallies == s.tables.tallies
  {}

  lemma StepKeepsTalliesSound(h: Hash, s: State, step: Step)
    requires Enabled(s, step) && TalliesAreSound(h, s)
    ensures TalliesAreSound(h, Apply(h, s, step))
  {
    var t := Apply(h, s, step);
    StepKeepsPolls(h, s, step);
    StepKeepsBallots(h, s, step);
    match step
    case Store(j) => TallyIsStored(h, s, t, j, s.jobs[j].pollId, s.jobs[j].rows);
    case AskTally(j, _) => JobMoves(h, s, t, j);
    case LookUp(j) => JobMoves(h, s, t, j);
    case Load(j, rows) =>
      assert s.tables.ballots[..|s.tables.ballots|] == s.tables.ballots;
      assert AreRowsAt(s.tables.ballots, s.jobs[j].pollId, rows, |s.tables.ballots|);
      JobMoves(h, s, t, j);
    case _ =>
      OthersKeepJobs(h, s, step);
      JobMoves(h, s, t, 0);
  }

  // ---------- every state of every run ----------

  ghost predicate IsSafe(h: Hash, s: State) {
    OnTime(s) && BallotsAreSound(h, s) && TalliesAreSound(h, s)
  }

  lemma StepKeepsSafe(h: Hash, s: State, step: Step)
    requires Enabled(s, step) && IsSafe(h, s)
    ensures IsSafe(h, Apply(h, s, step))
  {
    StepKeepsOnTime(h, s, step);
    StepKeepsBallotsSound(h, s, step);
    StepKeepsTalliesSound(h, s, step);
  }

  lemma {:induction false} RunIsSafe(h: Hash, states: seq<State>, steps: seq<Step>, i: nat)
    requires IsRun(h, states, steps) && i < |states|
    ensures IsSafe(h, states[i])
  {
    if i == 0 {
    } else {
      RunIsSafe(h, states, steps, i - 1);
      assert StepAt(h, states, steps, i - 1);
      StepKeepsSafe(h, states[i - 1], steps[i - 1]);
    }
  }

  lemma OneStep(h: Hash, states: seq<State>, steps: seq<Step>, i: nat)
    requires IsRun(h, states, steps) && i < |steps|
    ensures PollsKept(states[i].tables.polls, states[i + 1].tables.polls)
    ensures states[i].tables.ballots <= states[i + 1].tables.ballots
    ensures |states[i + 1].tables.ballots| <= |states[i].tables.ballots| + 1
  {
    assert StepAt(h, states, steps, i);
    StepKeepsPolls(h, states[i], steps[i]);
    StepKeepsBallots(h, states[i], steps[i]);
  }

  lemma {:induction false} RunKeeps(h: Hash, states: seq<State>, steps: seq<Step>, i: nat, j: nat)
    requires IsRun(h, states, steps) && i <= j < |states|
    ensures PollsKept(states[i].tables.polls, states[j].tables.polls)
    ensures states[i].tables.ballots <= states[j].tables.ballots
    decreases j - i
  {
    if i == j {
    } else {
      RunKeeps(h, states, steps, i, j - 1);
      OneStep(h, states, steps, j - 1);
    }
  }

  // ---------- one ballot per voter ----------

  /** In every state of every run: a voter token has at most one ballot in a poll and receipts are
      distinct; every row is a vote its poll allows and carries the commitment for that vote; rows and
      the calls that stored one correspond one to one, and each row holds the vote its call has sent, under the
      receipt drawn for it. */
  lemma CastingIsSafe(h: Hash, states: seq<State>, steps: seq<Step>, n: nat)
    requires IsRun(h, states, steps) && n < |states|
    ensures var rows, calls := states[n].tables.ballots, states[n].calls;
            && (forall i, j | 0 <= i < j < |rows| ::
                  && (rows[i].pollId == rows[j].pollId ==> rows[i].voterToken != rows[j].voterToken)
                  && rows[i].receiptToken != rows[j].receiptToken)
            && (forall i | 0 <= i < |rows| :: RowIsSound(h, states[n].tables.polls, rows[i]))
            && (forall i | 0 <= i < |rows| :: HasOwner(calls, rows[i]))
            && (forall c, d | c in calls && d in calls && BallotOf(calls[c]).Some? ::
                  BallotOf(calls[c]) == BallotOf(calls[d]) ==> c == d)
            && (forall c | c in calls && BallotOf(calls[c]).Some? ::
                  IsBallotOf(h, states[n].tables, calls[c], BallotOf(calls[c]).value))
  {
    RunIsSafe(h, states, steps, n);
    var s := states[n];
    forall i, j | 0 <= i < j < |s.tables.ballots| ensures !Conflicts(s.tables.ballots[i], s.tables.ballots[j]) {}
    forall i | 0 <= i < |s.tables.ballots|
      ensures RowIsSound(h, s.tables.polls, s.tables.ballots[i]) && HasOwner(s.calls, s.tables.ballots[i])
    {
      assert s.tables.ballots[i] in s.tables.ballots;
    }
    forall c | c in s.calls && BallotOf(s.calls[c]).Some?
      ensures IsBallotOf(h, s.tables, s.calls[c], BallotOf(s.calls[c]).value)
    {
      assert CallIsSound(h, s.tables, s.calls[c]);
    }
  }

  lemma TwinsAreOne(rows: seq<Ballot>, x: Ballot, y: Ballot)
    requires Unique(rows) && x in rows && y in rows && Conflicts(x, y)
    ensures x == y
  {}

  lemma SameVoterSameRow(h: Hash, s: State, c: nat, d: nat)
    requires BallotsAreSound(h, s) && c in s.calls && d in s.calls
    requires s.calls[c].cast.flt == s.calls[d].cast.flt && s.calls[c].cast.pollId == s.calls[d].cast.pollId
    requires BallotOf(s.calls[c]).Some? && BallotOf(s.calls[d]).Some?
    ensures BallotOf(s.calls[c]) == BallotOf(s.calls[d])
  {
    var x, y := BallotOf(s.calls[c]).value, BallotOf(s.calls[d]).value;
    assert CallIsSound(h, s.tables, s.calls[c]) && CallIsSound(h, s.tables, s.calls[d]);
    TwinsAreOne(s.tables.ballots, x, y);
  }

  /** Of any number of calls by one voter to one poll, however they race, at most one stores a ballot. */
  lemma OneBallotPerVoter(h: Hash, states: seq<State>, steps: seq<Step>, n: nat, c: nat, d: nat)
    requires IsRun(h, states, steps) && n < |states|
    requires c in states[n].calls && d in states[n].calls && c != d
    requires states[n].calls[c].cast.flt == states[n].calls[d].cast.flt
    requires states[n].calls[c].cast.pollId == states[n].calls[d].cast.pollId
    ensures BallotOf(states[n].calls[c]) == None || BallotOf(states[n].calls[d]) == None
  {
    RunIsSafe(h, states, steps, n);
    if BallotOf(states[n].calls[c]).Some? && BallotOf(states[n].calls[d]).Some? {
      SameVoterSameRow(h, states[n], c, d);
    }
  }

  /** Nobody is told "already voted" without cause: a ballot of the same FLT is in the poll, or the drawn
      receipt token was taken, or TokenCollision shows two strings with the same digest. */
  lemma RefusalHasCause(h: Hash, states: seq<State>, steps: seq<Step>, n: nat, c: nat)
    requires IsRun(h, states, steps) && n < |states|
    requires c in states[n].calls && states[n].calls[c].phase == Answered(Refused(AlreadyVoted))
    ensures var s, cast := states[n], states[n].calls[c].cast;
            || (exists b | b in s.tables.ballots :: s.calls[c].drawn == Some(b.receiptToken))
            || (exists d | d in s.calls && BallotOf(s.calls[d]).Some? && s.calls[d].cast.pollId == cast.pollId ::
                  || s.calls[d].cast.flt == cast.flt
                  || (cast.pollId in s.tables.polls
                      && var salt := s.tables.polls[cast.pollId].salt;
                         IsCollision(h, TokenCollision(h, cast.flt, cast.pollId, salt,
                                                       s.calls[d].cast.flt, cast.pollId, salt))))
  {
    RunIsSafe(h, states, steps, n);
    var s := states[n];
    var cast := s.calls[c].cast;
    assert CallIsSound(h, s.tables, s.calls[c]);
    var poll := s.tables.polls[cast.pollId];
    var token := VoterTokenOf(h, cast, poll.salt);
    if HasVoted(s.tables.ballots, cast.pollId, token) {
      var i :| && 0 <= i < |s.tables.ballots|
               && s.tables.ballots[i].pollId == cast.pollId && s.tables.ballots[i].voterToken == token;
      var b := s.tables.ballots[i];
      assert b in s.tables.ballots && HasOwner(s.calls, b);
      var d :| d in s.calls && BallotOf(s.calls[d]) == Some(b);
      assert CallIsSound(h, s.tables, s.calls[d]);
      assert IsBallotOf(h, s.tables, s.calls[d], b);
      VoterTokenBinds(h, cast.flt, cast.pollId, poll.salt, s.calls[d].cast.flt, cast.pollId, poll.salt);
    }
  }

  /** A vote refused as no ranking, or as out of range, is just that. */
  lemma RefusedVoteIsBad(h: Hash, states: seq<State>, steps: seq<Step>, n: nat, c: nat)
    requires IsRun(h, states, steps) && n < |states| && c in states[n].calls
    ensures var call, polls := states[n].calls[c], states[n].tables.polls;
            match call.phase
            case Answered(Refused(BadRanking(fault))) =>
              && call.cast.pollId in polls && polls[call.cast.pollId].ballotType == Ranked
              && IsFaultOf(call.cast.rankings, |polls[call.cast.pollId].options|, fault)
            case Answered(Refused(ChoiceOutOfRange(choice))) =>
              && call.cast.pollId in polls && polls[call.cast.pollId].ballotType == Fptp
              && choice == call.cast.choiceIndex && !(0 <= choice < |polls[call.cast.pollId].options|)
            case _ => true
  {
    RunIsSafe(h, states, steps, n);
    assert CallIsSound(h, states[n].tables, states[n].calls[c]);
  }

  // ---------- the lag of the scheduler ----------

  lemma TickHalf(h: Hash, states: seq<State>, steps: seq<Step>, i: nat)
    requires IsRun(h, states, steps) && i < |steps|
    ensures steps[i] == TickOpens(true) ==>
              states[i + 1].ticker == HalfDone(states[i].now, states[i].tables.polls.Keys, true)
    ensures states[i].ticker.HalfDone? && !steps[i].TickCloses? ==> states[i + 1].ticker == states[i].ticker
    ensures steps[i] == TickCloses(true) && states[i].ticker.HalfDone? && states[i].ticker.ok ==>
              forall id | id in states[i].ticker.known ::
                id in states[i + 1].swept && states[i + 1].swept[id] == states[i].ticker.openedAt
  {
    assert StepAt(h, states, steps, i);
  }

  lemma {:induction false} TickStaysHalfDone(h: Hash, states: seq<State>, steps: seq<Step>, i: nat, j: nat)
    requires IsRun(h, states, steps) && i < j < |steps|
    requires steps[i] == TickOpens(true) && forall k | i < k < j :: !steps[k].TickCloses?
    ensures states[j].ticker == HalfDone(states[i].now, states[i].tables.polls.Keys, true)
    decreases j - i
  {
    TickHalf(h, states, steps, j - 1);
    if i + 1 < j {
      TickStaysHalfDone(h, states, steps, i, j - 1);
    }
  }

  /** Lag bound: take a tick whose statements both succeeded, run at states i and j. From then on every
      poll that existed at its start is never behind the time it started, and never ahead of the clock.
      If no time passed during the tick, every such poll has exactly the status of the clock. */
  lemma TickBoundsLag(h: Hash, states: seq<State>, steps: seq<Step>, i: nat, j: nat, m: nat, id: Uuid)
    requires IsRun(h, states, steps) && i < j < m < |states|
    requires steps[i] == TickOpens(true) && steps[j] == TickCloses(true)
    requires forall k | i < k < j :: !steps[k].TickCloses?
    requires id in states[i].tables.polls
    ensures id in states[m].tables.polls
    ensures NotBehind(states[m].tables.polls[id], states[i].now)
    ensures NotAhead(states[m].tables.polls[id], states[m].now)
    ensures states[m].now == states[i].now ==>
              states[m].tables.polls[id].status == ClockStatus(states[m].tables.polls[id], states[m].now)
  {
    TickStaysHalfDone(h, states, steps, i, j);
    TickHalf(h, states, steps, j);
    assert states[j + 1].swept[id] == states[i].now;
    RunIsSafe(h, states, steps, j + 1);
    RunKeeps(h, states, steps, j + 1, m);
    RunIsSafe(h, states, steps, m);
  }

  /** While a poll is closed, a call that has not read it yet gets nowhere. */
  ghost predicate GetsNowhere(call: Call, id: Uuid) {
    call.cast.pollId == id ==> call.phase.Arrived? || (call.phase.Answered? && call.phase.answer.Refused?)
  }

  lemma StepGetsNowhere(h: Hash, s: State, step: Step, id: Uuid, c: nat)
    requires Enabled(s, step) && id in s.tables.polls && s.tables.polls[id].status == Closed
    requires c in s.calls ==> GetsNowhere(s.calls[c], id)
    ensures var t := Apply(h, s, step); c in t.calls ==> GetsNowhere(t.calls[c], id)
  {}

  lemma RunGetsNowhere(h: Hash, states: seq<State>, steps: seq<Step>, i: nat, id: Uuid, c: nat)
    requires IsRun(h, states, steps) && i < |steps|
    requires id in states[i].tables.polls && states[i].tables.polls[id].status == Closed
    requires c in states[i].calls ==> GetsNowhere(states[i].calls[c], id)
    ensures c in states[i + 1].calls ==> GetsNowhere(states[i + 1].calls[c], id)
  {
    assert StepAt(h, states, steps, i);
    StepGetsNowhere(h, states[i], steps[i], id, c);
  }

  /** A closed poll takes no ballot from a call that had not read it before. */
  lemma {:induction false} ClosedTakesNothing(h: Hash, states: seq<State>, steps: seq<Step>, i: nat, m: nat,
                                        id: Uuid, c: nat)
    requires IsRun(h, states, steps) && i <= m < |states|
    requires id in states[i].tables.polls && states[i].tables.polls[id].status == Closed
    requires c in states[i].calls ==> states[i].calls[c].phase.Arrived?
    ensures c in states[m].calls ==> GetsNowhere(states[m].calls[c], id)
    decreases m - i
  {
    if i == m {
    } else {
      ClosedTakesNothing(h, states, steps, i, m - 1, id, c);
      RunKeeps(h, states, steps, i, m - 1);
      RunGetsNowhere(h, states, steps, m - 1, id, c);
    }
  }

  /** So a call that starts after a successful tick past closes_at stores nothing, in any continuation. */
  lemma LateCallStoresNothing(h: Hash, states: seq<State>, steps: seq<Step>, i: nat, j: nat, m: nat, n: nat,
                              id: Uuid, c: nat)
    requires IsRun(h, states, steps) && i < j < m <= n < |states|
    requires steps[i] == TickOpens(true) && steps[j] == TickCloses(true)
    requires forall k | i < k < j :: !steps[k].TickCloses?
    requires id in states[i].tables.polls && states[i].tables.polls[id].closesAt <= states[i].now
    requires c !in states[m].calls && c in states[n].calls && states[n].calls[c].cast.pollId == id
    ensures BallotOf(states[n].calls[c]) == None
  {
    TickBoundsLag(h, states, steps, i, j, m, id);
    RunKeeps(h, states, steps, i, m);
    ClosedTakesNothing(h, states, steps, m, n, id, c);
  }

  // ---------- inserted late, but read in time ----------

  /** The call has found its poll open. */
  predicate HasRead(call: Call) {
    call.phase.PollRead? || call.phase.NotSeenBefore? || BallotOf(call).Some?
  }

  lemma StepReads(h: Hash, s: State, step: Step, c: nat)
    requires Enabled(s, step) && c in Apply(h, s, step).calls && HasRead(Apply(h, s, step).calls[c])
    ensures c in s.calls && s.calls[c].cast == Apply(h, s, step).calls[c].cast
    ensures || HasRead(s.calls[c])
            || (&& step == Read(c) && s.calls[c].cast.pollId in s.tables.polls
                && s.tables.polls[s.calls[c].cast.pollId].status == Open)
  {}

  /** Every call that stores a ballot has read its poll while the poll was open. */
  lemma {:induction false} BallotWasReadOpen(h: Hash, states: seq<State>, steps: seq<Step>, n: nat,
                                        c: nat) returns (i: nat)
    requires IsRun(h, states, steps) && n < |states| && c in states[n].calls && HasRead(states[n].calls[c])
    ensures i < n && steps[i] == Read(c)
    ensures states[n].calls[c].cast.pollId in states[i].tables.polls
    ensures states[i].tables.polls[states[n].calls[c].cast.pollId].status == Open
  {
    assert StepAt(h, states, steps, n - 1);
    StepReads(h, states[n - 1], steps[n - 1], c);
    if HasRead(states[n - 1].calls[c]) {
      i := BallotWasReadOpen(h, states, steps, n - 1, c);
    } else {
      i := n - 1;
    }
  }

  /** The second statement of a tick runs, and finds the poll expired. */
  predicate ClosesPoll(s: State, step: Step, id: Uuid) {
    step == TickCloses(true) && id in s.tables.polls && s.tables.polls[id].closesAt <= s.now
  }

  lemma PollsAfterOpen(s: State, step: Step, id: Uuid)
    requires Enabled(s, step) && id in s.tables.polls && s.tables.polls[id].status != Draft
    ensures id in PollsAfter(s, step)
    ensures var status := PollsAfter(s, step)[id].status;
            && status != Draft
            && (status == Open <==> s.tables.polls[id].status == Open && !ClosesPoll(s, step, id))
  {}

  lemma RunClosesPoll(h: Hash, states: seq<State>, steps: seq<Step>, i: nat, id: Uuid)
    requires IsRun(h, states, steps) && i < |steps|
    requires id in states[i].tables.polls && states[i].tables.polls[id].status != Draft
    ensures id in states[i + 1].tables.polls && states[i + 1].tables.polls[id].status != Draft
    ensures states[i + 1].tables.polls[id].status == Open
            <==> states[i].tables.polls[id].status == Open && !ClosesPoll(states[i], steps[i], id)
  {
    assert StepAt(h, states, steps, i);
    StepPolls(h, states[i], steps[i]);
    PollsAfterOpen(states[i], steps[i], id);
  }

  /** No tick finds the poll expired at steps i to n. */
  ghost predicate NeverClosed(states: seq<State>, steps: seq<Step>, i: nat, n: nat, id: Uuid)
    requires i <= n <= |steps| && |states| == |steps| + 1
  {
    forall k | i <= k < n :: !ClosesPoll(states[k], steps[k], id)
  }

  lemma OneStepLonger(states: seq<State>, steps: seq<Step>, i: nat, n: nat, id: Uuid)
    requires i < n <= |steps| && |states| == |steps| + 1
    ensures NeverClosed(states, steps, i, n, id)
            <==> NeverClosed(states, steps, i, n - 1, id) && !ClosesPoll(states[n - 1], steps[n - 1], id)
  {}

  /** An open poll stays open exactly until a tick finds it expired. */
  lemma {:induction false} OpenUntilClosed(h: Hash, states: seq<State>, steps: seq<Step>, i: nat, n: nat, id: Uuid)
    requires IsRun(h, states, steps) && i <= n < |states|
    requires id in states[i].tables.polls && states[i].tables.polls[id].status == Open
    ensures id in states[n].tables.polls && states[n].tables.polls[id].status != Draft
    ensures states[n].tables.polls[id].status == Open <==> NeverClosed(states, steps, i, n, id)
    decreases n - i
  {
    if i == n {
    } else {
      OpenUntilClosed(h, states, steps, i, n - 1, id);
      RunClosesPoll(h, states, steps, n - 1, id);
      OneStepLonger(states, steps, i, n, id);
    }
  }

  /** So the insert of a call meets an open poll exactly when no tick has found the poll expired since the
      call read it. */
  lemma InsertMeetsOpenPoll(h: Hash, states: seq<State>, steps: seq<Step>, n: nat, c: nat,
                            receiptToken: Uuid) returns (i: nat)
    requires IsRun(h, states, steps) && n < |steps| && steps[n] == Insert(c, receiptToken)
    ensures i < n && steps[i] == Read(c) && c in states[n].calls
    ensures var id := states[n].calls[c].cast.pollId;
            && id in states[i].tables.polls && states[i].tables.polls[id].status == Open
            && id in states[n].tables.polls
            && (states[n].tables.polls[id].status == Open <==> NeverClosed(states, steps, i, n, id))
  {
    assert StepAt(h, states, steps, n);
    i := BallotWasReadOpen(h, states, steps, n, c);
    OpenUntilClosed(h, states, steps, i, n, states[n].calls[c].cast.pollId);
  }

  lemma Continue(h: Hash, states: seq<State>, steps: seq<Step>, step: Step) returns (longer: seq<State>)
    requires IsRun(h, states, steps) && Enabled(states[|steps|], step)
    ensures longer == states + [Apply(h, states[|steps|], step)] && IsRun(h, longer, steps + [step])
  {
    var next := Apply(h, states[|steps|], step);
    longer := states + [next];
    forall i | 0 <= i < |steps + [step]| ensures StepAt(h, longer, steps + [step], i) {
      assert i < |steps| ==> StepAt(h, states, steps, i);
    }
  }

  /** Up to its insert, a call with a faultless vote that found its poll open. */
  ghost predicate AboutToInsert(h: Hash, s: State, id: Uuid) {
    && id in s.tables.polls && s.tables.ballots == []
    && 0 in s.calls && s.calls[0].cast.pollId == id && s.calls[0].phase.NotSeenBefore?
    && VoteFault(s.calls[0].phase.checkedPoll, s.calls[0].cast) == None
  }

  lemma Approach(h: Hash, id: Uuid) returns (states: seq<State>, steps: seq<Step>)
    ensures IsRun(h, states, steps)
    ensures var s := states[|steps|];
            && AboutToInsert(h, s, id) && s.now == 0 && s.ticker == Resting
            && s.jobs == map[] && s.tables.tallies == map[]
            && s.tables.polls[id].status == Open && s.tables.polls[id].closesAt == 1
  {
    var poll := Poll(["yes", "no"], Fptp, Open, "", 0, 1);
    states, steps := [Initial(0)], [];
    states := Continue(h, states, steps, Create(id, poll, 0));
    steps := steps + [Create(id, poll, 0)];
    states := Continue(h, states, steps, Arrive(0, CastRequest("", id, 0, [])));
    steps := steps + [Arrive(0, CastRequest("", id, 0, []))];
    states := Continue(h, states, steps, Read(0));
    steps := steps + [Read(0)];
    states := Continue(h, states, steps, Check(0));
    steps := steps + [Check(0)];
  }

  /** The status is read before the insert and not looked at again, so a ballot can be stored in a poll
      that has been closed in between. */
  lemma BallotAfterClosing(h: Hash, id: Uuid, receiptToken: Uuid) returns (states: seq<State>, steps: seq<Step>)
    ensures IsRun(h, states, steps) && |steps| > 0 && steps[|steps| - 1] == Insert(0, receiptToken)
    ensures var before, after := states[|steps| - 1], states[|steps|];
            && id in before.tables.polls && before.tables.polls[id].status == Closed
            && before.tables.ballots == []
            && |after.tables.ballots| == 1 && after.tables.ballots[0].pollId == id
  {
    states, steps := Approach(h, id);
    states := Continue(h, states, steps, Advance(1));
    steps := steps + [Advance(1)];
    states := Continue(h, states, steps, TickOpens(true));
    steps := steps + [TickOpens(true)];
    states := Continue(h, states, steps, TickCloses(true));
    steps := steps + [TickCloses(true)];
    assert AboutToInsert(h, states[|steps|], id);
    states := Continue(h, states, steps, Insert(0, receiptToken));
    steps := steps + [Insert(0, receiptToken)];
  }

  // ---------- tallies that are served ----------

  /** The ballot table only grows row by row, so every prefix of it once was the whole table. */
  lemma {:induction false} PrefixWasTable(h: Hash, states: seq<State>, steps: seq<Step>, n: nat,
                                        k: nat) returns (i: nat)
    requires IsRun(h, states, steps) && n < |states| && k <= |states[n].tables.ballots|
    ensures i <= n && states[i].tables.ballots == states[n].tables.ballots[..k]
  {
    if k == |states[n].tables.ballots| {
      i := n;
    } else {
      OneStep(h, states, steps, n - 1);
      i := PrefixWasTable(h, states, steps, n - 1, k);
    }
  }

  lemma ServedAt(h: Hash, states: seq<State>, steps: seq<Step>, n: nat, j: nat) returns (k: nat)
    requires IsRun(h, states, steps) && n < |states|
    requires j in states[n].jobs && states[n].jobs[j].Served?
    ensures IsTallyAt(h, states[n].tables, states[n].jobs[j].pollId, states[n].jobs[j].tally, k)
  {
    RunIsSafe(h, states, steps, n);
    assert JobIsSound(h, states[n].tables, states[n].jobs[j]);
    k :| IsTallyAt(h, states[n].tables, states[n].jobs[j].pollId, states[n].jobs[j].tally, k);
  }

  lemma {:induction false} RowsAreBallots(ballots: seq<Ballot>, id: Uuid)
    ensures forall b | b in RowsOf(ballots, id) :: b in ballots && b.pollId == id
  {
    if ballots == [] {
    } else {
      RowsAreBallots(ballots[..|ballots| - 1], id);
    }
  }

  lemma UniqueGrows(rows: seq<Ballot>, b: Ballot)
    requires Unique(rows) && forall row | row in rows :: !Conflicts(row, b)
    ensures Unique(rows + [b])
  {}

  lemma NoConflictWithLast(ballots: seq<Ballot>, b: Ballot)
    requires ballots != [] && Unique(ballots) && b in ballots[..|ballots| - 1]
    ensures !Conflicts(b, ballots[|ballots| - 1])
  {
    var last := |ballots| - 1;
    var i :| 0 <= i < last && ballots[..last][i] == b;
    assert ballots[i] == b;
  }

  lemma {:induction false} RowsAreUnique(ballots: seq<Ballot>, id: Uuid)
    requires Unique(ballots)
    ensures Unique(RowsOf(ballots, id))
  {
    if ballots == [] {
    } else {
      var last := |ballots| - 1;
      var rows := RowsOf(ballots[..last], id);
      RowsAreUnique(ballots[..last], id);
      RowsAreBallots(ballots[..last], id);
      forall b | b in rows ensures !Conflicts(b, ballots[last]) {
        NoConflictWithLast(ballots, b);
      }
      UniqueGrows(rows, ballots[last]);
    }
  }

  lemma RowsOfIsPart(ballots: seq<Ballot>, id: Uuid)
    ensures forall b | b in RowsOf(ballots, id) :: b in ballots && b.pollId == id
    ensures Unique(ballots) ==> Unique(RowsOf(ballots, id))
  {
    RowsAreBallots(ballots, id);
    if Unique(ballots) {
      RowsAreUnique(ballots, id);
    }
  }

  lemma LaterRows(ballots: seq<Ballot>, k: nat, id: Uuid) returns (later: seq<Ballot>)
    requires k <= |ballots|
    ensures RowsOf(ballots, id) == RowsOf(ballots[..k], id) + later
  {
    assert ballots == ballots[..k] + ballots[k..];
    RowsOfAppend(ballots[..k], ballots[k..], id);
    later := RowsOf(ballots[k..], id);
  }

  lemma PastAddsUp(h: Hash, tables: Tables, id: Uuid, tally: StoredTally, k: nat)
    requires IsTallyAt(h, tables, id, tally, k) && tables.polls[id].ballotType == Fptp
    ensures var recount := TallyOf(h, tables.polls[id], RowsOf(tables.ballots, id));
            && Sum(tally.counts, tally.counts.Keys) == tally.totalVotes <= recount.totalVotes
            && forall key | key in tally.counts :: key in recount.counts && tally.counts[key] <= recount.counts[key]
  {
    var rows := RowsOf(tables.ballots[..k], id);
    var later := LaterRows(tables.ballots, k, id);
    CountsGrow(h, tables.polls[id], rows, later);
    SingleChoiceAddsUp(h, tables.polls[id], rows);
  }

  /** Any tally GetTally returns is the exact tally of the ballots at some earlier state of the run. In a
      single-choice poll it adds up to that many ballots and no count exceeds a fresh recount. */
  lemma ServedTallyIsPast(h: Hash, states: seq<State>, steps: seq<Step>, n: nat, j: nat)
    requires IsRun(h, states, steps) && n < |states|
    requires j in states[n].jobs && states[n].jobs[j].Served?
    ensures var s, id, tally := states[n], states[n].jobs[j].pollId, states[n].jobs[j].tally;
            && id in s.tables.polls
            && (exists i: nat | i <= n ::
                  tally == TallyOf(h, s.tables.polls[id], RowsOf(states[i].tables.ballots, id)))
            && (s.tables.polls[id].ballotType == Fptp ==>
                  var recount := TallyOf(h, s.tables.polls[id], RowsOf(s.tables.ballots, id));
                  && Sum(tally.counts, tally.counts.Keys) == tally.totalVotes <= recount.totalVotes
                  && forall key | key in tally.counts ::
                       key in recount.counts && tally.counts[key] <= recount.counts[key])
  {
    var s, id, tally := states[n], states[n].jobs[j].pollId, states[n].jobs[j].tally;
    var k := ServedAt(h, states, steps, n, j);
    var i := PrefixWasTable(h, states, steps, n, k);
    assert tally == TallyOf(h, s.tables.polls[id], RowsOf(states[i].tables.ballots, id));
    if s.tables.polls[id].ballotType == Fptp {
      PastAddsUp(h, s.tables, id, tally, k);
    }
  }

  lemma AsManyRows(ballots: seq<Ballot>, k: nat, id: Uuid)
    requires k <= |ballots| && |RowsOf(ballots[..k], id)| == |RowsOf(ballots, id)|
    ensures RowsOf(ballots[..k], id) == RowsOf(ballots, id)
  {
    var later := LaterRows(ballots, k, id);
    assert later == [];
  }

  lemma PastIsCurrent(h: Hash, tables: Tables, id: Uuid, tally: StoredTally, k: nat)
    requires IsTallyAt(h, tables, id, tally, k)
    ensures tally == TallyOf(h, tables.polls[id], RowsOf(tables.ballots, id))
            <==> tally.totalVotes == |RowsOf(tables.ballots, id)|
  {
    if tally.totalVotes == |RowsOf(tables.ballots, id)| {
      AsManyRows(tables.ballots, k, id);
    }
  }

  /** A stored tally is never refreshed by GetTally, so what is served may be out of date. It is current
      exactly when its total is the number of ballots the poll has now. */
  lemma ServedTallyIsCurrent(h: Hash, states: seq<State>, steps: seq<Step>, n: nat, j: nat)
    requires IsRun(h, states, steps) && n < |states|
    requires j in states[n].jobs && states[n].jobs[j].Served?
    ensures var s, id, tally := states[n], states[n].jobs[j].pollId, states[n].jobs[j].tally;
            && id in s.tables.polls
            && (tally == TallyOf(h, s.tables.polls[id], RowsOf(s.tables.ballots, id))
                <==> tally.totalVotes == |RowsOf(s.tables.ballots, id)|)
  {
    var k := ServedAt(h, states, steps, n, j);
    PastIsCurrent(h, states[n].tables, states[n].jobs[j].pollId, states[n].jobs[j].tally, k);
  }

  /** The same of the stored tally, before anybody asks for it. */
  lemma StoredTallyIsCurrent(h: Hash, states: seq<State>, steps: seq<Step>, n: nat, id: Uuid)
    requires IsRun(h, states, steps) && n < |states| && id in states[n].tables.tallies
    ensures var tables := states[n].tables;
            && id in tables.polls
            && (tables.tallies[id] == TallyOf(h, tables.polls[id], RowsOf(tables.ballots, id))
                <==> tables.tallies[id].totalVotes == |RowsOf(tables.ballots, id)|)
  {
    RunIsSafe(h, states, steps, n);
    var tables := states[n].tables;
    var k: nat :| IsTallyAt(h, tables, id, tables.tallies[id], k);
    PastIsCurrent(h, tables, id, tables.tallies[id], k);
  }

  /** A tally of no ballots has been stored while a call was about to insert. */
  lemma TallyBeforeInsert(h: Hash, id: Uuid) returns (states: seq<State>, steps: seq<Step>)
    ensures IsRun(h, states, steps)
    ensures var s := states[|steps|];
            && AboutToInsert(h, s, id) && s.jobs.Keys == {0}
            && id in s.tables.tallies && s.tables.tallies[id].totalVotes == 0
  {
    states, steps := Approach(h, id);
    states := Continue(h, states, steps, AskTally(0, id));
    steps := steps + [AskTally(0, id)];
    states := Continue(h, states, steps, LookUp(0));
    steps := steps + [LookUp(0)];
    states := Continue(h, states, steps, Load(0, []));
    steps := steps + [Load(0, [])];
    states := Continue(h, states, steps, Store(0));
    steps := steps + [Store(0)];
  }

  lemma OneRow(rows: seq<Ballot>, id: Uuid)
    requires |rows| == 1 && rows[0].pollId == id
    ensures |RowsOf(rows, id)| == 1
  {
    assert RowsOf(rows[..0], id) == [];
  }

  /** There is a run in which somebody who asks for the tally after a ballot was stored is served one that
      does not count it. */
  lemma StaleTallyIsServed(h: Hash, id: Uuid, receiptToken: Uuid) returns (states: seq<State>, steps: seq<Step>)
    ensures IsRun(h, states, steps) && |steps| > 1 && steps[|steps| - 2] == AskTally(1, id)
    ensures var s := states[|steps|];
            && 1 in s.jobs && s.jobs[1].Served? && s.jobs[1].pollId == id && id in s.tables.polls
            && states[|steps| - 2].tables == s.tables
            && s.jobs[1].tally != TallyOf(h, s.tables.polls[id], RowsOf(s.tables.ballots, id))
  {
    states, steps := TallyBeforeInsert(h, id);
    states := Continue(h, states, steps, Insert(0, receiptToken));
    steps := steps + [Insert(0, receiptToken)];
    OneRow(states[|steps|].tables.ballots, id);
    states := Continue(h, states, steps, AskTally(1, id));
    steps := steps + [AskTally(1, id)];
    states := Continue(h, states, steps, LookUp(1));
    steps := steps + [LookUp(1)];
  }

  // ---------- a call that nobody interrupts ----------

  /** The steps of one call, one after the other. */
  ghost function RunAlone(h: Hash, s: State, c: nat, cast: CastRequest, receiptToken: Uuid): State
    requires c !in s.calls
  {
    var arrived := Apply(h, s, Arrive(c, cast));
    var read := Apply(h, arrived, Read(c));
    if read.calls[c].phase.PollRead? then
      var checked := Apply(h, read, Check(c));
      if checked.calls[c].phase.NotSeenBefore? then Apply(h, checked, Insert(c, receiptToken)) else checked
    else read
  }

  /** Uninterrupted, the protocol does exactly what the method CastBallot does, and the reply confirms it. */
  lemma AloneIsCastBallot(h: Hash, s: State, c: nat, cast: CastRequest, receiptToken: Uuid)
    requires c !in s.calls
    ensures var t := RunAlone(h, s, c, cast, receiptToken);
            && c in t.calls && (t.tables, t.calls[c].phase) == CastOutcome(h, s.tables, cast, receiptToken)
            && (t.calls[c].phase.Recorded? ==>
                  Apply(h, t, Respond(c)).calls[c].phase == Answered(Confirmed(t.calls[c].phase.ballot)))
  {}
}
