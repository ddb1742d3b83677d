/** What the ticks of the scheduler do to the polls, and how they appear in the protocol. */
module Scheduling {
  import opened Hashing
  import opened Polls
  import opened Casting
  import opened Services

  /** The time when the last tick ended. */
  function EndOf(ticks: seq<TickRun>, start: int): int {
    if ticks == [] then start else ticks[|ticks| - 1].closeAt
  }

  /** The ticks run one after the other, none before the start. */
  predicate InTurn(ticks: seq<TickRun>, start: int) {
    if ticks == [] then true
    else
      var last := |ticks| - 1;
      && InTurn(ticks[..last], start)
      && EndOf(ticks[..last], start) <= ticks[last].openAt <= ticks[last].closeAt
  }

  /** One tick takes a poll no further than its closing statement allows, never back, and at least as far as
      the time of its opening statement asks if both statements are carried out. */
  lemma TickOnPoll(polls: map<Uuid, Poll>, tick: TickRun, start: int, id: Uuid)
    requires id in polls && NotAhead(polls[id], start) && start <= tick.openAt <= tick.closeAt
    ensures id in AfterTick(polls, tick)
    ensures var poll := AfterTick(polls, tick)[id];
            && SamePoll(polls[id], poll) && NotAhead(poll, tick.closeAt)
            && (forall time | NotBehind(polls[id], time) :: NotBehind(poll, time))
            && (tick.opens && tick.closes ==> NotBehind(poll, tick.openAt))
  {
    var half := if tick.opens then Opened(polls[id], tick.openAt) else polls[id];
    PollOpens(polls[id], tick.openAt, tick.openAt);
    PollCloses(half, tick.closeAt, tick.openAt);
    forall time | NotBehind(polls[id], time) ensures NotBehind(AfterTick(polls, tick)[id], time) {
      PollOpens(polls[id], tick.openAt, time);
      PollCloses(half, tick.closeAt, time);
    }
  }

  /** After any ticks, failed statements included, a poll is not ahead of the time the last one ended, and
      not behind the time any successful one began. */
  lemma {:induction false} TicksOnPoll(polls: map<Uuid, Poll>, ticks: seq<TickRun>, start: int, id: Uuid)
    requires id in polls && NotAhead(polls[id], start) && InTurn(ticks, start)
    ensures start <= EndOf(ticks, start) && id in AfterTicks(polls, ticks)
    ensures var poll := AfterTicks(polls, ticks)[id];
            && SamePoll(polls[id], poll) && NotAhead(poll, EndOf(ticks, start))
            && forall i | 0 <= i < |ticks| && ticks[i].opens && ticks[i].closes :: NotBehind(poll, ticks[i].openAt)
  {
    if ticks == [] {
    } else {
      var last := |ticks| - 1;
      TicksOnPoll(polls, ticks[..last], start, id);
      TickOnPoll(AfterTicks(polls, ticks[..last]), ticks[last], EndOf(ticks[..last], start), id);
      forall i | 0 <= i < last && ticks[i].opens && ticks[i].closes
        ensures NotBehind(AfterTicks(polls, ticks[..last])[id], ticks[i].openAt)
      {
        assert ticks[..last][i] == ticks[i];
      }
    }
  }

  /** So after a successful tick every poll has a status between that of the clock when the tick began and
      that of the clock when it ended. */
  lemma TickCatchesUp(polls: map<Uuid, Poll>, ticks: seq<TickRun>, start: int, id: Uuid)
    requires id in polls && NotAhead(polls[id], start) && InTurn(ticks, start)
    requires ticks != [] && ticks[|ticks| - 1].opens && ticks[|ticks| - 1].closes
    ensures id in AfterTicks(polls, ticks)
    ensures var poll, last := AfterTicks(polls, ticks)[id], ticks[|ticks| - 1];
            StatusRank(ClockStatus(poll, last.openAt)) <= StatusRank(poll.status)
            <= StatusRank(ClockStatus(poll, last.closeAt))
  {
    TicksOnPoll(polls, ticks, start, id);
  }

  /** The steps of one tick when no call comes between. */
  ghost function TickAlone(h: Hash, s: State, tick: TickRun): State
    requires s.ticker.Resting? && s.now <= tick.openAt <= tick.closeAt
  {
    var opening := Apply(h, s, Advance(tick.openAt));
    var half := Apply(h, opening, TickOpens(tick.opens));
    var closing := Apply(h, half, Advance(tick.closeAt));
    Apply(h, closing, TickCloses(tick.closes))
  }

  /** Uninterrupted, the two steps of the protocol do to the polls what a tick of the scheduler does. */
  lemma TickAloneIsTick(h: Hash, s: State, tick: TickRun)
    requires s.ticker.Resting? && s.now <= tick.openAt <= tick.closeAt
    ensures TickAlone(h, s, tick).tables == s.tables.(polls := AfterTick(s.tables.polls, tick))
  {}
}
