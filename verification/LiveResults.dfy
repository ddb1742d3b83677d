/** Live totals, from the ballot to the subscriber: the voting protocol and the hub running together, with
    the goroutine that counts the ballots of a poll after one was stored and publishes the total. */
module LiveResults {
  import opened Hashing
  import opened Sets
  import opened Sequences
  import opened Hub
  import opened Polls
  import opened Tallies
  import C = Casting
  import S = CastingSafety
  import H = HubRuns

  /** What a goroutine has counted: the event it will publish, and whether all groups of rows came. */
  datatype Count = Count(event: Event, whole: bool)

  /** counted has the count of every goroutine that has read the rows. The goroutine of a call publishes
      under the number of the call. */
  datatype Live = Live(votes: C.State, hub: H.State, counted: map<nat, Count>)

  datatype LiveStep =
    | Vote(step: C.Step)
    | CountVotes(call: nat, read: set<int>)
    | Announce(call: nat)
    | OfHub(hubStep: H.Step)

  function Initial(now: int): Live {
    Live(C.Initial(now), H.INITIAL, map[])
  }

  function GroupsOf(s: Live, id: Uuid): map<int, nat> {
    Groups(FlatMap(ChoiceOf, RowsOf(s.votes.tables.ballots, id)))
  }

  /** The call knows that its ballot was stored. Only then it starts the goroutine. */
  predicate HasStored(s: Live, c: nat) {
    c in s.votes.calls && s.votes.calls[c].phase.Answered? && s.votes.calls[c].phase.answer.Confirmed?
  }

  function StoredBy(s: Live, c: nat): Ballot
    requires HasStored(s, c)
  {
    s.votes.calls[c].phase.answer.ballot
  }

  /** The goroutine ignores errors: of a query that fails it adds up the groups that came before. */
  ghost function CountOf(s: Live, id: Uuid, read: set<int>): Count
    requires read <= GroupsOf(s, id).Keys
  {
    Count(Event(id, Sum(GroupsOf(s, id), read)), read == GroupsOf(s, id).Keys)
  }

  ghost predicate Enabled(s: Live, step: LiveStep) {
    match step
    case Vote(voting) => C.Enabled(s.votes, voting)
    case CountVotes(c, read) => HasStored(s, c) && c !in s.counted && read <= GroupsOf(s, StoredBy(s, c).pollId).Keys
    case Announce(c) => c in s.counted && H.Enabled(s.hub, H.BeginPublish(c, s.counted[c].event))
    case OfHub(hubStep) => !hubStep.BeginPublish? && H.Enabled(s.hub, hubStep)
  }

  ghost function Apply(h: Hash, s: Live, step: LiveStep): Live
    requires Enabled(s, step)
  {
    match step
    case Vote(voting) => s.(votes := C.Apply(h, s.votes, voting))
    case CountVotes(c, read) => s.(counted := s.counted[c := CountOf(s, StoredBy(s, c).pollId, read)])
    case Announce(c) => s.(hub := H.Apply(s.hub, H.BeginPublish(c, s.counted[c].event)))
    case OfHub(hubStep) => s.(hub := H.Apply(s.hub, hubStep))
  }

  ghost predicate StepAt(h: Hash, states: seq<Live>, steps: seq<LiveStep>, i: nat)
    requires i < |steps| && |states| == |steps| + 1
  {
    Enabled(states[i], steps[i]) && states[i + 1] == Apply(h, states[i], steps[i])
  }

  ghost predicate IsRun(h: Hash, states: seq<Live>, steps: seq<LiveStep>) {
    && |states| == |steps| + 1
    && (exists now :: states[0] == Initial(now))
    && forall i | 0 <= i < |steps| :: StepAt(h, states, steps, i)
  }

  // ---------- the invariant ----------

  /** A count of the rows, b among them: never too high, and exact if it is whole. */
  ghost predicate CountsRows(rows: seq<Ballot>, b: Ballot, count: Count) {
    && b in rows && count.event.pollId == b.pollId
    && count.event.totalVotes <= |RowsOf(rows, b.pollId)|
    && (count.whole ==> count.event.totalVotes == |RowsOf(rows, b.pollId)|)
  }

  /** It counts the rows the table had at some time, the first k of those it has now. */
  ghost predicate CountsPast(ballots: seq<Ballot>, b: Ballot, count: Count) {
    exists k: nat | k <= |ballots| :: CountsRows(ballots[..k], b, count)
  }

  ghost predicate CountsAreSound(s: Live) {
    forall c | c in s.counted ::
      HasStored(s, c) && CountsPast(s.votes.tables.ballots, StoredBy(s, c), s.counted[c])
  }

  /** Whatever is offered to a channel is the event of the goroutine that offers it. */
  ghost predicate OffersAreCounted(hub: H.State, counted: map<nat, Count>) {
    && (forall p | p in hub.publishers :: p in counted && hub.publishers[p].event == counted[p].event)
    && (forall ch, o | ch in hub.chans && o in hub.chans[ch].offers ::
          o.sender in counted && o.event == counted[o.sender].event)
  }

  ghost predicate IsSafe(h: Hash, s: Live) {
    S.IsSafe(h, s.votes) && H.IsSafe(s.hub) && CountsAreSound(s) && OffersAreCounted(s.hub, s.counted)
  }

  // ---------- what the steps keep ----------

  lemma BallotStays(h: Hash, s: Live, step: C.Step, c: nat)
    requires Enabled(s, Vote(step)) && HasStored(s, c)
    ensures var t := Apply(h, s, Vote(step));
            HasStored(t, c) && StoredBy(t, c) == StoredBy(s, c)
  {}

  lemma PastStays(before: seq<Ballot>, after: seq<Ballot>, b: Ballot, count: Count)
    requires before <= after && CountsPast(before, b, count)
    ensures CountsPast(after, b, count)
  {
    var k: nat :| k <= |before| && CountsRows(before[..k], b, count);
    assert before[..k] == after[..k];
  }

  lemma VoteKeepsCounts(h: Hash, s: Live, step: C.Step)
    requires Enabled(s, Vote(step)) && CountsAreSound(s)
    ensures CountsAreSound(Apply(h, s, Vote(step)))
  {
    var t := Apply(h, s, Vote(step));
    C.StepKeepsBallots(h, s.votes, step);
    forall c | c in s.counted
      ensures HasStored(t, c) && CountsPast(t.votes.tables.ballots, StoredBy(t, c), s.counted[c])
    {
      BallotStays(h, s, step, c);
      PastStays(s.votes.tables.ballots, t.votes.tables.ballots, StoredBy(s, c), s.counted[c]);
    }
  }

  lemma StoredIsListed(h: Hash, s: Live, c: nat)
    requires S.IsSafe(h, s.votes) && HasStored(s, c)
    ensures StoredBy(s, c) in s.votes.tables.ballots
  {
    C.OwnedIsListed(h, s.votes, c);
  }

  lemma CountIsPast(s: Live, b: Ballot, read: set<int>)
    requires b in s.votes.tables.ballots && read <= GroupsOf(s, b.pollId).Keys
    ensures CountsPast(s.votes.tables.ballots, b, CountOf(s, b.pollId, read))
  {
    var ballots := s.votes.tables.ballots;
    GroupsAddUp(RowsOf(ballots, b.pollId), read);
    assert ballots[..|ballots|] == ballots;
    assert CountsRows(ballots[..|ballots|], b, CountOf(s, b.pollId, read));
  }

  lemma OneMoreCount(s: Live, c: nat, count: Count)
    requires CountsAreSound(s) && HasStored(s, c) && CountsPast(s.votes.tables.ballots, StoredBy(s, c), count)
    ensures CountsAreSound(s.(counted := s.counted[c := count]))
  {}

  lemma OffersStayCounted(hub: H.State, counted: map<nat, Count>, c: nat, count: Count)
    requires OffersAreCounted(hub, counted) && c !in counted
    ensures OffersAreCounted(hub, counted[c := count])
  {}

  lemma HubKeepsOffers(s: H.State, step: H.Step, counted: map<nat, Count>)
    requires H.Enabled(s, step) && OffersAreCounted(s, counted)
    requires step.BeginPublish? ==> step.publisher in counted && counted[step.publisher].event == step.event
    ensures OffersAreCounted(H.Apply(s, step), counted)
  {
    H.StepOffers(s, step);
    H.StepPublishers(s, step);
  }

  lemma VoteKeepsSafe(h: Hash, s: Live, step: C.Step)
    requires Enabled(s, Vote(step)) && IsSafe(h, s)
    ensures IsSafe(h, Apply(h, s, Vote(step)))
  {
    S.StepKeepsSafe(h, s.votes, step);
    VoteKeepsCounts(h, s, step);
  }

  lemma CountKeepsSafe(h: Hash, s: Live, c: nat, read: set<int>)
    requires Enabled(s, CountVotes(c, read)) && IsSafe(h, s)
    ensures IsSafe(h, Apply(h, s, CountVotes(c, read)))
  {
    StoredIsListed(h, s, c);
    var count := CountOf(s, StoredBy(s, c).pollId, read);
    CountIsPast(s, StoredBy(s, c), read);
    OneMoreCount(s, c, count);
    OffersStayCounted(s.hub, s.counted, c, count);
  }

  lemma AnnounceKeepsSafe(h: Hash, s: Live, c: nat)
    requires Enabled(s, Announce(c)) && IsSafe(h, s)
    ensures IsSafe(h, Apply(h, s, Announce(c)))
  {
    H.StepKeepsSafe(s.hub, H.BeginPublish(c, s.counted[c].event));
    HubKeepsOffers(s.hub, H.BeginPublish(c, s.counted[c].event), s.counted);
  }

  lemma HubKeepsSafe(h: Hash, s: Live, step: H.Step)
    requires Enabled(s, OfHub(step)) && IsSafe(h, s)
    ensures IsSafe(h, Apply(h, s, OfHub(step)))
  {
    H.StepKeepsSafe(s.hub, step);
    HubKeepsOffers(s.hub, step, s.counted);
  }

  lemma StepKeepsSafe(h: Hash, s: Live, step: LiveStep)
    requires Enabled(s, step) && IsSafe(h, s)
    ensures IsSafe(h, Apply(h, s, step))
  {
    match step
    case Vote(voting) => VoteKeepsSafe(h, s, voting);
    case CountVotes(c, read) => CountKeepsSafe(h, s, c, read);
    case Announce(c) => AnnounceKeepsSafe(h, s, c);
    case OfHub(hubStep) => HubKeepsSafe(h, s, hubStep);
  }

  lemma {:induction false} RunIsSafe(h: Hash, states: seq<Live>, steps: seq<LiveStep>, n: nat)
    requires IsRun(h, states, steps) && n < |states|
    ensures IsSafe(h, states[n])
  {
    if n == 0 {
    } else {
      RunIsSafe(h, states, steps, n - 1);
      assert StepAt(h, states, steps, n - 1);
      StepKeepsSafe(h, states[n - 1], steps[n - 1]);
    }
  }

  // ---------- what subscribers see ----------

  lemma TableGrows(h: Hash, states: seq<Live>, steps: seq<LiveStep>, i: nat)
    requires IsRun(h, states, steps) && i < |steps|
    ensures states[i].votes.tables.ballots <= states[i + 1].votes.tables.ballots
    ensures |states[i + 1].votes.tables.ballots| <= |states[i].votes.tables.ballots| + 1
  {
    assert StepAt(h, states, steps, i);
    if steps[i].Vote? {
      C.StepKeepsBallots(h, states[i].votes, steps[i].step);
    }
  }

  lemma {:induction false} PrefixWasTable(h: Hash, states: seq<Live>, steps: seq<LiveStep>, n: nat, k: nat)
    returns (i: nat)
    requires IsRun(h, states, steps) && n < |states| && k <= |states[n].votes.tables.ballots|
    ensures i <= n && states[i].votes.tables.ballots == states[n].votes.tables.ballots[..k]
  {
    if k == |states[n].votes.tables.ballots| {
      i := n;
    } else {
      TableGrows(h, states, steps, n - 1);
      i := PrefixWasTable(h, states, steps, n - 1, k);
    }
  }

  lemma {:induction false} SubsequenceMember<T>(a: seq<T>, b: seq<T>, x: T)
    requires H.IsSubsequence(a, b) && x in a
    ensures x in b
    decreases |a| + |b|
  {
    var last, other := |a| - 1, |b| - 1;
    if H.IsSubsequence(a, b[..other]) {
      SubsequenceMember(a, b[..other], x);
    } else if x in a[..last] {
      SubsequenceMember(a[..last], b[..other], x);
    } else {
      assert x == a[last] == b[other];
    }
  }

  lemma {:induction false} EventHasOffer(offers: seq<H.Offer>, event: Event) returns (o: H.Offer)
    requires event in H.EventsOf(offers)
    ensures o in offers && o.event == event
  {
    var last := |offers| - 1;
    if event in H.EventsOf(offers[..last]) {
      o := EventHasOffer(offers[..last], event);
    } else {
      o := offers[last];
    }
  }

  /** What a subscriber gets: every event in its channel is of the poll of the channel and was published after
      some call had stored a ballot b there. It counts the ballots the poll had at an earlier state of the run,
      with b among them, and misses none of them unless the query failed. */
  lemma LiveTotalIsPast(h: Hash, states: seq<Live>, steps: seq<LiveStep>, n: nat, ch: nat, event: Event)
    requires IsRun(h, states, steps) && n < |states| && ch in states[n].hub.chans
    requires event in states[n].hub.chans[ch].received + states[n].hub.chans[ch].buf
    ensures event.pollId == states[n].hub.chans[ch].pollId
    ensures exists c | c in states[n].counted ::
              && event == states[n].counted[c].event && HasStored(states[n], c)
              && exists i: nat | i <= n ::
                   CountsRows(states[i].votes.tables.ballots, StoredBy(states[n], c), states[n].counted[c])
  {
    RunIsSafe(h, states, steps, n);
    var s := states[n];
    var chan := s.hub.chans[ch];
    SubsequenceMember(chan.received + chan.buf, H.EventsOf(chan.offers), event);
    var o := EventHasOffer(chan.offers, event);
    var b := StoredBy(s, o.sender);
    var k: nat :| k <= |s.votes.tables.ballots| && CountsRows(s.votes.tables.ballots[..k], b, s.counted[o.sender]);
    var i := PrefixWasTable(h, states, steps, n, k);
  }

  lemma PrefixWithLast(a: seq<Ballot>, b: seq<Ballot>)
    requires a <= b && b != [] && b[|b| - 1] in a && C.Unique(b)
    ensures a == b
  {
    var i :| 0 <= i < |a| && a[i] == b[|b| - 1];
    assert Conflicts(b[i], b[|b| - 1]);
  }

  /** A whole count made after the last row was stored counts all rows. */
  lemma CountOfLast(ballots: seq<Ballot>, b: Ballot, count: Count, k: nat)
    requires C.Unique(ballots) && k <= |ballots| && CountsRows(ballots[..k], b, count) && count.whole
    ensures var rows := RowsOf(ballots, b.pollId);
            rows != [] && rows[|rows| - 1] == b ==> count.event.totalVotes == |rows|
  {
    var past, rows := RowsOf(ballots[..k], b.pollId), RowsOf(ballots, b.pollId);
    var later := S.LaterRows(ballots, k, b.pollId);
    if rows != [] && rows[|rows| - 1] == b {
      S.RowsOfIsPart(ballots, b.pollId);
      RowIsListed(ballots[..k], b);
      PrefixWithLast(past, rows);
    }
  }

  lemma CountedAt(h: Hash, states: seq<Live>, steps: seq<LiveStep>, n: nat, c: nat) returns (k: nat)
    requires IsRun(h, states, steps) && n < |states| && c in states[n].counted
    ensures HasStored(states[n], c) && C.Unique(states[n].votes.tables.ballots)
    ensures k <= |states[n].votes.tables.ballots|
    ensures CountsRows(states[n].votes.tables.ballots[..k], StoredBy(states[n], c), states[n].counted[c])
  {
    RunIsSafe(h, states, steps, n);
    assert CountsPast(states[n].votes.tables.ballots, StoredBy(states[n], c), states[n].counted[c]);
    k :| k <= |states[n].votes.tables.ballots|
         && CountsRows(states[n].votes.tables.ballots[..k], StoredBy(states[n], c), states[n].counted[c]);
  }

  /** Whatever order the goroutines run in, the one started for the last ballot of a poll announces all of
      them, unless its query failed. */
  lemma LastTotalIsCurrent(h: Hash, states: seq<Live>, steps: seq<LiveStep>, n: nat, c: nat)
    requires IsRun(h, states, steps) && n < |states| && c in states[n].counted && states[n].counted[c].whole
    ensures HasStored(states[n], c)
    ensures var s := states[n];
            var rows := RowsOf(s.votes.tables.ballots, StoredBy(s, c).pollId);
            rows != [] && rows[|rows| - 1] == StoredBy(s, c) ==> s.counted[c].event.totalVotes == |rows|
  {
    var k := CountedAt(h, states, steps, n, c);
    CountOfLast(states[n].votes.tables.ballots, StoredBy(states[n], c), states[n].counted[c], k);
  }

  /** The hub for itself has made a run, too. */
  lemma {:induction false} HubPart(h: Hash, states: seq<Live>, steps: seq<LiveStep>, n: nat)
    returns (hubs: seq<H.State>, hubSteps: seq<H.Step>)
    requires IsRun(h, states, steps) && n < |states|
    ensures H.IsRun(hubs, hubSteps) && hubs[|hubSteps|] == states[n].hub
  {
    if n == 0 {
      hubs, hubSteps := [H.INITIAL], [];
    } else {
      hubs, hubSteps := HubPart(h, states, steps, n - 1);
      assert StepAt(h, states, steps, n - 1);
      var s, t, step := states[n - 1], states[n], steps[n - 1];
      if step.Announce? || step.OfHub? {
        var hubStep := if step.OfHub? then step.hubStep else H.BeginPublish(step.call, s.counted[step.call].event);
        H.RunGrows(hubs, hubSteps, hubStep);
        hubs, hubSteps := hubs + [t.hub], hubSteps + [hubStep];
      }
    }
  }

  /** When the goroutine of call c is done, its total has reached every subscriber in the list of the poll, unless
      the buffer of the subscriber was full when it was sent. */
  lemma TotalIsDelivered(h: Hash, states: seq<Live>, steps: seq<LiveStep>, n: nat, c: nat, ch: nat)
    returns (hubs: seq<H.State>, hubSteps: seq<H.Step>, m: nat)
    requires IsRun(h, states, steps) && n < |steps| && steps[n] == OfHub(H.EndPublish(c))
    ensures c in states[n].counted
    ensures H.IsRun(hubs, hubSteps) && m < |hubSteps| && hubs[m] == states[n].hub
    ensures var hub, event := states[n].hub, states[n].counted[c].event;
            ch in H.ListOf(hub.lists, event.pollId) ==>
              && ch in hub.chans
              && (event in hub.chans[ch].received + hub.chans[ch].buf || H.WasFull(hubs, hubSteps, m, ch, c))
  {
    RunIsSafe(h, states, steps, n);
    assert StepAt(h, states, steps, n);
    hubs, hubSteps := HubPart(h, states, steps, n);
    m := |hubSteps|;
    H.RunGrows(hubs, hubSteps, H.EndPublish(c));
    hubs, hubSteps := hubs + [H.Apply(hubs[m], H.EndPublish(c))], hubSteps + [H.EndPublish(c)];
    H.PublishDelivers(hubs, hubSteps, m, c, ch);
  }
}
