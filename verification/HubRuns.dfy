/** The hub under concurrency. Subscriptions, cancellations, publishers and readers interleave;
    a publisher holds the read lock over its whole loop and each of its sends is a step of its own.
    Lists are Go slices: a header over a backing array that append and the deletion in remove
    overwrite in place. */
module HubRuns {
  import opened Hub

  // ---------- slices over shared arrays ----------

  datatype Slice = Slice(backing: nat, len: nat)

  /** The map of the hub and the memory its slices point into. */
  datatype Lists = Lists(subs: map<string, Slice>, arrays: map<nat, seq<nat>>)

  /** Every list has room in its own array, is not empty, and shares its array with no other list. */
  ghost predicate AreSlices(m: Lists) {
    && (forall q | q in m.subs ::
          m.subs[q].backing in m.arrays && 0 < m.subs[q].len <= |m.arrays[m.subs[q].backing]|)
    && (forall q, r | q in m.subs && r in m.subs && q != r :: m.subs[q].backing != m.subs[r].backing)
  }

  function ListOf(m: Lists, q: string): seq<nat> {
    if q in m.subs && m.subs[q].backing in m.arrays && m.subs[q].len <= |m.arrays[m.subs[q].backing]|
    then m.arrays[m.subs[q].backing][..m.subs[q].len]
    else []
  }

  /** append(list, c): in place while there is room, else in a new array with some room to spare. */
  function Append(m: Lists, q: string, c: nat, newArray: nat, spare: nat): Lists {
    if q in m.subs && m.subs[q].backing in m.arrays && m.subs[q].len < |m.arrays[m.subs[q].backing]| then
      var Slice(b, len) := m.subs[q];
      var cells := m.arrays[b];
      Lists(m.subs[q := Slice(b, len + 1)], m.arrays[b := cells[..len] + [c] + cells[len + 1..]])
    else
      var list := ListOf(m, q);
      Lists(m.subs[q := Slice(newArray, |list| + 1)], m.arrays[newArray := list + [c] + seq(spare, _ => 0)])
  }

  function IndexOf(list: seq<nat>, c: nat): (i: nat)
    ensures i <= |list|
    ensures i < |list| ==> list[i] == c
    ensures forall j | 0 <= j < i :: list[j] != c
  {
    if list == [] || list[0] == c then 0 else 1 + IndexOf(list[1..], c)
  }

  /** append(list[:i], list[i+1:]...): the tail moves down one place; the last slot keeps its old value. */
  function Shifted(cells: seq<nat>, len: nat, i: nat): seq<nat>
    requires i < len <= |cells|
  {
    cells[..i] + cells[i + 1..len] + cells[len - 1..]
  }

  /** remove, under the write lock. */
  function Deleted(m: Lists, q: string, c: nat): Lists {
    var list := ListOf(m, q);
    var i := IndexOf(list, c);
    if i == |list| then m
    else
      var Slice(b, len) := m.subs[q];
      Lists(if len == 1 then m.subs - {q} else m.subs[q := Slice(b, len - 1)],
            m.arrays[b := Shifted(m.arrays[b], len, i)])
  }

  /** Writing one list, into its own array or a new one, leaves the other lists alone. */
  lemma OneListWritten(m: Lists, q: string, b: nat, cells: seq<nat>, len: nat)
    requires AreSlices(m) && 0 < len <= |cells|
    requires b !in m.arrays || (q in m.subs && m.subs[q].backing == b)
    ensures var n := Lists(m.subs[q := Slice(b, len)], m.arrays[b := cells]);
            && AreSlices(n) && ListOf(n, q) == cells[..len]
            && forall r | r != q :: ListOf(n, r) == ListOf(m, r)
  {}

  lemma OneListGone(m: Lists, q: string, cells: seq<nat>)
    requires AreSlices(m) && q in m.subs
    ensures var n := Lists(m.subs - {q}, m.arrays[m.subs[q].backing := cells]);
            && AreSlices(n) && ListOf(n, q) == []
            && forall r | r != q :: ListOf(n, r) == ListOf(m, r)
  {}

  lemma AppendAdds(m: Lists, q: string, c: nat, newArray: nat, spare: nat)
    requires AreSlices(m) && newArray !in m.arrays
    ensures var n := Append(m, q, c, newArray, spare);
            && AreSlices(n)
            && ListOf(n, q) == ListOf(m, q) + [c]
            && forall r | r != q :: ListOf(n, r) == ListOf(m, r)
  {
    var list := ListOf(m, q);
    if q in m.subs && m.subs[q].len < |m.arrays[m.subs[q].backing]| {
      var Slice(b, len) := m.subs[q];
      var cells := m.arrays[b];
      OneListWritten(m, q, b, cells[..len] + [c] + cells[len + 1..], len + 1);
      assert (cells[..len] + [c] + cells[len + 1..])[..len + 1] == list + [c];
    } else {
      var cells := list + [c] + seq(spare, _ => 0);
      OneListWritten(m, q, newArray, cells, |list| + 1);
      assert cells[..|list| + 1] == list + [c];
    }
  }

  lemma ShiftDrops(cells: seq<nat>, len: nat, i: nat)
    requires i < len <= |cells|
    ensures |Shifted(cells, len, i)| == |cells|
    ensures Shifted(cells, len, i)[..len - 1] == cells[..len][..i] + cells[..len][i + 1..]
  {}

  /** Only c leaves, only from the list of q, the others keep their order, and no empty list stays. */
  lemma DeletedDrops(m: Lists, q: string, c: nat)
    requires AreSlices(m) && Distinct(ListOf(m, q))
    ensures var n := Deleted(m, q, c);
            && AreSlices(n)
            && ListOf(n, q) == WithoutFirst(ListOf(m, q), c)
            && c !in ListOf(n, q) && Distinct(ListOf(n, q))
            && forall r | r != q :: ListOf(n, r) == ListOf(m, r)
  {
    var list := ListOf(m, q);
    var i := IndexOf(list, c);
    if i < |list| {
      var Slice(b, len) := m.subs[q];
      var cells := Shifted(m.arrays[b], len, i);
      ShiftDrops(m.arrays[b], len, i);
      WithoutFirstAt(list, i);
      if len == 1 {
        OneListGone(m, q, cells);
        assert list[..i] + list[i + 1..] == [];
      } else {
        OneListWritten(m, q, b, cells, len - 1);
      }
    }
  }

  // ---------- states and steps ----------

  /** The life of a subscription: its context ends, it leaves the list, its channel is closed. */
  datatype Life = Listening | Cancelled | Removed | Finished

  datatype Offer = Offer(sender: nat, event: Event)

  /** A channel: its buffer, what its reader has taken out, and every send that was tried on it. */
  datatype Chan = Chan(pollId: string, life: Life, buf: seq<Event>, received: seq<Event>, offers: seq<Offer>)

  /** A publisher inside its loop, with the slice header it ranges over. */
  datatype Publisher = Publisher(event: Event, list: Slice, next: nat)

  datatype State = State(lists: Lists, chans: map<nat, Chan>, publishers: map<nat, Publisher>, started: set<nat>,
                         panicked: bool)

  datatype Step =
    | Subscribe(chan: nat, pollId: string, newArray: nat, spare: nat)
    | Cancel(chan: nat)
    | Remove(chan: nat)
    | Close(chan: nat)
    | Receive(chan: nat)
    | BeginPublish(publisher: nat, event: Event)
    | Send(publisher: nat)
    | EndPublish(publisher: nat)

  const INITIAL := State(Lists(map[], map[]), map[], map[], {}, false)

  /** The write lock is free only when no publisher holds the read lock. */
  ghost predicate Enabled(s: State, step: Step) {
    match step
    case Subscribe(c, _, newArray, _) => c !in s.chans && newArray !in s.lists.arrays && s.publishers == map[]
    case Cancel(c) => c in s.chans && s.chans[c].life == Listening
    case Remove(c) => c in s.chans && s.chans[c].life == Cancelled && s.publishers == map[]
    case Close(c) => c in s.chans && s.chans[c].life == Removed
    case Receive(c) => c in s.chans && s.chans[c].buf != []
    case BeginPublish(p, _) => p !in s.started
    case Send(p) => p in s.publishers && s.publishers[p].next < s.publishers[p].list.len
    case EndPublish(p) => p in s.publishers && s.publishers[p].next == s.publishers[p].list.len
  }

  /** The header a publisher reads from the map; the zero slice when the poll has no list. */
  function HeaderOf(m: Lists, q: string): Slice {
    if q in m.subs then m.subs[q] else Slice(0, 0)
  }

  /** A send on a channel that is closed, or not there, panics. */
  function AfterSend(s: State, p: nat): State
    requires p in s.publishers
  {
    var Publisher(event, list, next) := s.publishers[p];
    if list.backing !in s.lists.arrays || next >= |s.lists.arrays[list.backing]| then s.(panicked := true)
    else
      var c := s.lists.arrays[list.backing][next];
      if c !in s.chans || s.chans[c].life == Finished then s.(panicked := true)
      else
        var ch := s.chans[c];
        s.(chans := s.chans[c := ch.(buf := Offered(ch.buf, event), offers := ch.offers + [Offer(p, event)])],
           publishers := s.publishers[p := Publisher(event, list, next + 1)])
  }

  function WithLife(s: State, c: nat, life: Life): State
    requires c in s.chans
  {
    s.(chans := s.chans[c := s.chans[c].(life := life)])
  }

  ghost function Apply(s: State, step: Step): State
    requires Enabled(s, step)
  {
    match step
    case Subscribe(c, q, newArray, spare) =>
      s.(lists := Append(s.lists, q, c, newArray, spare), chans := s.chans[c := Chan(q, Listening, [], [], [])])
    case Cancel(c) => WithLife(s, c, Cancelled)
    case Remove(c) => WithLife(s, c, Removed).(lists := Deleted(s.lists, s.chans[c].pollId, c))
    case Close(c) => WithLife(s, c, Finished)
    case Receive(c) =>
      var ch := s.chans[c];
      s.(chans := s.chans[c := ch.(received := ch.received + [ch.buf[0]], buf := ch.buf[1..])])
    case BeginPublish(p, event) =>
      s.(publishers := s.publishers[p := Publisher(event, HeaderOf(s.lists, event.pollId), 0)],
         started := s.started + {p})
    case Send(p) => AfterSend(s, p)
    case EndPublish(p) => s.(publishers := s.publishers - {p})
  }

  ghost predicate StepAt(states: seq<State>, steps: seq<Step>, i: nat)
    requires i < |steps| && |states| == |steps| + 1
  {
    Enabled(states[i], steps[i]) && states[i + 1] == Apply(states[i], steps[i])
  }

  ghost predicate IsRun(states: seq<State>, steps: seq<Step>) {
    && |states| == |steps| + 1 && states[0] == INITIAL
    && forall i | 0 <= i < |steps| :: StepAt(states, steps, i)
  }

  lemma RunGrows(states: seq<State>, steps: seq<Step>, step: Step)
    requires IsRun(states, steps) && Enabled(states[|steps|], step)
    ensures IsRun(states + [Apply(states[|steps|], step)], steps + [step])
  {
    var longer, more := states + [Apply(states[|steps|], step)], steps + [step];
    forall i | 0 <= i < |more| ensures StepAt(longer, more, i) {
      assert i < |steps| ==> StepAt(states, steps, i);
    }
  }

  // ---------- the invariant ----------

  predicate InList(life: Life) {
    life == Listening || life == Cancelled
  }

  /** The channel has subscribed to the poll and has not been removed. */
  predicate IsOn(chans: map<nat, Chan>, c: nat, q: string) {
    c in chans && chans[c].pollId == q && InList(chans[c].life)
  }

  /** The lists hold exactly the channels that have subscribed and not been removed, each once. */
  ghost predicate ListsAreSound(s: State) {
    && AreSlices(s.lists)
    && (forall q :: Distinct(ListOf(s.lists, q)))
    && (forall q, c :: c in ListOf(s.lists, q) <==> IsOn(s.chans, c, q))
  }

  /** a can be got from b by leaving elements out. */
  predicate IsSubsequence<T(==)>(a: seq<T>, b: seq<T>) {
    if a == [] then true
    else if b == [] then false
    else
      var x, y := |a| - 1, |b| - 1;
      IsSubsequence(a, b[..y]) || (a[x] == b[y] && IsSubsequence(a[..x], b[..y]))
  }

  function EventsOf(offers: seq<Offer>): (events: seq<Event>)
    ensures |events| == |offers|
  {
    if offers == [] then []
    else
      var last := |offers| - 1;
      EventsOf(offers[..last]) + [offers[last].event]
  }

  /** How often a publisher has offered something. */
  function Times(offers: seq<Offer>, p: nat): nat {
    if offers == [] then 0
    else
      var last := |offers| - 1;
      Times(offers[..last], p) + (if offers[last].sender == p then 1 else 0)
  }

  /** What a reader has got or can still get is what it was offered, with some left out, for its own poll. */
  ghost predicate ChanIsSound(ch: Chan) {
    && |ch.buf| <= CHANNEL_CAPACITY
    && IsSubsequence(ch.received + ch.buf, EventsOf(ch.offers))
    && (forall i | 0 <= i < |ch.offers| :: ch.offers[i].event.pollId == ch.pollId)
  }

  /** A publisher ranges over the list that is in the map, and has not passed its end. */
  ghost predicate PublishersAreSound(s: State) {
    forall p | p in s.publishers ::
      && p in s.started
      && s.publishers[p].list == HeaderOf(s.lists, s.publishers[p].event.pollId)
      && s.publishers[p].next <= s.publishers[p].list.len
  }

  /** The channels a publisher has dealt with so far. */
  ghost function DealtWith(s: State, p: nat): seq<nat>
    requires p in s.publishers
  {
    var list, next := ListOf(s.lists, s.publishers[p].event.pollId), s.publishers[p].next;
    if next <= |list| then list[..next] else list
  }

  /** No publisher offers to a channel twice; one that is under way has offered to those it has dealt with. */
  ghost predicate OffersAreSound(s: State) {
    && (forall c, p: nat | c in s.chans && p !in s.started :: Times(s.chans[c].offers, p) == 0)
    && (forall c, p: nat | c in s.chans && p in s.started :: Times(s.chans[c].offers, p) <= 1)
    && (forall c, p | c in s.chans && p in s.publishers ::
          Times(s.chans[c].offers, p) == if c in DealtWith(s, p) then 1 else 0)
  }

  ghost predicate IsSafe(s: State) {
    && ListsAreSound(s) && PublishersAreSound(s) && OffersAreSound(s)
    && (forall c | c in s.chans :: ChanIsSound(s.chans[c]))
    && !s.panicked
  }

  // ---------- what the steps keep ----------

  /** Steps that move no channel in or out of a list. */
  lemma ListsStay(s: State, t: State)
    requires ListsAreSound(s) && t.lists == s.lists && t.chans.Keys == s.chans.Keys
    requires forall c | c in s.chans ::
               t.chans[c].pollId == s.chans[c].pollId && InList(t.chans[c].life) == InList(s.chans[c].life)
    ensures ListsAreSound(t)
  {}

  lemma SubscribeKeepsLists(s: State, c: nat, q: string, newArray: nat, spare: nat)
    requires ListsAreSound(s) && Enabled(s, Subscribe(c, q, newArray, spare))
    ensures ListsAreSound(Apply(s, Subscribe(c, q, newArray, spare)))
  {
    AppendAdds(s.lists, q, c, newArray, spare);
    assert c !in ListOf(s.lists, q);
  }

  /** One channel has left the list of its poll. */
  lemma OneHasLeft(s: State, t: State, q: string, c: nat)
    requires ListsAreSound(s) && c in s.chans && s.chans[c].pollId == q && AreSlices(t.lists)
    requires t.chans == s.chans[c := s.chans[c].(life := Removed)]
    requires forall r | r != q :: ListOf(t.lists, r) == ListOf(s.lists, r)
    requires Distinct(ListOf(t.lists, q))
    requires forall d :: d in ListOf(t.lists, q) <==> d in ListOf(s.lists, q) && d != c
    ensures ListsAreSound(t)
  {}

  lemma WithoutFirstHas(list: seq<nat>, c: nat)
    requires Distinct(list)
    ensures forall d :: d in WithoutFirst(list, c) <==> d in list && d != c
  {}

  lemma RemoveKeepsLists(s: State, c: nat)
    requires ListsAreSound(s) && Enabled(s, Remove(c))
    ensures ListsAreSound(Apply(s, Remove(c)))
  {
    var q := s.chans[c].pollId;
    DeletedDrops(s.lists, q, c);
    WithoutFirstHas(ListOf(s.lists, q), c);
    OneHasLeft(s, Apply(s, Remove(c)), q, c);
  }

  lemma OthersLeaveLists(s: State, step: Step)
    requires Enabled(s, step) && !step.Subscribe? && !step.Remove?
    ensures var t := Apply(s, step);
            && t.lists == s.lists && t.chans.Keys == s.chans.Keys
            && forall c | c in s.chans ::
                 t.chans[c].pollId == s.chans[c].pollId && InList(t.chans[c].life) == InList(s.chans[c].life)
  {}

  lemma StepKeepsLists(s: State, step: Step)
    requires ListsAreSound(s) && Enabled(s, step)
    ensures ListsAreSound(Apply(s, step))
  {
    if step.Subscribe? {
      SubscribeKeepsLists(s, step.chan, step.pollId, step.newArray, step.spare);
    } else if step.Remove? {
      RemoveKeepsLists(s, step.chan);
    } else {
      OthersLeaveLists(s, step);
      ListsStay(s, Apply(s, step));
    }
  }

  /** The send of a publisher finds an open channel of its own poll. */
  lemma SendIsSafe(s: State, p: nat)
    requires ListsAreSound(s) && PublishersAreSound(s) && Enabled(s, Send(p))
    ensures var Publisher(event, list, next) := s.publishers[p];
            && event.pollId in s.lists.subs && list == s.lists.subs[event.pollId]
            && next < |ListOf(s.lists, event.pollId)|
            && var c := ListOf(s.lists, event.pollId)[next];
               && c == s.lists.arrays[list.backing][next]
               && c in s.chans && s.chans[c].pollId == event.pollId && s.chans[c].life != Finished
  {
    var Publisher(event, _, next) := s.publishers[p];
    var list := ListOf(s.lists, event.pollId);
    assert list[next] in list;
  }

  lemma StepDoesNotPanic(s: State, step: Step)
    requires ListsAreSound(s) && PublishersAreSound(s) && Enabled(s, step) && !s.panicked
    ensures !Apply(s, step).panicked
  {
    if step.Send? {
      SendIsSafe(s, step.publisher);
    }
  }

  lemma StepKeepsPublishers(s: State, step: Step)
    requires ListsAreSound(s) && PublishersAreSound(s) && Enabled(s, step)
    ensures PublishersAreSound(Apply(s, step))
  {
    if step.Send? {
      SendIsSafe(s, step.publisher);
    }
  }

  lemma SubsequenceGrows<T>(a: seq<T>, b: seq<T>, x: T)
    requires IsSubsequence(a, b)
    ensures IsSubsequence(a, b + [x])
    ensures IsSubsequence(a + [x], b + [x])
  {}

  lemma EventsOfOneMore(offers: seq<Offer>, offer: Offer)
    ensures EventsOf(offers + [offer]) == EventsOf(offers) + [offer.event]
  {
    assert (offers + [offer])[..|offers|] == offers;
  }

  lemma OfferedIsSubsequence(received: seq<Event>, buf: seq<Event>, events: seq<Event>, event: Event)
    requires IsSubsequence(received + buf, events)
    ensures IsSubsequence(received + Offered(buf, event), events + [event])
  {
    SubsequenceGrows(received + buf, events, event);
    assert received + (buf + [event]) == received + buf + [event];
  }

  lemma SendKeepsChan(ch: Chan, p: nat, event: Event)
    requires ChanIsSound(ch) && event.pollId == ch.pollId
    ensures ChanIsSound(ch.(buf := Offered(ch.buf, event), offers := ch.offers + [Offer(p, event)]))
  {
    EventsOfOneMore(ch.offers, Offer(p, event));
    OfferedIsSubsequence(ch.received, ch.buf, EventsOf(ch.offers), event);
  }

  lemma ReceiveKeepsChan(ch: Chan)
    requires ChanIsSound(ch) && ch.buf != []
    ensures ChanIsSound(ch.(received := ch.received + [ch.buf[0]], buf := ch.buf[1..]))
  {
    assert ch.received + [ch.buf[0]] + ch.buf[1..] == ch.received + ch.buf;
  }

  lemma NewChanIsSound(q: string)
    ensures ChanIsSound(Chan(q, Listening, [], [], []))
  {}

  /** Steps that move no events leave what matters of a channel as it was. */
  lemma OthersKeepChan(s: State, step: Step, c: nat)
    requires Enabled(s, step) && !step.Send? && !step.Receive? && c in Apply(s, step).chans
    ensures var ch := Apply(s, step).chans[c];
            if c in s.chans then ch == s.chans[c].(life := ch.life) else ch == Chan(ch.pollId, Listening, [], [], [])
  {}

  lemma SendKeepsChans(s: State, p: nat)
    requires ListsAreSound(s) && PublishersAreSound(s) && Enabled(s, Send(p))
    requires forall c | c in s.chans :: ChanIsSound(s.chans[c])
    ensures var t := Apply(s, Send(p)); forall c | c in t.chans :: ChanIsSound(t.chans[c])
  {
    SendIsSafe(s, p);
    var c := ListOf(s.lists, s.publishers[p].event.pollId)[s.publishers[p].next];
    SendKeepsChan(s.chans[c], p, s.publishers[p].event);
  }

  lemma StepKeepsChans(s: State, step: Step)
    requires ListsAreSound(s) && PublishersAreSound(s) && Enabled(s, step)
    requires forall c | c in s.chans :: ChanIsSound(s.chans[c])
    ensures var t := Apply(s, step); forall c | c in t.chans :: ChanIsSound(t.chans[c])
  {
    if step.Send? {
      SendKeepsChans(s, step.publisher);
    } else if step.Receive? {
      ReceiveKeepsChan(s.chans[step.chan]);
    } else {
      forall c | c in Apply(s, step).chans ensures ChanIsSound(Apply(s, step).chans[c]) {
        OthersKeepChan(s, step, c);
        NewChanIsSound(Apply(s, step).chans[c].pollId);
      }
    }
  }

  lemma TimesOneMore(offers: seq<Offer>, offer: Offer, p: nat)
    ensures Times(offers + [offer], p) == Times(offers, p) + (if offer.sender == p then 1 else 0)
  {}

  /** What a send changes. */
  lemma Sent(s: State, p: nat, event: Event, list: seq<nat>, next: nat) returns (t: State)
    requires ListsAreSound(s) && PublishersAreSound(s) && Enabled(s, Send(p))
    requires s.publishers[p].event == event && s.publishers[p].next == next && list == ListOf(s.lists, event.pollId)
    ensures t == Apply(s, Send(p)) && t.lists == s.lists && t.started == s.started && next < |list|
    ensures t.publishers == s.publishers[p := s.publishers[p].(next := next + 1)] && t.chans.Keys == s.chans.Keys
    ensures forall c | c in s.chans ::
              t.chans[c].offers == if c == list[next] then s.chans[c].offers + [Offer(p, event)] else s.chans[c].offers
  {
    SendIsSafe(s, p);
    t := Apply(s, Send(p));
  }

  lemma DealtAdvances(s: State, t: State, p: nat, list: seq<nat>, next: nat)
    requires t.lists == s.lists && p in s.publishers && s.publishers[p].next == next
    requires list == ListOf(s.lists, s.publishers[p].event.pollId) && Distinct(list) && next < |list|
    requires t.publishers == s.publishers[p := s.publishers[p].(next := next + 1)]
    ensures DealtWith(t, p) == DealtWith(s, p) + [list[next]] && list[next] !in DealtWith(s, p)
    ensures forall q | q in s.publishers && q != p :: DealtWith(t, q) == DealtWith(s, q)
  {}

  lemma OneMoreTime(s: State, t: State, p: nat, event: Event, target: nat)
    requires t.chans.Keys == s.chans.Keys
    requires forall c | c in s.chans ::
               t.chans[c].offers == if c == target then s.chans[c].offers + [Offer(p, event)] else s.chans[c].offers
    ensures forall c, q: nat | c in s.chans ::
              Times(t.chans[c].offers, q) == Times(s.chans[c].offers, q) + (if q == p && c == target then 1 else 0)
  {
    forall c, q: nat | c in s.chans
      ensures Times(t.chans[c].offers, q) == Times(s.chans[c].offers, q) + (if q == p && c == target then 1 else 0)
    {
      TimesOneMore(s.chans[c].offers, Offer(p, event), q);
    }
  }

  lemma OneMoreOffer(s: State, t: State, p: nat, event: Event, target: nat)
    requires OffersAreSound(s) && t.started == s.started && p in s.started
    requires p in s.publishers && t.publishers.Keys == s.publishers.Keys && t.chans.Keys == s.chans.Keys
    requires DealtWith(t, p) == DealtWith(s, p) + [target] && target !in DealtWith(s, p)
    requires forall q | q in s.publishers && q != p :: DealtWith(t, q) == DealtWith(s, q)
    requires forall c | c in s.chans ::
               t.chans[c].offers == if c == target then s.chans[c].offers + [Offer(p, event)] else s.chans[c].offers
    ensures OffersAreSound(t)
  {
    OneMoreTime(s, t, p, event, target);
    forall c | c in s.chans ensures Times(t.chans[c].offers, p) == if c in DealtWith(t, p) then 1 else 0 {
      assert c in DealtWith(s, p) + [target] <==> c in DealtWith(s, p) || c == target;
    }
  }

  /** A send deals with one more channel of the list, which it had not dealt with before. */
  lemma SendKeepsOffers(s: State, p: nat)
    requires ListsAreSound(s) && PublishersAreSound(s) && OffersAreSound(s) && Enabled(s, Send(p))
    ensures OffersAreSound(Apply(s, Send(p)))
  {
    var Publisher(event, _, next) := s.publishers[p];
    var list := ListOf(s.lists, event.pollId);
    var t := Sent(s, p, event, list, next);
    DealtAdvances(s, t, p, list, next);
    OneMoreOffer(s, t, p, event, list[next]);
  }

  lemma BeginKeepsOffers(s: State, p: nat, event: Event)
    requires OffersAreSound(s) && PublishersAreSound(s) && Enabled(s, BeginPublish(p, event))
    ensures OffersAreSound(Apply(s, BeginPublish(p, event)))
  {}

  /** Steps that are no sends and start no publisher. */
  lemma OffersStay(s: State, t: State)
    requires OffersAreSound(s) && t.started == s.started
    requires forall c | c in t.chans :: t.chans[c].offers == if c in s.chans then s.chans[c].offers else []
    requires t.publishers == map[]
             || (t.publishers.Keys <= s.publishers.Keys && t.chans.Keys == s.chans.Keys
                 && forall p | p in t.publishers :: DealtWith(t, p) == DealtWith(s, p))
    ensures OffersAreSound(t)
  {}

  lemma OthersOfferNothing(s: State, step: Step)
    requires Enabled(s, step) && !step.Send? && !step.BeginPublish?
    ensures var t := Apply(s, step);
            && t.started == s.started
            && (forall c | c in t.chans :: t.chans[c].offers == if c in s.chans then s.chans[c].offers else [])
            && (t.publishers == map[]
                || (t.publishers.Keys <= s.publishers.Keys && t.chans.Keys == s.chans.Keys
                    && forall p | p in t.publishers :: DealtWith(t, p) == DealtWith(s, p)))
  {}

  lemma StepKeepsOffers(s: State, step: Step)
    requires ListsAreSound(s) && PublishersAreSound(s) && OffersAreSound(s) && Enabled(s, step)
    ensures OffersAreSound(Apply(s, step))
  {
    if step.Send? {
      SendKeepsOffers(s, step.publisher);
    } else if step.BeginPublish? {
      BeginKeepsOffers(s, step.publisher, step.event);
    } else {
      OthersOfferNothing(s, step);
      OffersStay(s, Apply(s, step));
    }
  }

  // ---------- every state of every run ----------

  lemma StepKeepsSafe(s: State, step: Step)
    requires Enabled(s, step) && IsSafe(s)
    ensures IsSafe(Apply(s, step))
  {
    StepKeepsLists(s, step);
    StepKeepsPublishers(s, step);
    StepKeepsChans(s, step);
    StepKeepsOffers(s, step);
    StepDoesNotPanic(s, step);
  }

  lemma {:induction false} RunIsSafe(states: seq<State>, steps: seq<Step>, n: nat)
    requires IsRun(states, steps) && n < |states|
    ensures IsSafe(states[n])
  {
    if n == 0 {
    } else {
      RunIsSafe(states, steps, n - 1);
      assert StepAt(states, steps, n - 1);
      StepKeepsSafe(states[n - 1], steps[n - 1]);
    }
  }

  /** In every state of every interleaving: nothing has panicked, so no send ever met a closed channel;
      a closed channel is in no list; no list in the map is empty; buffers hold at most four events; and
      what a subscriber has got or can still get is a subsequence of what was offered to it, all of it
      for its own poll. */
  lemma HubIsSafe(states: seq<State>, steps: seq<Step>, n: nat)
    requires IsRun(states, steps) && n < |states|
    ensures var s := states[n];
            && !s.panicked
            && (forall q, c | c in ListOf(s.lists, q) :: c in s.chans && s.chans[c].life != Finished)
            && (forall q | q in s.lists.subs :: ListOf(s.lists, q) != [])
            && (forall c | c in s.chans ::
                  && |s.chans[c].buf| <= CHANNEL_CAPACITY
                  && IsSubsequence(s.chans[c].received + s.chans[c].buf, EventsOf(s.chans[c].offers))
                  && forall i | 0 <= i < |s.chans[c].offers| :: s.chans[c].offers[i].event.pollId == s.chans[c].pollId)
  {
    RunIsSafe(states, steps, n);
  }

  /** When a publisher is done, it has offered its event exactly once to every channel then in the list of
      its poll, and never to any other. */
  lemma PublishReachesEveryone(states: seq<State>, steps: seq<Step>, n: nat, p: nat, c: nat)
    requires IsRun(states, steps) && n < |steps| && steps[n] == EndPublish(p) && c in states[n].chans
    ensures p in states[n].publishers
    ensures Times(states[n].chans[c].offers, p)
            == if c in ListOf(states[n].lists, states[n].publishers[p].event.pollId) then 1 else 0
  {
    RunIsSafe(states, steps, n);
    assert StepAt(states, steps, n);
    var list := ListOf(states[n].lists, states[n].publishers[p].event.pollId);
    assert list[..|list|] == list;
    assert DealtWith(states[n], p) == list;
  }

  // ---------- what is delivered ----------

  /** The step sends to the channel. */
  predicate SendsTo(s: State, step: Step, c: nat) {
    && step.Send? && step.publisher in s.publishers
    && var Publisher(event, _, next) := s.publishers[step.publisher];
       next < |ListOf(s.lists, event.pollId)| && ListOf(s.lists, event.pollId)[next] == c
  }

  /** What the reader of a channel has got or can still get. */
  function Delivered(ch: Chan): seq<Event> {
    ch.received + ch.buf
  }

  /** A send puts its event behind all others if the buffer has room, and is lost if it is full. */
  lemma SendDelivers(s: State, step: Step, c: nat)
    requires IsSafe(s) && Enabled(s, step) && SendsTo(s, step, c)
    ensures var t := Apply(s, step);
            var event := s.publishers[step.publisher].event;
            && c in s.chans && c in t.chans
            && t.chans[c].offers == s.chans[c].offers + [Offer(step.publisher, event)]
            && t.chans[c].received == s.chans[c].received
            && t.chans[c].buf == (if |s.chans[c].buf| < 4 then s.chans[c].buf + [event] else s.chans[c].buf)
  {
    SendIsSafe(s, step.publisher);
  }

  /** No other step offers the channel anything, or takes anything from its reader. */
  lemma OthersDeliverNothing(s: State, step: Step, c: nat)
    requires IsSafe(s) && Enabled(s, step) && !SendsTo(s, step, c) && c in Apply(s, step).chans
    ensures var ch := Apply(s, step).chans[c];
            if c in s.chans then ch.offers == s.chans[c].offers && Delivered(ch) == Delivered(s.chans[c])
            else ch.offers == [] && Delivered(ch) == []
  {
    if step.Send? {
      SendIsSafe(s, step.publisher);
    } else if step.Receive? {
      var ch := s.chans[step.chan];
      assert ch.received + [ch.buf[0]] + ch.buf[1..] == ch.received + ch.buf;
    } else {
      OthersKeepChan(s, step, c);
    }
  }

  /** A send of the publisher to the channel met a full buffer before state n. */
  ghost predicate WasFull(states: seq<State>, steps: seq<Step>, n: nat, c: nat, p: nat)
    requires |states| == |steps| + 1 && n < |states|
  {
    exists m: nat | m < n ::
      steps[m] == Send(p) && SendsTo(states[m], steps[m], c) && c in states[m].chans && |states[m].chans[c].buf| >= 4
  }

  /** The events are those of the offers at the places, in the order of the offers. */
  ghost predicate AreFrom(events: seq<Event>, offers: seq<Offer>, places: seq<nat>) {
    && |places| == |events| && (forall i, j | 0 <= i < j < |places| :: places[i] < places[j])
    && forall i | 0 <= i < |places| :: places[i] < |offers| && events[i] == offers[places[i]].event
  }

  /** The events delivered are those of the offers at the places; every other offer was made to a full buffer. */
  ghost predicate DeliveredAt(delivered: seq<Event>, offers: seq<Offer>, places: seq<nat>, full: set<nat>) {
    && AreFrom(delivered, offers, places)
    && forall k: nat {:trigger k in places} | k < |offers| :: k in places || offers[k].sender in full
  }

  lemma OfferTaken(delivered: seq<Event>, offers: seq<Offer>, places: seq<nat>, full: set<nat>, o: Offer)
    requires DeliveredAt(delivered, offers, places, full)
    ensures DeliveredAt(delivered + [o.event], offers + [o], places + [|offers|], full)
  {}

  lemma OfferLost(delivered: seq<Event>, offers: seq<Offer>, places: seq<nat>, full: set<nat>, o: Offer)
    requires DeliveredAt(delivered, offers, places, full)
    ensures DeliveredAt(delivered, offers + [o], places, full + {o.sender})
  {}

  /** The publishers whose send to the channel met a full buffer before state n. */
  ghost function MetFull(states: seq<State>, steps: seq<Step>, n: nat, c: nat): set<nat>
    requires |states| == |steps| + 1 && n < |states|
  {
    if n == 0 then {}
    else
      var s, step := states[n - 1], steps[n - 1];
      var before := MetFull(states, steps, n - 1, c);
      if SendsTo(s, step, c) && c in s.chans && |s.chans[c].buf| >= 4 then before + {step.publisher} else before
  }

  lemma {:induction false} MetFullWasFull(states: seq<State>, steps: seq<Step>, n: nat, c: nat)
    requires |states| == |steps| + 1 && n < |states|
    ensures forall p | p in MetFull(states, steps, n, c) :: WasFull(states, steps, n, c, p)
  {
    if n == 0 {
    } else {
      MetFullWasFull(states, steps, n - 1, c);
    }
  }

  lemma ChanTakes(ch: Chan, after: Chan, o: Offer, places: seq<nat>, full: set<nat>) returns (more: seq<nat>)
    requires DeliveredAt(Delivered(ch), ch.offers, places, full)
    requires after.offers == ch.offers + [o] && after.received == ch.received
    requires after.buf == (if |ch.buf| < 4 then ch.buf + [o.event] else ch.buf)
    ensures DeliveredAt(Delivered(after), after.offers, more, if |ch.buf| >= 4 then full + {o.sender} else full)
  {
    if |ch.buf| >= 4 {
      OfferLost(Delivered(ch), ch.offers, places, full, o);
      more := places;
    } else {
      OfferTaken(Delivered(ch), ch.offers, places, full, o);
      assert ch.received + (ch.buf + [o.event]) == Delivered(ch) + [o.event];
      more := places + [|ch.offers|];
    }
  }

  lemma SendKeepsDelivered(s: State, step: Step, c: nat, places: seq<nat>, full: set<nat>) returns (more: seq<nat>)
    requires IsSafe(s) && Enabled(s, step) && SendsTo(s, step, c) && c in s.chans
    requires DeliveredAt(Delivered(s.chans[c]), s.chans[c].offers, places, full)
    ensures c in Apply(s, step).chans
    ensures var ch := Apply(s, step).chans[c];
            DeliveredAt(Delivered(ch), ch.offers, more,
                        if |s.chans[c].buf| >= 4 then full + {step.publisher} else full)
  {
    SendDelivers(s, step, c);
    more := ChanTakes(s.chans[c], Apply(s, step).chans[c],
                      Offer(step.publisher, s.publishers[step.publisher].event), places, full);
  }

  lemma {:induction false} DeliveredPlaces(states: seq<State>, steps: seq<Step>, n: nat, c: nat)
    returns (places: seq<nat>)
    requires IsRun(states, steps) && n < |states| && c in states[n].chans
    ensures DeliveredAt(Delivered(states[n].chans[c]), states[n].chans[c].offers, places, MetFull(states, steps, n, c))
  {
    if n == 0 {
      places := [];
    } else {
      var s, step := states[n - 1], steps[n - 1];
      RunIsSafe(states, steps, n - 1);
      assert StepAt(states, steps, n - 1);
      if SendsTo(s, step, c) {
        SendDelivers(s, step, c);
        places := DeliveredPlaces(states, steps, n - 1, c);
        places := SendKeepsDelivered(s, step, c, places, MetFull(states, steps, n - 1, c));
      } else {
        OthersDeliverNothing(s, step, c);
        places := [];
        if c in s.chans {
          places := DeliveredPlaces(states, steps, n - 1, c);
        }
      }
    }
  }

  /** In every run, the reader of a channel gets the events offered to it in the order of the offers, and misses
      only those that were offered while its buffer was full. */
  lemma OnlyFullBuffersMiss(states: seq<State>, steps: seq<Step>, n: nat, c: nat) returns (places: seq<nat>)
    requires IsRun(states, steps) && n < |states| && c in states[n].chans
    ensures var ch := states[n].chans[c];
            AreFrom(ch.received + ch.buf, ch.offers, places)
            && forall k: nat | k < |ch.offers| && !WasFull(states, steps, n, c, ch.offers[k].sender) :: k in places
  {
    places := DeliveredPlaces(states, steps, n, c);
    MetFullWasFull(states, steps, n, c);
  }

  /** A step offers only what its publishers carry. */
  lemma StepOffers(s: State, step: Step)
    requires Enabled(s, step)
    ensures var t := Apply(s, step);
            forall ch, o | ch in t.chans && o in t.chans[ch].offers ::
              || (ch in s.chans && o in s.chans[ch].offers)
              || (o.sender in s.publishers && o.event == s.publishers[o.sender].event)
  {}

  lemma StepPublishers(s: State, step: Step)
    requires Enabled(s, step)
    ensures var t := Apply(s, step);
            forall p | p in t.publishers ::
              || (p in s.publishers && t.publishers[p].event == s.publishers[p].event)
              || (step.BeginPublish? && step.publisher == p && t.publishers[p].event == step.event)
  {}

  /** What a publisher under way has offered is its event. */
  ghost predicate OffersCarryEvents(s: State) {
    forall c, o | c in s.chans && o in s.chans[c].offers && o.sender in s.publishers ::
      o.event == s.publishers[o.sender].event
  }

  lemma {:induction false} TimesHasOffer(offers: seq<Offer>, p: nat)
    ensures Times(offers, p) > 0 <==> exists k :: 0 <= k < |offers| && offers[k].sender == p
  {
    if offers == [] {
    } else {
      var last := |offers| - 1;
      TimesHasOffer(offers[..last], p);
      assert Times(offers[..last], p) > 0 ==> exists k :: 0 <= k < last && offers[..last][k].sender == p;
    }
  }

  lemma NewcomerHasNoOffers(s: State, p: nat)
    requires OffersAreSound(s) && p !in s.started
    ensures forall c, o | c in s.chans && o in s.chans[c].offers :: o.sender != p
  {
    forall c, o | c in s.chans && o in s.chans[c].offers ensures o.sender != p {
      TimesHasOffer(s.chans[c].offers, p);
      assert Times(s.chans[c].offers, p) == 0;
    }
  }

  lemma StepKeepsEvents(s: State, step: Step)
    requires IsSafe(s) && Enabled(s, step) && OffersCarryEvents(s)
    ensures OffersCarryEvents(Apply(s, step))
  {
    StepOffers(s, step);
    StepPublishers(s, step);
    if step.BeginPublish? {
      NewcomerHasNoOffers(s, step.publisher);
    }
  }

  lemma {:induction false} RunCarriesEvents(states: seq<State>, steps: seq<Step>, n: nat)
    requires IsRun(states, steps) && n < |states|
    ensures OffersCarryEvents(states[n])
  {
    if n == 0 {
    } else {
      RunCarriesEvents(states, steps, n - 1);
      RunIsSafe(states, steps, n - 1);
      assert StepAt(states, steps, n - 1);
      StepKeepsEvents(states[n - 1], steps[n - 1]);
    }
  }

  /** When a publisher is done, every channel in the list of its poll has its event, in the buffer or already
      read, unless its buffer was full at the send. */
  lemma PublishDelivers(states: seq<State>, steps: seq<Step>, n: nat, p: nat, c: nat)
    requires IsRun(states, steps) && n < |steps| && steps[n] == EndPublish(p)
    ensures p in states[n].publishers
    ensures c in ListOf(states[n].lists, states[n].publishers[p].event.pollId) ==>
              && c in states[n].chans
              && (|| states[n].publishers[p].event in states[n].chans[c].received + states[n].chans[c].buf
                  || WasFull(states, steps, n, c, p))
  {
    RunIsSafe(states, steps, n);
    assert StepAt(states, steps, n);
    if c in ListOf(states[n].lists, states[n].publishers[p].event.pollId) {
      var ch := states[n].chans[c];
      PublishReachesEveryone(states, steps, n, p, c);
      TimesHasOffer(ch.offers, p);
      var k: nat :| k < |ch.offers| && ch.offers[k].sender == p;
      RunCarriesEvents(states, steps, n);
      var places := OnlyFullBuffersMiss(states, steps, n, c);
      if k in places {
        var i :| 0 <= i < |places| && places[i] == k;
        assert (ch.received + ch.buf)[i] == states[n].publishers[p].event;
      }
    }
  }

  /** remove takes out its own channel and nothing else: its list keeps the others in order, the lists of
      other polls do not change, although the array is overwritten in place. */
  lemma RemoveTakesOutOne(states: seq<State>, steps: seq<Step>, n: nat, c: nat)
    requires IsRun(states, steps) && n < |steps| && steps[n] == Remove(c)
    ensures c in states[n].chans
    ensures var q, before, after := states[n].chans[c].pollId, states[n].lists, states[n + 1].lists;
            && ListOf(after, q) == WithoutFirst(ListOf(before, q), c)
            && c in ListOf(before, q) && c !in ListOf(after, q)
            && forall r | r != q :: ListOf(after, r) == ListOf(before, r)
  {
    RunIsSafe(states, steps, n);
    assert StepAt(states, steps, n);
    DeletedDrops(states[n].lists, states[n].chans[c].pollId, c);
  }

  /** A subscription only moves on: in particular its channel is closed at most once, and stays closed. */
  function LifeRank(life: Life): nat {
    match life
    case Listening => 0
    case Cancelled => 1
    case Removed => 2
    case Finished => 3
  }

  lemma StepMovesOn(s: State, step: Step, c: nat)
    requires Enabled(s, step) && c in s.chans
    ensures var t := Apply(s, step);
            c in t.chans && LifeRank(s.chans[c].life) <= LifeRank(t.chans[c].life)
            && (step == Close(c) ==> s.chans[c].life != Finished && t.chans[c].life == Finished)
  {}

  /** No channel is closed twice. */
  lemma {:induction false} ClosedOnce(states: seq<State>, steps: seq<Step>, m: nat, n: nat, c: nat)
    requires IsRun(states, steps) && m < n <= |steps| && steps[m] == Close(c)
    ensures c in states[n].chans && states[n].chans[c].life == Finished
    ensures n < |steps| ==> steps[n] != Close(c)
    decreases n
  {
    assert StepAt(states, steps, n - 1);
    if n < |steps| {
      assert StepAt(states, steps, n);
    }
    if m < n - 1 {
      ClosedOnce(states, steps, m, n - 1, c);
    }
    StepMovesOn(states[n - 1], steps[n - 1], c);
  }
}
