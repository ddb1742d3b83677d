/** The live-result hub, each call taken alone: per-poll lists of subscriber channels, bounded
    buffers, sends that never block. The module HubRuns lets the calls run together. */
module Hub {

  const CHANNEL_CAPACITY := 4

  datatype Event = Event(pollId: string, totalVotes: nat)

  /** A send that gives up when the buffer is full. */
  function Offered(buf: seq<Event>, event: Event): seq<Event> {
    if |buf| < CHANNEL_CAPACITY then buf + [event] else buf
  }

  /** The list without the first occurrence of an element. */
  function WithoutFirst<T(==)>(list: seq<T>, target: T): (rest: seq<T>)
    ensures target !in list ==> rest == list
    ensures target in list ==> |rest| == |list| - 1
  {
    if list == [] then []
    else if list[0] == target then list[1..]
    else [list[0]] + WithoutFirst(list[1..], target)
  }

  ghost predicate Distinct<T>(list: seq<T>) {
    forall i, j | 0 <= i < j < |list| :: list[i] != list[j]
  }

  lemma ItemLeaves<T>(list: seq<T>, i: nat)
    requires i < |list| && Distinct(list)
    ensures list[i] !in list[..i] + list[i + 1..] && Distinct(list[..i] + list[i + 1..])
  {}

  /** Everyone else stays, in order, and an element that occurs once is gone. */
  lemma {:induction false} WithoutFirstAt<T>(list: seq<T>, i: nat)
    requires i < |list| && Distinct(list)
    ensures WithoutFirst(list, list[i]) == list[..i] + list[i + 1..]
    ensures list[i] !in WithoutFirst(list, list[i]) && Distinct(WithoutFirst(list, list[i]))
  {
    ItemLeaves(list, i);
    if i == 0 {
    } else {
      assert list[0] != list[i] && list[1..][i - 1] == list[i];
      WithoutFirstAt(list[1..], i - 1);
      assert [list[0]] + (list[1..][..i - 1] + list[1..][i..]) == list[..i] + list[i + 1..];
    }
  }

  /** A buffered channel that one subscriber reads. */
  class Channel {
    const pollId: string
    var buf: seq<Event>
    var closed: bool

    constructor (pollId: string)
      ensures this.pollId == pollId && buf == [] && !closed
    {
      this.pollId := pollId;
      buf, closed := [], false;
    }
  }

  class TallyHub {
    var subs: map<string, seq<Channel>>

    constructor ()
      ensures Valid() && subs == map[]
    {
      subs := map[];
    }

    ghost function Members(): set<Channel>
      reads this
    {
      set pollId, i | pollId in subs && 0 <= i < |subs[pollId]| :: subs[pollId][i]
    }

    /** The list holds each channel once, only those of the poll, and only open ones. */
    static ghost predicate AreSubscribers(list: seq<Channel>, pollId: string)
      reads list
    {
      && Distinct(list)
      && forall ch | ch in list :: ch.pollId == pollId && !ch.closed && |ch.buf| <= CHANNEL_CAPACITY
    }

    /** Every poll in the map has subscribers. */
    ghost predicate Valid()
      reads this, Members()
    {
      forall pollId | pollId in subs :: subs[pollId] != [] && AreSubscribers(subs[pollId], pollId)
    }

    function ListOf(pollId: string): seq<Channel>
      reads this
    {
      if pollId in subs then subs[pollId] else []
    }

    method Subscribe(pollId: string) returns (ch: Channel)
      requires Valid()
      modifies this
      ensures Valid() && fresh(ch)
      ensures ch.pollId == pollId && ch.buf == [] && !ch.closed
      ensures subs == old(subs)[pollId := old(ListOf(pollId)) + [ch]]
    {
      ch := new Channel(pollId);
      subs := subs[pollId := ListOf(pollId) + [ch]];
    }

    /** Every subscriber of the poll whose buffer has room gets the event once, and those whose buffer is full
        miss it; nobody else hears of it. */
    method Publish(event: Event)
      requires Valid()
      modifies Members()
      ensures Valid() && subs == old(subs)
      ensures forall ch | ch in ListOf(event.pollId) ::
                ch.buf == if |old(ch.buf)| < 4 then old(ch.buf) + [event] else old(ch.buf)
      ensures forall ch | ch in Members() && ch !in ListOf(event.pollId) :: ch.buf == old(ch.buf)
      ensures forall ch | ch in Members() :: ch.closed == old(ch.closed)
    {
      var list := ListOf(event.pollId);
      forall i | 0 <= i < |list| ensures list[i] in Members() {}
      for i := 0 to |list|
        invariant subs == old(subs)
        invariant forall j | 0 <= j < i :: list[j].buf == Offered(old(list[j].buf), event)
        invariant forall ch | ch in Members() && ch !in list[..i] :: ch.buf == old(ch.buf)
        invariant forall ch | ch in Members() :: ch.closed == old(ch.closed)
      {
        if |list[i].buf| < CHANNEL_CAPACITY {
          list[i].buf := list[i].buf + [event];
        }
      }
      forall ch | ch in Members() ensures |ch.buf| <= CHANNEL_CAPACITY {}
    }

    /** Only the target leaves its list, and a list that becomes empty leaves the map. */
    method Remove(pollId: string, target: Channel)
      requires Valid()
      modifies this
      ensures Valid()
      ensures var rest := WithoutFirst(old(ListOf(pollId)), target);
              subs == if rest == [] then old(subs) - {pollId} else old(subs)[pollId := rest]
      ensures target !in ListOf(pollId)
    {
      var list := ListOf(pollId);
      assert list != [] ==> pollId in subs;
      for i := 0 to |list|
        invariant subs == old(subs)
        invariant target !in list[..i]
      {
        if list[i] == target {
          WithoutFirstAt(list, i);
          subs := subs[pollId := list[..i] + list[i + 1..]];
          break;
        }
        assert list[..i + 1] == list[..i] + [list[i]];
      }
      assert list[..|list|] == list;
      if |ListOf(pollId)| == 0 {
        subs := subs - {pollId};
      }
    }

    /** What the goroutine of a subscription does when its context ends: leave the list, then close. */
    method Unsubscribe(ch: Channel)
      requires Valid() && !ch.closed && (ch in Members() ==> ch in ListOf(ch.pollId))
      modifies this, ch`closed
      ensures Valid() && ch.closed && ch !in Members()
      ensures var rest := WithoutFirst(old(ListOf(ch.pollId)), ch);
              subs == if rest == [] then old(subs) - {ch.pollId} else old(subs)[ch.pollId := rest]
    {
      Remove(ch.pollId, ch);
      ch.closed := true;
    }
  }
}
