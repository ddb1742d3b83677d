/** Keyset pagination: cursors, pages, and walks over a table that changes between the fetches. */
module Pagination {
  import opened Wrappers
  import opened Base64
  import opened Decimals
  import opened StringOrder
  import opened Sequences

  const DEFAULT_PAGE_SIZE := 20
  const MAX_PAGE_SIZE := 100

  type PageSize = n: nat | 1 <= n <= MAX_PAGE_SIZE witness 1

  datatype Page = Page(after: ByteString, limit: PageSize)

  datatype QueryError = InvalidCursor | InvalidLimit

  /** The page size a limit parameter asks for; nothing if it is no positive number. */
  function LimitFrom(limitStr: string): Option<PageSize> {
    if limitStr == "" then Some(DEFAULT_PAGE_SIZE)
    else
      match Atoi(limitStr)
      case Some(n) => if n < 1 then None else Some(Min(n, MAX_PAGE_SIZE))
      case None => None
  }

  function PageOf(after: string, limit: Option<PageSize>): Result<Page, QueryError> {
    match if after == "" then Some([]) else Decode(after)
    case None => Failure(InvalidCursor)
    case Some(key) => if limit == None then Failure(InvalidLimit) else Success(Page(key, limit.value))
  }

  function PageFromQuery(after: string, limitStr: string): Result<Page, QueryError> {
    PageOf(after, LimitFrom(limitStr))
  }

  datatype Listing<+T> = Listing(items: seq<T>, nextCursor: string, hasMore: bool)

  /** Made from one row more than fits the page, if there are so many. */
  function NewResult<T>(rows: seq<T>, limit: nat, key: T -> ByteString): (r: Listing<T>)
    ensures r.hasMore <==> |rows| > limit
    ensures r.items == rows[..Min(limit, |rows|)]
    ensures r.nextCursor == if 0 < limit < |rows| then Encode(key(rows[limit - 1])) else ""
  {
    var hasMore := |rows| > limit;
    var items := if hasMore then rows[..limit] else rows;
    Listing(items, if hasMore && items != [] then Encode(key(items[|items| - 1])) else "", hasMore)
  }

  lemma CursorIsRead(after: ByteString, limit: Option<PageSize>)
    ensures PageOf(Encode(after), limit)
            == if limit == None then Failure(InvalidLimit) else Success(Page(after, limit.value))
  {
    DecodeEncode(after);
    assert Encode(after) == "" ==> Decode("") == Some(after);
    assert Decode("") == Some([]);
  }

  lemma LimitIsRead(n: nat)
    requires 0 < n <= MAX_INT
    ensures LimitFrom(Itoa(n)) == Some(Min(n, MAX_PAGE_SIZE))
  {
    AtoiItoa(n);
  }

  /** Which limits are read: without one it is 20; otherwise it must be a number from 1 on that fits 64 bits, and
      100 stands for any larger one. */
  lemma LimitIsNumber(text: string, limit: PageSize)
    ensures LimitFrom(text) == Some(limit) <==>
              if text == "" then limit == 20
              else exists n :: IsNumber(text, n) && 1 <= n <= MAX_INT && limit == if n <= 100 then n else 100
  {
    if text != "" {
      if LimitFrom(text) == Some(limit) {
        AtoiReads(text, Atoi(text).value);
      }
      if n :| IsNumber(text, n) && 1 <= n <= MAX_INT && limit == if n <= 100 then n else 100 {
        AtoiReads(text, n);
      }
    }
  }

  /** A cursor that is no base64 is refused first, whatever the limit. */
  lemma QueryErrors(after: string, limitStr: string)
    ensures PageFromQuery(after, limitStr) == Failure(InvalidCursor) <==> after != "" && Decode(after) == None
    ensures PageFromQuery(after, limitStr) == Failure(InvalidLimit)
            <==> (after == "" || Decode(after).Some?) && LimitFrom(limitStr) == None
  {}

  /** The cursor of a page, given back with the next request, stands for the key of the last row shown;
      a limit printed as a number is the one read, up to the maximum. */
  lemma CursorRoundTrip<T>(rows: seq<T>, limit: nat, key: T -> ByteString, next: nat)
    requires 0 < limit < |rows| && 0 < next <= MAX_INT
    ensures PageFromQuery(NewResult(rows, limit, key).nextCursor, Itoa(next))
            == Success(Page(key(rows[limit - 1]), Min(next, MAX_PAGE_SIZE)))
  {
    assert rows[..limit][limit - 1] == rows[limit - 1];
    CursorIsRead(key(rows[limit - 1]), Some(Min(next, MAX_PAGE_SIZE)));
    LimitIsRead(next);
  }

  // ---------- the row source ----------

  ghost predicate InOrder<T(!new)>(table: seq<T>, key: T -> ByteString) {
    forall i, j | 0 <= i < j < |table| :: LexLeq(key(table[i]), key(table[j]))
  }

  ghost predicate KeysUnique<T(!new)>(table: seq<T>, key: T -> ByteString) {
    forall i, j | 0 <= i < j < |table| :: LexLess(key(table[i]), key(table[j]))
  }

  ghost predicate KeysNotEmpty<T(!new)>(table: seq<T>, key: T -> ByteString) {
    forall i | 0 <= i < |table| :: key(table[i]) != ""
  }

  /** How many rows of a table in key order come up to and including the key. */
  function Skip<T>(table: seq<T>, key: T -> ByteString, after: string): (n: nat)
    ensures n <= |table|
  {
    if table == [] || LexLess(after, key(table[0])) then 0 else 1 + Skip(table[1..], key, after)
  }

  lemma {:induction false} SkipParts<T>(table: seq<T>, key: T -> ByteString, after: string)
    ensures var n := Skip(table, key, after);
            && (forall i | 0 <= i < n :: !LexLess(after, key(table[i])))
            && (n < |table| ==> LexLess(after, key(table[n])))
  {
    if table != [] && !LexLess(after, key(table[0])) {
      SkipParts(table[1..], key, after);
      assert forall i | 0 < i < |table| :: table[i] == table[1..][i - 1];
    }
  }

  /** The rows to start from: all of them for an empty key, else those strictly after it. */
  function From<T>(table: seq<T>, key: T -> ByteString, after: string): seq<T> {
    if after == "" then table else table[Skip(table, key, after)..]
  }

  /** The first rows of the table, in key order, from a starting point. */
  function List<T>(table: seq<T>, key: T -> ByteString, n: nat, after: string): seq<T> {
    var rows := From(table, key, after);
    rows[..Min(n, |rows|)]
  }

  /** One request, its limit parameter read by LimitFrom. */
  function Fetch<T>(table: seq<T>, key: T -> ByteString, cursor: string, limit: Option<PageSize>)
    : Result<Listing<T>, QueryError>
  {
    match PageOf(cursor, limit)
    case Failure(e) => Failure(e)
    case Success(page) => Success(NewResult(List(table, key, page.limit + 1, page.after), page.limit, key))
  }

  ghost function Start<T>(table: seq<T>, key: T -> ByteString, after: string): (start: nat)
    ensures start <= |table|
  {
    if after == "" then 0 else Skip(table, key, after)
  }

  /** The starting point parts the table: what is up to the key, and what is after it. */
  lemma StartParts<T(!new)>(table: seq<T>, key: T -> ByteString, after: string)
    requires InOrder(table, key) && KeysNotEmpty(table, key)
    ensures forall i | 0 <= i < |table| :: LexLess(after, key(table[i])) <==> Start(table, key, after) <= i
  {
    var start := Start(table, key, after);
    SkipParts(table, key, after);
    forall i | start <= i < |table| ensures LexLess(after, key(table[i])) {
      if after != "" && start < i {
        LexLessLeq(after, key(table[start]), key(table[i]));
      }
    }
  }

  /** The end of the page that starts here. */
  ghost function End<T>(table: seq<T>, key: T -> ByteString, after: string, limit: nat): (end: nat)
    ensures Start(table, key, after) <= end <= |table|
  {
    Min(Start(table, key, after) + limit, |table|)
  }

  /** The page that shows a stretch of the table. */
  ghost function Stretch<T>(table: seq<T>, start: nat, end: nat, key: T -> ByteString): Listing<T>
    requires start <= end <= |table| && (end < |table| ==> start < end)
  {
    Listing(table[start..end], if end < |table| then Encode(key(table[end - 1])) else "", end < |table|)
  }

  lemma PageIsStretch<T>(table: seq<T>, key: T -> ByteString, after: string, limit: PageSize)
    ensures NewResult(List(table, key, limit + 1, after), limit, key)
            == Stretch(table, Start(table, key, after), End(table, key, after, limit), key)
  {}

  /** A request answers with a stretch of the table. */
  lemma FetchIsStretch<T>(table: seq<T>, key: T -> ByteString, after: ByteString, limit: PageSize)
    ensures Fetch(table, key, Encode(after), Some(limit))
            == Success(Stretch(table, Start(table, key, after), End(table, key, after, limit), key))
  {
    CursorIsRead(after, Some(limit));
    PageIsStretch(table, key, after, limit);
  }

  // ---------- one cursor ----------

  ghost predicate AllAfter<T(!new)>(rows: seq<T>, key: T -> ByteString, after: string) {
    forall i | 0 <= i < |rows| :: LexLess(after, key(rows[i]))
  }

  lemma RestIsAfter<T(!new)>(table: seq<T>, key: T -> ByteString, after: ByteString)
    requires InOrder(table, key) && after != ""
    ensures forall i | Start(table, key, after) <= i < |table| :: LexLess(after, key(table[i]))
  {
    SkipParts(table, key, after);
    var start := Start(table, key, after);
    forall i | start <= i < |table| ensures LexLess(after, key(table[i])) {
      if start < i {
        LexLessLeq(after, key(table[start]), key(table[i]));
      }
    }
  }

  lemma PageIsAfter<T(!new)>(table: seq<T>, key: T -> ByteString, after: ByteString, limit: PageSize)
    requires InOrder(table, key) && after != ""
    ensures Fetch(table, key, Encode(after), Some(limit)).Success?
    ensures AllAfter(Fetch(table, key, Encode(after), Some(limit)).value.items, key, after)
  {
    FetchIsStretch(table, key, after, limit);
    RestIsAfter(table, key, after);
    var start, end := Start(table, key, after), End(table, key, after, limit);
    assert AllAfter(table[start..end], key, after);
  }

  /** The request for the page after a row with an empty key gets the first page again. */
  lemma EmptyKeyRestarts<T(!new)>(table: seq<T>, key: T -> ByteString, limit: PageSize, i: nat)
    requires InOrder(table, key) && i < |table| && key(table[i]) == ""
    ensures var again := Fetch(table, key, Encode(""), Some(limit));
            again.Success? && again.value.items != [] && key(again.value.items[0]) == ""
  {}

  lemma CursorOfLast<T(!new)>(table: seq<T>, key: T -> ByteString, page: Listing<T>, after: ByteString, limit: PageSize)
    requires Fetch(table, key, Encode(after), Some(limit)) == Success(page) && page.hasMore
    ensures page.items != [] && page.items[|page.items| - 1] in table
    ensures page.nextCursor == Encode(key(page.items[|page.items| - 1]))
  {}

  /** A cursor moves a walk on, whatever the table holds by then, exactly if the last key shown is not
      empty: an empty key makes the cursor that asks for the first page. */
  lemma CursorAdvances<T(!new)>(table: seq<T>, key: T -> ByteString, page: Listing<T>, after: ByteString,
                                limit: PageSize)
    requires InOrder(table, key) && Fetch(table, key, Encode(after), Some(limit)) == Success(page) && page.hasMore
    ensures page.items != []
    ensures var last := key(page.items[|page.items| - 1]);
            last != "" <==>
            forall later: seq<T> | InOrder(later, key) ::
              var next := Fetch(later, key, page.nextCursor, Some(limit));
              next.Success? && AllAfter(next.value.items, key, last)
  {
    CursorOfLast(table, key, page, after, limit);
    var last := key(page.items[|page.items| - 1]);
    if last != "" {
      forall later: seq<T> | InOrder(later, key)
        ensures var next := Fetch(later, key, page.nextCursor, Some(limit));
                next.Success? && AllAfter(next.value.items, key, last)
      {
        PageIsAfter(later, key, last, limit);
      }
    } else {
      var i :| 0 <= i < |table| && table[i] == page.items[|page.items| - 1];
      EmptyKeyRestarts(table, key, limit, i);
    }
  }

  // ---------- walks ----------

  /** One fetch of a walk: what the table holds at that moment, and the limit asked for. */
  datatype Visit<+T> = Visit(table: seq<T>, limit: Option<PageSize>)

  type Answer<T> = Result<Listing<T>, QueryError>

  /** A client asks for page after page with the cursor it was last given, and asks again when a
      request is refused, until there is no more. Between the fetches the table may change at will. */
  function Walk<T>(visits: seq<Visit<T>>, key: T -> ByteString, cursor: string): (answers: seq<Answer<T>>)
    ensures |answers| <= |visits|
  {
    if visits == [] then []
    else
      var answer := Fetch(visits[0].table, key, cursor, visits[0].limit);
      match answer
      case Failure(_) => [answer] + Walk(visits[1..], key, cursor)
      case Success(listing) =>
        if listing.hasMore then [answer] + Walk(visits[1..], key, listing.nextCursor) else [answer]
  }

  /** What an answer shows. A refused request shows nothing and is asked again. */
  datatype Shown<+T> = Shown(items: seq<T>, hasMore: bool)

  function View<T>(answer: Answer<T>): Shown<T> {
    match answer
    case Success(listing) => Shown(listing.items, listing.hasMore)
    case Failure(_) => Shown([], true)
  }

  function Views<T>(answers: seq<Answer<T>>): (views: seq<Shown<T>>)
    ensures |views| == |answers|
  {
    if answers == [] then [] else [View(answers[0])] + Views(answers[1..])
  }

  /** Where the walk stands after its first fetch. */
  ghost function NextAfter<T>(visit: Visit<T>, key: T -> ByteString, after: ByteString): ByteString {
    match visit.limit
    case None => after
    case Some(limit) =>
      var end := End(visit.table, key, after, limit);
      if Start(visit.table, key, after) < end then key(visit.table[end - 1]) else after
  }

  /** What the first fetch brings. */
  ghost function Brought<T>(visit: Visit<T>, key: T -> ByteString, after: ByteString): seq<T> {
    match visit.limit
    case None => []
    case Some(limit) => visit.table[Start(visit.table, key, after)..End(visit.table, key, after, limit)]
  }

  ghost predicate GoesOn<T>(visit: Visit<T>, key: T -> ByteString, after: ByteString) {
    match visit.limit
    case None => true
    case Some(limit) => End(visit.table, key, after, limit) < |visit.table|
  }

  lemma StretchIsBrought<T>(visit: Visit<T>, key: T -> ByteString, after: ByteString, limit: PageSize)
    requires visit.limit == Some(limit)
    ensures Stretch(visit.table, Start(visit.table, key, after), End(visit.table, key, after, limit), key)
            == Listing(Brought(visit, key, after),
                       if GoesOn(visit, key, after) then Encode(NextAfter(visit, key, after)) else "",
                       GoesOn(visit, key, after))
  {}

  lemma AnswerTo<T>(visit: Visit<T>, key: T -> ByteString, after: ByteString)
    ensures Fetch(visit.table, key, Encode(after), visit.limit)
            == if visit.limit == None then Failure(InvalidLimit)
               else Success(Listing(Brought(visit, key, after),
                                    if GoesOn(visit, key, after) then Encode(NextAfter(visit, key, after)) else "",
                                    GoesOn(visit, key, after)))
  {
    if visit.limit.Some? {
      FetchIsStretch(visit.table, key, after, visit.limit.value);
      StretchIsBrought(visit, key, after, visit.limit.value);
    } else {
      CursorIsRead(after, None);
    }
  }

  /** The walk without its cursors: it remembers the key where it stands. */
  ghost function Trace<T>(visits: seq<Visit<T>>, key: T -> ByteString, after: ByteString): (shown: seq<Shown<T>>)
    ensures |shown| <= |visits|
  {
    if visits == [] then []
    else
      [Shown(Brought(visits[0], key, after), GoesOn(visits[0], key, after))]
      + if GoesOn(visits[0], key, after) then Trace(visits[1..], key, NextAfter(visits[0], key, after)) else []
  }

  /** The cursors carry just that: whatever the table does, a walk shows what its trace shows. */
  lemma {:induction false} WalkIsTrace<T>(visits: seq<Visit<T>>, key: T -> ByteString, after: ByteString)
    ensures Views(Walk(visits, key, Encode(after))) == Trace(visits, key, after)
  {
    if visits == [] {
    } else {
      AnswerTo(visits[0], key, after);
      if GoesOn(visits[0], key, after) {
        WalkIsTrace(visits[1..], key, NextAfter(visits[0], key, after));
      }
    }
  }

  /** What a walk shows that starts without a cursor. */
  function Seen<T>(visits: seq<Visit<T>>, key: T -> ByteString): (shown: seq<Shown<T>>) {
    Views(Walk(visits, key, ""))
  }

  lemma SeenIsTrace<T>(visits: seq<Visit<T>>, key: T -> ByteString)
    ensures Seen(visits, key) == Trace(visits, key, "")
  {
    assert Encode("") == "";
    WalkIsTrace(visits, key, "");
  }
}
