/** Which unchanging tables a walk with one given limit brings as a whole. */
module PaginationLimits {
  import opened Base64
  import opened StringOrder
  import opened Sequences
  import opened Pagination
  import opened PaginationWalks

  /** A page can end before row e: the key before it is not empty and not that of row e. */
  ghost predicate Parts<T(!new)>(table: seq<T>, key: T -> ByteString, e: nat)
    requires 0 < e < |table|
  {
    key(table[e - 1]) != "" && LexLess(key(table[e - 1]), key(table[e]))
  }

  /** From a key that is not empty the walk goes on after all its rows: exactly at the next row if that has
      another key. */
  lemma StartAfterRow<T(!new)>(table: seq<T>, key: T -> ByteString, e: nat)
    requires InOrder(table, key) && 0 < e < |table| && key(table[e - 1]) != ""
    ensures var start := Start(table, key, key(table[e - 1]));
            start >= e && (start == e <==> Parts(table, key, e))
  {
    var after := key(table[e - 1]);
    var start := Start(table, key, after);
    SkipParts(table, key, after);
    if start < e {
      LexTotal(after, after);
      assert LexLeq(key(table[start]), after);
      NotLess(after, key(table[start]));
    }
  }

  /** All pages from a given row on end where they can. */
  ghost predicate PartsFrom<T(!new)>(table: seq<T>, key: T -> ByteString, limit: PageSize, done: nat)
    decreases |table| - done
  {
    done + limit < |table| ==> Parts(table, key, done + limit) && PartsFrom(table, key, limit, done + limit)
  }

  lemma NextIsNotEmpty<T(!new)>(table: seq<T>, key: T -> ByteString, after: ByteString, i: nat)
    requires InOrder(table, key) && after != "" && Start(table, key, after) <= i < |table|
    ensures key(table[i]) != ""
  {
    RestIsAfter(table, key, after);
    assert LexLess(after, key(table[i]));
  }

  /** The fetches that follow a key bring no more than there is after it. */
  ghost predicate FetchesBringNoMore<T(!new)>(table: seq<T>, key: T -> ByteString, limit: PageSize,
                                              after: ByteString, fetches: nat) {
    |RowsAfter(table, key, limit, after, fetches)| <= |table| - Start(table, key, after)
  }

  lemma LastBringsNoMore<T(!new)>(table: seq<T>, key: T -> ByteString, limit: PageSize, after: ByteString,
                                  fetches: nat)
    requires fetches == 0 || Start(table, key, after) + limit >= |table|
    ensures FetchesBringNoMore(table, key, limit, after, fetches)
  {}

  lemma PageThenRest<T(!new)>(table: seq<T>, key: T -> ByteString, limit: PageSize, after: ByteString,
                              end: nat, fetches: nat)
    requires fetches > 0 && Start(table, key, after) + limit == end < |table|
    ensures RowsAfter(table, key, limit, after, fetches)
            == Slice(table, end - limit, limit) + RowsAfter(table, key, limit, key(table[end - 1]), fetches - 1)
    ensures |Slice(table, end - limit, limit)| == limit
  {}

  lemma PageThenNoMore<T(!new)>(table: seq<T>, key: T -> ByteString, limit: PageSize, after: ByteString,
                                end: nat, fetches: nat)
    requires InOrder(table, key) && fetches > 0 && Start(table, key, after) + limit == end < |table|
    requires key(table[end - 1]) != "" && FetchesBringNoMore(table, key, limit, key(table[end - 1]), fetches - 1)
    ensures FetchesBringNoMore(table, key, limit, after, fetches)
  {
    StartAfterRow(table, key, end);
    PageThenRest(table, key, limit, after, end, fetches);
  }

  /** That holds of any walk that has left the start. */
  lemma {:induction false} BringsNoMore<T(!new)>(table: seq<T>, key: T -> ByteString, limit: PageSize,
                                                 after: ByteString, fetches: nat)
    requires InOrder(table, key) && after != ""
    ensures FetchesBringNoMore(table, key, limit, after, fetches)
    decreases fetches
  {
    var end := Start(table, key, after) + limit;
    if fetches == 0 || end >= |table| {
      LastBringsNoMore(table, key, limit, after, fetches);
    } else {
      NextIsNotEmpty(table, key, after, end - 1);
      BringsNoMore(table, key, limit, key(table[end - 1]), fetches - 1);
      PageThenNoMore(table, key, limit, after, end, fetches);
    }
  }

  /** What a walk brings from a given row on: all the rest if all its pages end where they can, and else not
      even as many rows, or more. */
  ghost predicate BringsRest<T(!new)>(items: seq<T>, table: seq<T>, key: T -> ByteString, limit: PageSize, done: nat)
    requires done <= |table|
  {
    if PartsFrom(table, key, limit, done) then items == table[done..] else |items| != |table| - done
  }

  /** The same of the fetches that follow a key whose walk stands at that row. */
  ghost predicate FetchesBringRest<T(!new)>(table: seq<T>, key: T -> ByteString, limit: PageSize,
                                            after: ByteString, fetches: nat) {
    BringsRest(RowsAfter(table, key, limit, after, fetches), table, key, limit, Start(table, key, after))
  }

  lemma PagePlusRest<T(!new)>(table: seq<T>, key: T -> ByteString, limit: PageSize, done: nat, rest: seq<T>)
    requires done + limit < |table| && Parts(table, key, done + limit)
    requires BringsRest(rest, table, key, limit, done + limit)
    ensures BringsRest(Slice(table, done, limit) + rest, table, key, limit, done)
  {
    assert table[done..] == table[done..done + limit] + table[done + limit..];
  }

  lemma PageWithoutRest<T(!new)>(table: seq<T>, key: T -> ByteString, limit: PageSize, done: nat, rest: seq<T>)
    requires done + limit < |table| && !Parts(table, key, done + limit) && |rest| < |table| - (done + limit)
    ensures BringsRest(Slice(table, done, limit) + rest, table, key, limit, done)
  {}

  lemma LastPage<T(!new)>(table: seq<T>, key: T -> ByteString, limit: PageSize, after: ByteString, fetches: nat)
    requires fetches > 0 && Start(table, key, after) + limit >= |table|
    ensures FetchesBringRest(table, key, limit, after, fetches)
  {}

  /** A first page that ends with an empty key comes again and again. */
  lemma EmptyKeyBringsMore<T(!new)>(table: seq<T>, key: T -> ByteString, limit: PageSize, after: ByteString,
                                    fetches: nat)
    requires InOrder(table, key) && Start(table, key, after) + limit < |table| < fetches + Start(table, key, after)
    requires key(table[Start(table, key, after) + limit - 1]) == ""
    ensures FetchesBringRest(table, key, limit, after, fetches)
  {
    if after != "" {
      NextIsNotEmpty(table, key, after, Start(table, key, after) + limit - 1);
    }
    FirstPageRepeats(table, key, limit, fetches);
  }

  lemma PartedPage<T(!new)>(table: seq<T>, key: T -> ByteString, limit: PageSize, after: ByteString,
                            end: nat, fetches: nat)
    requires InOrder(table, key) && fetches > 0 && Start(table, key, after) + limit == end < |table|
    requires Parts(table, key, end) && FetchesBringRest(table, key, limit, key(table[end - 1]), fetches - 1)
    ensures FetchesBringRest(table, key, limit, after, fetches)
  {
    StartAfterRow(table, key, end);
    PagePlusRest(table, key, limit, end - limit, RowsAfter(table, key, limit, key(table[end - 1]), fetches - 1));
  }

  lemma UnpartedPage<T(!new)>(table: seq<T>, key: T -> ByteString, limit: PageSize, after: ByteString,
                              end: nat, fetches: nat)
    requires InOrder(table, key) && fetches > 0 && Start(table, key, after) + limit == end < |table|
    requires !Parts(table, key, end) && key(table[end - 1]) != ""
    ensures FetchesBringRest(table, key, limit, after, fetches)
  {
    BringsNoMore(table, key, limit, key(table[end - 1]), fetches - 1);
    StartAfterRow(table, key, end);
    PageThenRest(table, key, limit, after, end, fetches);
    PageWithoutRest(table, key, limit, end - limit, RowsAfter(table, key, limit, key(table[end - 1]), fetches - 1));
  }

  lemma {:induction false} BringsRestOrNot<T(!new)>(table: seq<T>, key: T -> ByteString, limit: PageSize,
                                                    after: ByteString, fetches: nat)
    requires InOrder(table, key) && |table| < fetches + Start(table, key, after)
    ensures FetchesBringRest(table, key, limit, after, fetches)
    decreases fetches
  {
    var end := Start(table, key, after) + limit;
    if end >= |table| {
      LastPage(table, key, limit, after, fetches);
    } else if key(table[end - 1]) == "" {
      EmptyKeyBringsMore(table, key, limit, after, fetches);
    } else if Parts(table, key, end) {
      StartAfterRow(table, key, end);
      BringsRestOrNot(table, key, limit, key(table[end - 1]), fetches - 1);
      PartedPage(table, key, limit, after, end, fetches);
    } else {
      UnpartedPage(table, key, limit, after, end, fetches);
    }
  }

  lemma AllIsRest<T(!new)>(items: seq<T>, table: seq<T>, key: T -> ByteString, limit: PageSize)
    requires BringsRest(items, table, key, limit, 0)
    ensures items == table <==> PartsFrom(table, key, limit, 0)
  {
    assert table[0..] == table;
  }

  // ---------- the places where pages end ----------

  /** If page p is not the last one, it ends where it can. */
  ghost predicate PageEnds<T(!new)>(table: seq<T>, key: T -> ByteString, limit: PageSize, p: nat) {
    0 < p * limit < |table| ==> Parts(table, key, p * limit)
  }

  lemma PagesOrdered(p: nat, q: nat, limit: nat)
    requires p <= q
    ensures p * limit <= q * limit
  {}

  lemma {:induction false} PartsAtPages<T(!new)>(table: seq<T>, key: T -> ByteString, limit: PageSize, m: nat)
    ensures PartsFrom(table, key, limit, m * limit) <==> forall p: nat | m < p :: PageEnds(table, key, limit, p)
    decreases |table| - m * limit
  {
    assert (m + 1) * limit == m * limit + limit;
    if (m + 1) * limit >= |table| {
      forall p: nat | m < p ensures PageEnds(table, key, limit, p) {
        PagesOrdered(m + 1, p, limit);
      }
    } else {
      PartsAtPages(table, key, limit, m + 1);
      assert PageEnds(table, key, limit, m + 1) <==> Parts(table, key, (m + 1) * limit);
    }
  }

  /** With one limit, the walk over an unchanging table in key order brings all of it exactly if at the end of
      every page but the last the key is not empty, and smaller than that of the next row. */
  lemma WholeAtLimit<T(!new)>(table: seq<T>, key: T -> ByteString, limit: PageSize)
    requires InOrder(table, key)
    ensures WholeWalk(table, key, limit) == table <==> forall p: nat | 0 < p :: PageEnds(table, key, limit, p)
  {
    WholeWalkIsRowsAfter(table, key, limit);
    BringsRestOrNot(table, key, limit, "", |table| + 1);
    AllIsRest(WholeWalk(table, key, limit), table, key, limit);
    PartsAtPages(table, key, limit, 0);
  }
}
