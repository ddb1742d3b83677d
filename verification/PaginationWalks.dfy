/** Whole walks over a table that changes between the fetches. */
module PaginationWalks {
  import opened Wrappers
  import opened Base64
  import opened StringOrder
  import opened Sequences
  import opened Pagination

  ghost predicate WellKept<T(!new)>(visits: seq<Visit<T>>, key: T -> ByteString) {
    forall i | 0 <= i < |visits| :: KeysUnique(visits[i].table, key) && KeysNotEmpty(visits[i].table, key)
  }

  predicate Complete<T>(shown: seq<Shown<T>>) {
    shown != [] && !shown[|shown| - 1].hasMore
  }

  /** Everything a walk brought, in the order it came. */
  function Items<T>(shown: seq<Shown<T>>): seq<T> {
    if shown == [] then [] else shown[0].items + Items(shown[1..])
  }

  lemma NotLess(a: string, b: string)
    ensures LexLess(a, b) <==> !LexLeq(b, a)
  {}

  lemma StretchRows<T(!new)>(table: seq<T>, key: T -> ByteString, after: string, limit: nat, row: T)
    requires KeysUnique(table, key) && KeysNotEmpty(table, key) && limit > 0
    ensures var start, end := Start(table, key, after), End(table, key, after, limit);
            row in table[start..end]
            <==> row in table && LexLess(after, key(row)) && (end < |table| ==> LexLeq(key(row), key(table[end - 1])))
  {
    StartParts(table, key, after);
    var start, end := Start(table, key, after), End(table, key, after, limit);
    if row in table {
      var i :| 0 <= i < |table| && table[i] == row;
      if end < |table| {
        NotLess(key(table[end - 1]), key(row));
        assert LexLeq(key(row), key(table[end - 1])) <==> i < end;
      }
      assert start <= i < end ==> table[start..end][i - start] == row;
    }
  }

  /** The first fetch brings exactly the rows between where the walk stood and where it stands next. */
  lemma BroughtIsBetween<T(!new)>(visit: Visit<T>, key: T -> ByteString, after: ByteString, row: T)
    requires KeysUnique(visit.table, key) && KeysNotEmpty(visit.table, key)
    ensures row in Brought(visit, key, after)
            <==> && row in visit.table && LexLess(after, key(row))
                 && (GoesOn(visit, key, after) ==> LexLeq(key(row), NextAfter(visit, key, after)))
  {
    if visit.limit.Some? {
      StretchRows(visit.table, key, after, visit.limit.value, row);
    } else {
      NotLess(after, key(row));
    }
  }

  /** No page of this visit shows two rows with the same key. */
  ghost predicate StepsUp<T(!new)>(visit: Visit<T>, key: T -> ByteString) {
    && InOrder(visit.table, key) && KeysNotEmpty(visit.table, key)
    && (KeysUnique(visit.table, key) || visit.limit == Some(1))
  }

  /** It brings them in order, and the walk moves past all of them. */
  lemma BroughtAscends<T(!new)>(visit: Visit<T>, key: T -> ByteString, after: ByteString)
    requires StepsUp(visit, key)
    ensures var page, next := Brought(visit, key, after), NextAfter(visit, key, after);
            && KeysUnique(page, key) && LexLeq(after, next)
            && forall i | 0 <= i < |page| :: LexLess(after, key(page[i])) && LexLeq(key(page[i]), next)
  {
    StartParts(visit.table, key, after);
    LexTotal(after, after);
    if visit.limit.Some? {
      var start, end := Start(visit.table, key, after), End(visit.table, key, after, visit.limit.value);
      if start < end {
        LexTotal(key(visit.table[end - 1]), key(visit.table[end - 1]));
      }
    }
  }

  lemma AscendingJoin<T(!new)>(front: seq<T>, back: seq<T>, key: T -> ByteString, after: string, next: string)
    requires KeysUnique(front, key) && KeysUnique(back, key)
    requires LexLeq(after, next) && AllAfter(front, key, after) && AllAfter(back, key, next)
    requires forall i | 0 <= i < |front| :: LexLeq(key(front[i]), next)
    ensures KeysUnique(front + back, key) && AllAfter(front + back, key, after)
  {
    forall j | 0 <= j < |back| ensures LexLess(after, key(back[j])) {
      LexLessTransitive(after, next, key(back[j]));
    }
    forall i, j | 0 <= i < |front| && 0 <= j < |back| ensures LexLess(key(front[i]), key(back[j])) {
      LexLessTransitive(key(front[i]), next, key(back[j]));
    }
  }

  /** A walk never comes back: the keys it brings only ascend. */
  lemma {:induction false} WalkAscends<T(!new)>(visits: seq<Visit<T>>, key: T -> ByteString, after: ByteString)
    requires forall i | 0 <= i < |visits| :: StepsUp(visits[i], key)
    ensures var items := Items(Trace(visits, key, after)); KeysUnique(items, key) && AllAfter(items, key, after)
  {
    if visits == [] {
    } else {
      BroughtAscends(visits[0], key, after);
      var next := NextAfter(visits[0], key, after);
      var rest := if GoesOn(visits[0], key, after) then Trace(visits[1..], key, next) else [];
      if GoesOn(visits[0], key, after) {
        WalkAscends(visits[1..], key, next);
      }
      AscendingJoin(Brought(visits[0], key, after), Items(rest), key, after, next);
      assert Trace(visits, key, after)[1..] == rest;
    }
  }

  /** This page takes the walk past the key. */
  ghost predicate Passes<T>(page: Shown<T>, key: T -> ByteString, k: string) {
    page.hasMore ==> page.items != [] && LexLeq(k, key(page.items[|page.items| - 1]))
  }

  /** The fetch at which a completed walk passes the key. */
  ghost function PassedAt<T>(shown: seq<Shown<T>>, key: T -> ByteString, k: string): (a: nat)
    requires Complete(shown)
    ensures a < |shown| && Passes(shown[a], key, k)
    ensures forall b | 0 <= b < a :: !Passes(shown[b], key, k)
  {
    if Passes(shown[0], key, k) then 0 else
      var a := PassedAt(shown[1..], key, k);
      assert shown[1..][a] == shown[1 + a];
      assert forall b | 0 < b <= a :: shown[1..][b - 1] == shown[b];
      1 + a
  }

  lemma FirstPasses<T(!new)>(visit: Visit<T>, key: T -> ByteString, after: ByteString, k: string)
    requires LexLess(after, k)
    ensures Passes(Shown(Brought(visit, key, after), GoesOn(visit, key, after)), key, k)
            <==> (GoesOn(visit, key, after) ==> LexLeq(k, NextAfter(visit, key, after)))
  {
    NotLess(after, k);
  }

  lemma {:induction false} TraceIsExact<T(!new)>(visits: seq<Visit<T>>, key: T -> ByteString, after: ByteString, row: T)
    requires WellKept(visits, key) && LexLess(after, key(row)) && Complete(Trace(visits, key, after))
    ensures var shown := Trace(visits, key, after);
            row in Items(shown) <==> row in visits[PassedAt(shown, key, key(row))].table
  {
    var shown, next := Trace(visits, key, after), NextAfter(visits[0], key, after);
    FirstPasses(visits[0], key, after, key(row));
    BroughtIsBetween(visits[0], key, after, row);
    if GoesOn(visits[0], key, after) {
      NotLess(next, key(row));
      assert shown[1..] == Trace(visits[1..], key, next);
      if LexLess(next, key(row)) {
        TraceIsExact(visits[1..], key, next, row);
      } else {
        WalkAscends(visits[1..], key, next);
      }
    }
  }

  lemma {:induction false} BroughtWasThere<T(!new)>(visits: seq<Visit<T>>, key: T -> ByteString,
                                                    after: ByteString, a: nat, row: T)
    requires WellKept(visits, key)
    requires a < |Trace(visits, key, after)| && row in Trace(visits, key, after)[a].items
    ensures row in visits[a].table
  {
    if a == 0 {
      BroughtIsBetween(visits[0], key, after, row);
    } else {
      assert visits[1..][a - 1] == visits[a];
      BroughtWasThere(visits[1..], key, NextAfter(visits[0], key, after), a - 1, row);
    }
  }

  /** A completed walk brings a row exactly if the table holds it when the walk passes its key. */
  lemma WalkIsExact<T(!new)>(visits: seq<Visit<T>>, key: T -> ByteString, row: T)
    requires WellKept(visits, key) && key(row) != "" && Complete(Seen(visits, key))
    ensures var shown := Seen(visits, key);
            row in Items(shown) <==> row in visits[PassedAt(shown, key, key(row))].table
  {
    SeenIsTrace(visits, key);
    TraceIsExact(visits, key, "", row);
  }

  /** The promise of the package. Whatever is inserted and deleted between the fetches, and whatever
      limits are asked for: no row comes twice and the keys ascend, every row that comes was in the table
      when its page was fetched, and a walk that completes has brought every row that was there throughout. */
  lemma WalkIsStable<T(!new)>(visits: seq<Visit<T>>, key: T -> ByteString)
    requires WellKept(visits, key)
    ensures var shown := Seen(visits, key);
            && KeysUnique(Items(shown), key)
            && (forall a: nat, row: T | a < |shown| && row in shown[a].items :: row in visits[a].table)
            && (Complete(shown) ==>
                  forall row: T | (forall a | 0 <= a < |shown| :: row in visits[a].table) :: row in Items(shown))
  {
    SeenIsTrace(visits, key);
    var shown := Trace(visits, key, "");
    WalkAscends(visits, key, "");
    forall a: nat, row: T | a < |shown| && row in shown[a].items ensures row in visits[a].table {
      BroughtWasThere(visits, key, "", a, row);
    }
    if Complete(shown) {
      forall row: T | (forall a | 0 <= a < |shown| :: row in visits[a].table) ensures row in Items(shown) {
        assert row in visits[0].table;
        TraceIsExact(visits, key, "", row);
      }
    }
  }

  // ---------- a table that does not change ----------

  ghost function Frozen<T>(table: seq<T>, limit: PageSize, fetches: nat): (visits: seq<Visit<T>>)
    ensures |visits| == fetches
    ensures forall i | 0 <= i < fetches :: visits[i] == Visit(table, Some(limit))
  {
    if fetches == 0 then [] else [Visit(table, Some(limit))] + Frozen(table, limit, fetches - 1)
  }

  ghost function PagesFor(rows: nat, limit: nat): (pages: nat)
    requires limit > 0
    ensures 1 <= pages <= rows + 1
  {
    if rows <= limit then 1 else 1 + PagesFor(rows - limit, limit)
  }

  /** As few pages as hold the rows, but at least one. */
  lemma {:induction false} PagesForIsLeast(rows: nat, limit: nat)
    requires limit > 0
    ensures var pages := PagesFor(rows, limit);
            rows <= pages * limit && (pages == 1 || (pages - 1) * limit < rows)
  {
    if rows <= limit {
    } else {
      PagesForIsLeast(rows - limit, limit);
      var pages := PagesFor(rows - limit, limit);
      assert (1 + pages) * limit == pages * limit + limit && (pages - 1) * limit == pages * limit - limit;
    }
  }

  ghost function KeyBefore<T>(table: seq<T>, key: T -> ByteString, done: nat): ByteString
    requires done <= |table|
  {
    if done == 0 then "" else key(table[done - 1])
  }

  lemma StartAfterDone<T(!new)>(table: seq<T>, key: T -> ByteString, done: nat)
    requires KeysUnique(table, key) && KeysNotEmpty(table, key) && done <= |table|
    ensures Start(table, key, KeyBefore(table, key, done)) == done
  {
    var after := KeyBefore(table, key, done);
    StartParts(table, key, after);
    if done > 0 {
      assert !LexLess(after, key(table[done - 1]));
      assert done < |table| ==> LexLess(after, key(table[done]));
    }
  }

  /** Rows, page by page. */
  ghost function PagesOf<T>(rows: seq<T>, limit: PageSize): (pages: seq<Shown<T>>)
    ensures |pages| == PagesFor(|rows|, limit) && Complete(pages)
  {
    if |rows| <= limit then [Shown(rows, false)]
    else [Shown(rows[..limit], true)] + PagesOf(rows[limit..], limit)
  }

  lemma {:induction false} PagesOfShowAll<T>(rows: seq<T>, limit: PageSize)
    ensures Items(PagesOf(rows, limit)) == rows
  {
    if |rows| <= limit {
    } else {
      var pages, rest := PagesOf(rows, limit), PagesOf(rows[limit..], limit);
      assert pages[1..] == rest;
      PagesOfShowAll(rows[limit..], limit);
      assert rows == rows[..limit] + rows[limit..];
    }
  }

  /** The key of every row leads to the row after it. */
  ghost predicate CursorsFind<T(!new)>(table: seq<T>, key: T -> ByteString) {
    forall done: nat | done <= |table| :: Start(table, key, KeyBefore(table, key, done)) == done
  }

  lemma FrozenStep<T(!new)>(table: seq<T>, key: T -> ByteString, limit: PageSize, done: nat)
    requires CursorsFind(table, key) && done <= |table|
    ensures var visit, after, end := Visit(table, Some(limit)), KeyBefore(table, key, done), Min(done + limit, |table|);
            && (GoesOn(visit, key, after) <==> end < |table|)
            && Brought(visit, key, after) == table[done..end]
            && (end < |table| ==> NextAfter(visit, key, after) == KeyBefore(table, key, end))
  {}

  ghost predicate AllVisit<T(!new)>(visits: seq<Visit<T>>, table: seq<T>, limit: PageSize) {
    forall i | 0 <= i < |visits| :: visits[i] == Visit(table, Some(limit))
  }

  lemma PagesOfMore<T>(table: seq<T>, done: nat, limit: PageSize)
    requires done + limit < |table|
    ensures PagesOf(table[done..], limit)
            == [Shown(table[done..done + limit], true)] + PagesOf(table[done + limit..], limit)
  {
    assert table[done..][limit..] == table[done + limit..];
    assert table[done..][..limit] == table[done..done + limit];
  }

  lemma {:induction false} FrozenTrace<T(!new)>(visits: seq<Visit<T>>, table: seq<T>, key: T -> ByteString,
                                                limit: PageSize, after: ByteString, done: nat)
    requires CursorsFind(table, key) && AllVisit(visits, table, limit)
    requires done <= |table| < |visits| + done && after == KeyBefore(table, key, done)
    ensures Trace(visits, key, after) == PagesOf(table[done..], limit)
  {
    FrozenStep(table, key, limit, done);
    if done + limit < |table| {
      var next := KeyBefore(table, key, done + limit);
      PagesOfMore(table, done, limit);
      FrozenTrace(visits[1..], table, key, limit, next, done + limit);
    } else {
      assert table[done..|table|] == table[done..];
    }
  }

  /** A table of n rows that does not change takes max(1, ceil(n / limit)) pages and comes back whole. */
  lemma FrozenWalk<T(!new)>(table: seq<T>, key: T -> ByteString, limit: PageSize, fetches: nat)
    requires KeysUnique(table, key) && KeysNotEmpty(table, key) && fetches > |table|
    ensures var shown := Seen(Frozen(table, limit, fetches), key);
            && |table| <= |shown| * limit && (|shown| == 1 || (|shown| - 1) * limit < |table|)
            && Complete(shown) && Items(shown) == table
  {
    SeenIsTrace(Frozen(table, limit, fetches), key);
    forall done: nat | done <= |table| ensures Start(table, key, KeyBefore(table, key, done)) == done {
      StartAfterDone(table, key, done);
    }
    FrozenTrace(Frozen(table, limit, fetches), table, key, limit, "", 0);
    assert table[0..] == table;
    PagesOfShowAll(table, limit);
    PagesForIsLeast(|table|, limit);
  }

  // ---------- what the keys must be ----------

  /** What a walk over an unchanging table brings, given enough fetches. */
  ghost function WholeWalk<T>(table: seq<T>, key: T -> ByteString, limit: PageSize): seq<T> {
    Items(Seen(Frozen(table, limit, |table| + 1), key))
  }

  lemma OnePageIsWhole<T(!new)>(table: seq<T>, key: T -> ByteString, limit: PageSize)
    requires |table| <= limit
    ensures WholeWalk(table, key, limit) == table
  {
    var visits := Frozen(table, limit, |table| + 1);
    SeenIsTrace(visits, key);
    assert Brought(visits[0], key, "") == table && !GoesOn(visits[0], key, "");
    assert Trace(visits, key, "") == [Shown(table, false)];
    assert Items([Shown(table, false)]) == table + Items([Shown(table, false)][1..]);
  }

  lemma UniqueMakesWhole<T(!new)>(table: seq<T>, key: T -> ByteString, limit: PageSize)
    requires KeysUnique(table, key) && (KeysNotEmpty(table, key) || |table| <= 1)
    ensures WholeWalk(table, key, limit) == table
  {
    if KeysNotEmpty(table, key) {
      FrozenWalk(table, key, limit, |table| + 1);
    } else {
      OnePageIsWhole(table, key, limit);
    }
  }

  /** Rows that share a key are not all brought. */
  lemma TiesAreLost<T(!new)>(table: seq<T>, key: T -> ByteString)
    requires InOrder(table, key) && KeysNotEmpty(table, key) && !KeysUnique(table, key)
    ensures WholeWalk(table, key, 1) != table
  {
    var visits := Frozen(table, 1, |table| + 1);
    SeenIsTrace(visits, key);
    WalkAscends(visits, key, "");
  }

  /** The rows a walk brings that stands after a given key of an unchanging table. */
  ghost function RowsAfter<T(!new)>(table: seq<T>, key: T -> ByteString, limit: PageSize,
                                    after: ByteString, fetches: nat): seq<T>
    decreases fetches
  {
    if fetches == 0 then []
    else
      var start, end := Start(table, key, after), Start(table, key, after) + limit;
      if end >= |table| then Slice(table, start, limit)
      else Slice(table, start, limit) + RowsAfter(table, key, limit, key(table[end - 1]), fetches - 1)
  }

  /** What one fetch of the table brings and where it leaves the walk. */
  lemma OneFetch<T(!new)>(table: seq<T>, key: T -> ByteString, limit: PageSize, after: ByteString)
    ensures var visit, start := Visit(table, Some(limit)), Start(table, key, after);
            && Brought(visit, key, after) == Slice(table, start, limit)
            && (GoesOn(visit, key, after) <==> start + limit < |table|)
            && (start + limit < |table| ==> NextAfter(visit, key, after) == key(table[start + limit - 1]))
  {}

  lemma {:induction false} TraceIsRowsAfter<T(!new)>(visits: seq<Visit<T>>, table: seq<T>, key: T -> ByteString,
                                                     limit: PageSize, after: ByteString)
    requires AllVisit(visits, table, limit)
    ensures Items(Trace(visits, key, after)) == RowsAfter(table, key, limit, after, |visits|)
  {
    if visits == [] {
    } else {
      var rest := if GoesOn(visits[0], key, after)
                  then Trace(visits[1..], key, NextAfter(visits[0], key, after)) else [];
      OneFetch(table, key, limit, after);
      assert Trace(visits, key, after)[1..] == rest;
      if GoesOn(visits[0], key, after) {
        TraceIsRowsAfter(visits[1..], table, key, limit, NextAfter(visits[0], key, after));
      }
    }
  }

  lemma WholeWalkIsRowsAfter<T(!new)>(table: seq<T>, key: T -> ByteString, limit: PageSize)
    ensures WholeWalk(table, key, limit) == RowsAfter(table, key, limit, "", |table| + 1)
  {
    var visits := Frozen(table, limit, |table| + 1);
    SeenIsTrace(visits, key);
    TraceIsRowsAfter(visits, table, key, limit, "");
  }

  /** Where the first page ends with an empty key the walk starts again, for ever. */
  lemma {:induction false} FirstPageRepeats<T(!new)>(table: seq<T>, key: T -> ByteString, limit: PageSize, fetches: nat)
    requires |table| > limit && key(table[limit - 1]) == ""
    ensures |RowsAfter(table, key, limit, "", fetches)| >= fetches
    decreases fetches
  {
    if fetches == 0 {
    } else {
      FirstPageRepeats(table, key, limit, fetches - 1);
    }
  }

  lemma RestartIsNotWhole<T(!new)>(table: seq<T>, key: T -> ByteString)
    requires |table| > 1 && key(table[0]) == ""
    ensures WholeWalk(table, key, 1) != table
  {
    WholeWalkIsRowsAfter(table, key, 1);
    FirstPageRepeats(table, key, 1, |table| + 1);
  }

  lemma EmptyKeyIsFirst<T(!new)>(table: seq<T>, key: T -> ByteString)
    requires InOrder(table, key) && !KeysNotEmpty(table, key)
    ensures table != [] && key(table[0]) == ""
  {
    var i :| 0 <= i < |table| && key(table[i]) == "";
    assert i == 0 || LexLeq(key(table[0]), "");
  }

  /** What the keys must be: every walk over an unchanging table in key order brings all of it exactly if no
      two rows share a key, so that none is lost, and the first of several rows has a key that is not
      empty, so that the walk does not start again. */
  lemma WholeTableNeedsKeys<T(!new)>(table: seq<T>, key: T -> ByteString)
    requires InOrder(table, key)
    ensures KeysUnique(table, key) && (|table| <= 1 || key(table[0]) != "")
            <==> forall limit: PageSize :: WholeWalk(table, key, limit) == table
  {
    if !KeysNotEmpty(table, key) {
      EmptyKeyIsFirst(table, key);
    }
    if KeysUnique(table, key) && (|table| <= 1 || key(table[0]) != "") {
      forall limit: PageSize ensures WholeWalk(table, key, limit) == table {
        UniqueMakesWhole(table, key, limit);
      }
    } else if KeysNotEmpty(table, key) {
      TiesAreLost(table, key);
    } else {
      RestartIsNotWhole(table, key);
    }
  }
}
