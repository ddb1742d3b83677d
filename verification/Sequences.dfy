/** Cutting, rearranging and mapping sequences. */
module Sequences {

  function Min(a: nat, b: nat): nat {
    if a <= b then a else b
  }

  /** The rows from an offset on, as many as fit the limit. */
  function Slice<T>(rows: seq<T>, offset: nat, limit: nat): (page: seq<T>)
    ensures |page| == Min(offset + limit, |rows|) - Min(offset, |rows|)
  {
    rows[Min(offset, |rows|)..Min(offset + limit, |rows|)]
  }

  /** The page has the rows from the offset on, as many as there are and as fit the limit. */
  ghost predicate IsPage<T(!new)>(rows: seq<T>, offset: nat, limit: nat, page: seq<T>) {
    && |page| == (if offset <= |rows| then Min(limit, |rows| - offset) else 0)
    && forall i | 0 <= i < |page| :: page[i] == rows[offset + i]
  }

  lemma SliceIsPage<T(!new)>(rows: seq<T>, offset: nat, limit: nat)
    ensures IsPage(rows, offset, limit, Slice(rows, offset, limit))
  {}

  lemma HalvesOf<T>(l: seq<T>, r: seq<T>)
    ensures (l + r)[..|l|] == l && (l + r)[|l|..] == r
  {}

  lemma RemoveAt<T>(s: seq<T>, j: nat)
    requires j < |s|
    ensures multiset(s[..j] + s[j + 1..]) == multiset(s) - multiset{s[j]}
  {
    assert s == s[..j] + [s[j]] + s[j + 1..];
  }

  /** What the function gives for each element, one after the other. */
  function FlatMap<T, U>(f: T -> seq<U>, s: seq<T>): seq<U> {
    if s == [] then []
    else
      var last := |s| - 1;
      FlatMap(f, s[..last]) + f(s[last])
  }

  lemma {:induction false} FlatMapAppend<T, U>(f: T -> seq<U>, a: seq<T>, b: seq<T>)
    ensures FlatMap(f, a + b) == FlatMap(f, a) + FlatMap(f, b)
  {
    if b == [] {
      assert a + b == a;
    } else {
      var last := |b| - 1;
      FlatMapAppend(f, a, b[..last]);
      assert (a + b)[..|a + b| - 1] == a + b[..last];
    }
  }

  lemma FlatMapSnoc<T, U>(f: T -> seq<U>, s: seq<T>, x: T)
    ensures FlatMap(f, s + [x]) == FlatMap(f, s) + f(x)
  {}

  lemma {:induction false} FlatMapWithout<T, U>(f: T -> seq<U>, s: seq<T>, j: nat)
    requires j < |s|
    ensures multiset(FlatMap(f, s)) == multiset(FlatMap(f, s[..j] + s[j + 1..])) + multiset(f(s[j]))
  {
    assert s == s[..j] + [s[j]] + s[j + 1..];
    FlatMapAppend(f, s[..j] + [s[j]], s[j + 1..]);
    FlatMapSnoc(f, s[..j], s[j]);
    FlatMapAppend(f, s[..j], s[j + 1..]);
  }

  /** One result for each element, in its place. */
  lemma {:induction false} FlatMapOfOnes<T, U>(f: T -> seq<U>, s: seq<T>)
    requires forall x | x in s :: |f(x)| == 1
    ensures |FlatMap(f, s)| == |s|
    ensures forall i | 0 <= i < |s| :: |f(s[i])| == 1 && FlatMap(f, s)[i] == f(s[i])[0]
  {
    if s == [] {
    } else {
      FlatMapOfOnes(f, s[..|s| - 1]);
    }
  }

  ghost predicate Ascending(places: seq<nat>) {
    forall i, j | 0 <= i < j < |places| :: places[i] < places[j]
  }

  /** Rearranging the elements rearranges the results. */
  lemma {:induction false} FlatMapPermutation<T, U>(f: T -> seq<U>, a: seq<T>, b: seq<T>)
    requires multiset(a) == multiset(b)
    ensures multiset(FlatMap(f, a)) == multiset(FlatMap(f, b))
  {
    if a == [] || b == [] {
      assert |multiset(a)| == |a| && |multiset(b)| == |b|;
    } else {
      var last := |a| - 1;
      assert a[last] in multiset(b);
      var j :| 0 <= j < |b| && b[j] == a[last];
      RemoveAt(a, last);
      RemoveAt(b, j);
      assert a[..last] + a[last + 1..] == a[..last];
      FlatMapPermutation(f, a[..last], b[..j] + b[j + 1..]);
      FlatMapWithout(f, b, j);
    }
  }
}
