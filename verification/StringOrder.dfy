/** The byte-wise lexicographic order on strings, and sorting by it. */
module StringOrder {

  predicate LexLeq(a: string, b: string) {
    if a == [] then true
    else if b == [] then false
    else a[0] < b[0] || (a[0] == b[0] && LexLeq(a[1..], b[1..]))
  }

  /** Strictly before. */
  predicate LexLess(a: string, b: string) {
    a != b && LexLeq(a, b)
  }

  /** The strings differ first at place k, and there a has the smaller character. */
  predicate IsLessAt(a: string, b: string, k: nat) {
    k < |a| && k < |b| && a[..k] == b[..k] && a[k] < b[k]
  }

  lemma SameBefore(a: string, b: string, k: nat)
    requires IsLessAt(a, b, k) && k > 0
    ensures a[0] == b[0]
  {
    assert a[..k][0] == b[..k][0];
  }

  lemma LessBehind(c: char, s: string, t: string, k: nat)
    ensures IsLessAt([c] + s, [c] + t, k + 1) <==> IsLessAt(s, t, k)
  {
    if k < |s| && k < |t| {
      assert ([c] + s)[..k + 1] == [c] + s[..k] && ([c] + t)[..k + 1] == [c] + t[..k];
      assert s[..k] == ([c] + s[..k])[1..] && t[..k] == ([c] + t[..k])[1..];
    }
  }

  lemma SameFirst(c: char, s: string, t: string)
    ensures LexLess([c] + s, [c] + t) <==> LexLess(s, t)
    ensures [c] + s < [c] + t <==> s < t
  {
    assert ([c] + s)[1..] == s && ([c] + t)[1..] == t;
  }

  /** The order is that of the first characters that differ; a string comes before its continuations. */
  lemma {:induction false} LexLessAt(a: string, b: string)
    ensures LexLess(a, b) <==> a < b || exists k: nat :: IsLessAt(a, b, k)
  {
    if a == [] || b == [] {
    } else if a[0] == b[0] {
      var s, t := a[1..], b[1..];
      assert a == [a[0]] + s && b == [a[0]] + t;
      LexLessAt(s, t);
      SameFirst(a[0], s, t);
      if k: nat :| IsLessAt(s, t, k) {
        LessBehind(a[0], s, t, k);
      }
      if k: nat :| IsLessAt(a, b, k) {
        LessBehind(a[0], s, t, k - 1);
      }
    } else if a[0] < b[0] {
      assert IsLessAt(a, b, 0);
    } else if k: nat :| IsLessAt(a, b, k) {
      if k > 0 {
        SameBefore(a, b, k);
      }
    }
  }

  lemma LexTotal(a: string, b: string)
    ensures LexLeq(a, b) || LexLeq(b, a)
  {}

  lemma {:induction false} LexAntisymmetric(a: string, b: string)
    requires LexLeq(a, b) && LexLeq(b, a)
    ensures a == b
  {
    if a != [] && b != [] {
      LexAntisymmetric(a[1..], b[1..]);
      assert a == [a[0]] + a[1..] && b == [b[0]] + b[1..];
    }
  }

  lemma LexTransitive(a: string, b: string, c: string)
    requires LexLeq(a, b) && LexLeq(b, c)
    ensures LexLeq(a, c)
  {}

  lemma LexLessTransitive(a: string, b: string, c: string)
    requires LexLeq(a, b) && LexLess(b, c)
    ensures LexLess(a, c)
  {
    LexTransitive(a, b, c);
    if a == c {
      LexAntisymmetric(a, b);
    }
  }

  lemma LexLessLeq(a: string, b: string, c: string)
    requires LexLess(a, b) && LexLeq(b, c)
    ensures LexLess(a, c)
  {
    LexTransitive(a, b, c);
    if a == c {
      LexAntisymmetric(a, b);
    }
  }

  ghost predicate Sorted(ss: seq<string>) {
    forall i, j | 0 <= i < j < |ss| :: LexLeq(ss[i], ss[j])
  }

  function Insert(x: string, ss: seq<string>): (r: seq<string>)
    requires Sorted(ss)
    ensures Sorted(r) && multiset(r) == multiset([x]) + multiset(ss)
  {
    if ss == [] then [x]
    else
      assert ss == [ss[0]] + ss[1..];
      if LexLeq(x, ss[0]) then
        assert forall j | 0 <= j < |ss| :: LexLeq(x, ss[j]) by {
          forall j | 0 < j < |ss| ensures LexLeq(x, ss[j]) {
            LexTransitive(x, ss[0], ss[j]);
          }
        }
        [x] + ss
      else
        var tail := Insert(x, ss[1..]);
        assert forall j | 0 <= j < |tail| :: LexLeq(ss[0], tail[j]) by {
          forall j | 0 <= j < |tail| ensures LexLeq(ss[0], tail[j]) {
            LexTotal(x, ss[0]);
            assert tail[j] in multiset(tail);
            assert tail[j] == x || tail[j] in ss[1..];
          }
        }
        [ss[0]] + tail
  }

  /** What sort.Strings leaves in the slice: the same strings, in order. */
  function SortStrings(ss: seq<string>): (r: seq<string>)
    ensures Sorted(r) && multiset(r) == multiset(ss)
  {
    if ss == [] then []
    else
      assert ss == [ss[0]] + ss[1..];
      Insert(ss[0], SortStrings(ss[1..]))
  }

  lemma HeadIsLeast(ss: seq<string>, x: string)
    requires Sorted(ss) && x in multiset(ss)
    ensures LexLeq(ss[0], x)
  {
    var i :| 0 <= i < |ss| && ss[i] == x;
    if i == 0 {
      LexTotal(x, x);
    }
  }

  lemma RemoveHead(ss: seq<string>)
    requires ss != []
    ensures ss == [ss[0]] + ss[1..]
    ensures ss[0] in multiset(ss)
    ensures multiset(ss[1..]) == multiset(ss) - multiset{ss[0]}
    ensures Sorted(ss) ==> Sorted(ss[1..])
  {}

  /** A multiset of strings has only one sorted arrangement. */
  lemma {:induction false} SortedUnique(a: seq<string>, b: seq<string>)
    requires Sorted(a) && Sorted(b) && multiset(a) == multiset(b)
    ensures a == b
  {
    if a == [] || b == [] {
      assert |multiset(a)| == |a| && |multiset(b)| == |b|;
    } else {
      RemoveHead(a);
      RemoveHead(b);
      HeadIsLeast(a, b[0]);
      HeadIsLeast(b, a[0]);
      LexAntisymmetric(a[0], b[0]);
      SortedUnique(a[1..], b[1..]);
    }
  }

  lemma SortPermutation(a: seq<string>, b: seq<string>)
    requires multiset(a) == multiset(b)
    ensures SortStrings(a) == SortStrings(b)
  {
    SortedUnique(SortStrings(a), SortStrings(b));
  }
}
