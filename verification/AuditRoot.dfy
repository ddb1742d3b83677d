/** The audit root: one hash over all ballot commitments of a poll, in sorted order. */
module AuditRoot {
  import opened Hashing
  import opened StringOrder

  function Concat(ss: seq<string>): string {
    if ss == [] then "" else ss[0] + Concat(ss[1..])
  }

  /** The root anyone can recompute: sort the commitments, concatenate, hash. */
  function RootOf(h: Hash, commitments: seq<string>): string {
    h(Concat(SortStrings(commitments)))
  }

  lemma {:induction false} ConcatSnoc(ss: seq<string>, s: string)
    ensures Concat(ss + [s]) == Concat(ss) + s
  {
    if ss == [] {
      assert [s][1..] == [];
    } else {
      ConcatSnoc(ss[1..], s);
      assert (ss + [s])[1..] == ss[1..] + [s];
    }
  }

  /** computeAuditRoot: the sorted commitments are written to the hash one by one. */
  method ComputeAuditRoot(h: Hash, commitments: seq<string>) returns (root: string)
    ensures root == RootOf(h, commitments)
  {
    if |commitments| == 0 {
      return h("");
    }
    var sorted := SortStrings(commitments);
    var written := "";
    for i := 0 to |sorted|
      invariant written == Concat(sorted[..i])
    {
      ConcatSnoc(sorted[..i], sorted[i]);
      assert sorted[..i + 1] == sorted[..i] + [sorted[i]];
      written := written + sorted[i];
    }
    assert sorted[..|sorted|] == sorted;
    return h(written);
  }

  /** The order in which the ballots are listed does not matter. */
  lemma RootIgnoresOrder(h: Hash, a: seq<string>, b: seq<string>)
    requires multiset(a) == multiset(b)
    ensures RootOf(h, a) == RootOf(h, b)
  {
    SortPermutation(a, b);
  }

  lemma {:induction false} ConcatLength(ss: seq<string>)
    requires AllDigests(ss)
    ensures |Concat(ss)| == DIGEST_LENGTH * |ss|
  {
    if ss == [] {
    } else {
      ConcatLength(ss[1..]);
    }
  }

  lemma {:induction false} ConcatInjective(a: seq<string>, b: seq<string>)
    requires AllDigests(a) && AllDigests(b)
    requires Concat(a) == Concat(b)
    ensures a == b
  {
    if a == [] || b == [] {
      ConcatLength(a);
      ConcatLength(b);
    } else {
      assert a[0] == Concat(a)[..DIGEST_LENGTH] && b[0] == Concat(b)[..DIGEST_LENGTH];
      assert Concat(a[1..]) == Concat(a)[DIGEST_LENGTH..] && Concat(b[1..]) == Concat(b)[DIGEST_LENGTH..];
      ConcatInjective(a[1..], b[1..]);
      assert a == [a[0]] + a[1..] && b == [b[0]] + b[1..];
    }
  }

  /** The two strings hashed for two lists of commitments. */
  function RootPreimages(a: seq<string>, b: seq<string>): (string, string) {
    (Concat(SortStrings(a)), Concat(SortStrings(b)))
  }

  lemma SortKeepsDigests(ss: seq<string>)
    requires AllDigests(ss)
    ensures AllDigests(SortStrings(ss))
  {
    var sorted := SortStrings(ss);
    forall i | 0 <= i < |sorted| ensures |sorted[i]| == DIGEST_LENGTH {
      assert sorted[i] in multiset(sorted);
      assert sorted[i] in multiset(ss);
    }
  }

  lemma {:induction false} ConcatByPieces(ss: seq<string>, text: string)
    requires AllDigests(ss) && |text| == DIGEST_LENGTH * |ss|
    requires forall i | 0 <= i < |ss| :: text[DIGEST_LENGTH * i..DIGEST_LENGTH * (i + 1)] == ss[i]
    ensures Concat(ss) == text
  {
    if ss == [] {
    } else {
      var rest := text[DIGEST_LENGTH..];
      forall i | 0 <= i < |ss| - 1 ensures rest[DIGEST_LENGTH * i..DIGEST_LENGTH * (i + 1)] == ss[1..][i] {
        assert text[DIGEST_LENGTH * (i + 1)..DIGEST_LENGTH * (i + 2)] == ss[i + 1];
      }
      ConcatByPieces(ss[1..], rest);
      assert text[..DIGEST_LENGTH] == text[DIGEST_LENGTH * 0..DIGEST_LENGTH * (0 + 1)] == ss[0];
      assert text == text[..DIGEST_LENGTH] + rest;
    }
  }

  /** What an auditor does by hand: put the commitments in order and write them one after the other; the digest of
      that text is the root. */
  lemma RootByHand(h: Hash, commitments: seq<string>, sorted: seq<string>, text: string)
    requires AllDigests(commitments) && multiset(sorted) == multiset(commitments)
    requires forall i, j | 0 <= i < j < |sorted| :: !LexLess(sorted[j], sorted[i])
    requires |text| == DIGEST_LENGTH * |sorted|
    requires forall i | 0 <= i < |sorted| :: text[DIGEST_LENGTH * i..DIGEST_LENGTH * (i + 1)] == sorted[i]
    ensures RootOf(h, commitments) == h(text)
  {
    forall i, j | 0 <= i < j < |sorted| ensures LexLeq(sorted[i], sorted[j]) {
      LexTotal(sorted[i], sorted[j]);
    }
    SortedUnique(sorted, SortStrings(commitments));
    SortKeepsDigests(commitments);
    ConcatByPieces(sorted, text);
  }

  /** The root commits to the multiset of commitments: two lists, of whatever lengths, have the
      same root exactly when they are rearrangements of each other, or the strings hashed for
      them collide. */
  lemma RootBinds(h: Hash, a: seq<string>, b: seq<string>)
    requires AllDigests(a) && AllDigests(b)
    ensures multiset(a) == multiset(b) ==> RootOf(h, a) == RootOf(h, b)
    ensures RootOf(h, a) == RootOf(h, b) ==> multiset(a) == multiset(b) || IsCollision(h, RootPreimages(a, b))
  {
    if multiset(a) == multiset(b) {
      RootIgnoresOrder(h, a, b);
    }
    SortKeepsDigests(a);
    SortKeepsDigests(b);
    if Concat(SortStrings(a)) == Concat(SortStrings(b)) {
      ConcatInjective(SortStrings(a), SortStrings(b));
    }
  }
}
