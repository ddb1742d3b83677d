/** When two ballot sets have the same Merkle root: exactly when repeating last nodes makes the same
    full tree of them. */
module MerkleRoots {
  import opened Hashing
  import opened Sequences
  import opened Merkle

  /** The string a node of the tree over commitments is the digest of. */
  function Hashed(h: Hash, commitments: seq<string>, k: nat, i: nat): string
    requires i < Width(|commitments|, k)
  {
    if k == 0 then commitments[i] else ChildrenOf(h, Leaves(h, commitments), k, i)
  }

  /** Walks two trees down together, towards the first place where they differ, until the strings
      hashed differ. */
  ghost function PartingPair(h: Hash, a: seq<string>, k: nat, i: nat, b: seq<string>, l: nat, j: nat): (string, string)
    requires i < Width(|a|, k) && j < Width(|b|, l)
    decreases k
  {
    if Hashed(h, a, k, i) != Hashed(h, b, l, j) || k == 0 || l == 0 then (Hashed(h, a, k, i), Hashed(h, b, l, j))
    else if k != l || Spread(a, k - 1, 2 * i) != Spread(b, l - 1, 2 * j) then
      PartingPair(h, a, k - 1, 2 * i, b, l - 1, 2 * j)
    else
      PartingPair(h, a, k - 1, RightChild(i, Width(|a|, k - 1)), b, l - 1, RightChild(j, Width(|b|, l - 1)))
  }

  lemma HashedWidth(h: Hash, commitments: seq<string>, k: nat, i: nat)
    requires i < Width(|commitments|, k) && AllDigests(commitments)
    ensures |Hashed(h, commitments, k, i)| == if k == 0 then DIGEST_LENGTH else 2 * DIGEST_LENGTH
    ensures NodeAt(h, Leaves(h, commitments), k, i) == h(Hashed(h, commitments, k, i))
  {
    if k > 0 {
      NodeIsDigest(h, Leaves(h, commitments), k - 1, 2 * i);
      NodeIsDigest(h, Leaves(h, commitments), k - 1, RightChild(i, Width(|commitments|, k - 1)));
    }
  }

  /** Nodes that hash the same string have the same children. */
  lemma SameChildren(h: Hash, a: seq<string>, k: nat, i: nat, b: seq<string>, l: nat, j: nat)
    requires k > 0 && l > 0 && i < Width(|a|, k) && j < Width(|b|, l) && AllDigests(a) && AllDigests(b)
    requires Hashed(h, a, k, i) == Hashed(h, b, l, j)
    ensures NodeAt(h, Leaves(h, a), k - 1, 2 * i) == NodeAt(h, Leaves(h, b), l - 1, 2 * j)
    ensures NodeAt(h, Leaves(h, a), k - 1, RightChild(i, Width(|a|, k - 1)))
            == NodeAt(h, Leaves(h, b), l - 1, RightChild(j, Width(|b|, l - 1)))
  {
    var leftA, leftB := NodeAt(h, Leaves(h, a), k - 1, 2 * i), NodeAt(h, Leaves(h, b), l - 1, 2 * j);
    NodeIsDigest(h, Leaves(h, a), k - 1, 2 * i);
    NodeIsDigest(h, Leaves(h, b), l - 1, 2 * j);
    HalvesOf(leftA, NodeAt(h, Leaves(h, a), k - 1, RightChild(i, Width(|a|, k - 1))));
    HalvesOf(leftB, NodeAt(h, Leaves(h, b), l - 1, RightChild(j, Width(|b|, l - 1))));
  }

  lemma {:induction false} NodesBind(h: Hash, a: seq<string>, k: nat, i: nat, b: seq<string>, l: nat, j: nat)
    requires i < Width(|a|, k) && j < Width(|b|, l) && AllDigests(a) && AllDigests(b)
    requires NodeAt(h, Leaves(h, a), k, i) == NodeAt(h, Leaves(h, b), l, j)
    ensures || IsCollision(h, PartingPair(h, a, k, i, b, l, j))
            || (k == l && Spread(a, k, i) == Spread(b, l, j))
    decreases k
  {
    HashedWidth(h, a, k, i);
    HashedWidth(h, b, l, j);
    if k > 0 && l > 0 && Hashed(h, a, k, i) == Hashed(h, b, l, j) {
      SameChildren(h, a, k, i, b, l, j);
      NodesBind(h, a, k - 1, 2 * i, b, l - 1, 2 * j);
      NodesBind(h, a, k - 1, RightChild(i, Width(|a|, k - 1)), b, l - 1, RightChild(j, Width(|b|, l - 1)));
    }
  }

  lemma SpreadHalves(a: seq<string>, i: nat, b: seq<string>, j: nat, k: nat)
    requires k > 0 && i < Width(|a|, k) && j < Width(|b|, k)
    requires Spread(a, k, i) == Spread(b, k, j)
    ensures Spread(a, k - 1, 2 * i) == Spread(b, k - 1, 2 * j)
    ensures Spread(a, k - 1, RightChild(i, Width(|a|, k - 1))) == Spread(b, k - 1, RightChild(j, Width(|b|, k - 1)))
  {
    SpreadLength(a, k - 1, 2 * i);
    SpreadLength(b, k - 1, 2 * j);
    HalvesOf(Spread(a, k - 1, 2 * i), Spread(a, k - 1, RightChild(i, Width(|a|, k - 1))));
    HalvesOf(Spread(b, k - 1, 2 * j), Spread(b, k - 1, RightChild(j, Width(|b|, k - 1))));
  }

  lemma {:induction false} SpreadDecidesNode(h: Hash, a: seq<string>, i: nat, b: seq<string>, j: nat, k: nat)
    requires i < Width(|a|, k) && j < Width(|b|, k)
    requires Spread(a, k, i) == Spread(b, k, j)
    ensures NodeAt(h, Leaves(h, a), k, i) == NodeAt(h, Leaves(h, b), k, j)
    decreases k
  {
    if k == 0 {
      assert Spread(a, k, i)[0] == Spread(b, k, j)[0];
    } else {
      SpreadHalves(a, i, b, j, k);
      SpreadDecidesNode(h, a, 2 * i, b, 2 * j, k - 1);
      SpreadDecidesNode(h, a, RightChild(i, Width(|a|, k - 1)), b, RightChild(j, Width(|b|, k - 1)), k - 1);
    }
  }

  lemma {:induction false} PowersDiffer(k: nat, l: nat)
    ensures Pow2(k) == Pow2(l) ==> k == l
  {
    if k > 0 && l > 0 {
      PowersDiffer(k - 1, l - 1);
    }
  }

  ghost function RootCollision(h: Hash, a: seq<string>, b: seq<string>): (string, string) {
    if a == [] && b == [] then ("", "")
    else if a == [] then
      RootLevelHasOneNode(|b|);
      ("", Hashed(h, b, Height(|b|), 0))
    else if b == [] then
      RootLevelHasOneNode(|a|);
      (Hashed(h, a, Height(|a|), 0), "")
    else
      RootLevelHasOneNode(|a|);
      RootLevelHasOneNode(|b|);
      PartingPair(h, a, Height(|a|), 0, b, Height(|b|), 0)
  }

  /** The root of no leaves is the digest of a string that no node hashes. */
  lemma RootOfSome(h: Hash, commitments: seq<string>)
    requires commitments != [] && AllDigests(commitments)
    ensures Width(|commitments|, Height(|commitments|)) == 1
    ensures var hashed := Hashed(h, commitments, Height(|commitments|), 0);
            hashed != "" && MerkleRoot(h, Leaves(h, commitments)) == h(hashed)
  {
    RootLevelHasOneNode(|commitments|);
    HashedWidth(h, commitments, Height(|commitments|), 0);
  }

  lemma SomeRootsAgree(h: Hash, a: seq<string>, b: seq<string>)
    requires a != [] && b != [] && AllDigests(a) && AllDigests(b)
    ensures Padded(a) == Padded(b) ==> MerkleRoot(h, Leaves(h, a)) == MerkleRoot(h, Leaves(h, b))
    ensures MerkleRoot(h, Leaves(h, a)) == MerkleRoot(h, Leaves(h, b)) ==>
              Padded(a) == Padded(b) || IsCollision(h, RootCollision(h, a, b))
  {
    RootLevelHasOneNode(|a|);
    RootLevelHasOneNode(|b|);
    if Padded(a) == Padded(b) {
      PaddedStartsWithAll(a);
      PaddedStartsWithAll(b);
      PowersDiffer(Height(|a|), Height(|b|));
      SpreadDecidesNode(h, a, 0, b, 0, Height(|a|));
    }
    if MerkleRoot(h, Leaves(h, a)) == MerkleRoot(h, Leaves(h, b)) {
      NodesBind(h, a, Height(|a|), 0, b, Height(|b|), 0);
    }
  }

  /** Two sorted ballot sets, of whatever sizes, have the same Merkle root exactly when they pad to the
      same full tree, or RootCollision is a collision. */
  lemma RootsAgreeWhenPaddedAgree(h: Hash, a: seq<string>, b: seq<string>)
    requires AllDigests(a) && AllDigests(b)
    ensures Padded(a) == Padded(b) ==> MerkleRoot(h, Leaves(h, a)) == MerkleRoot(h, Leaves(h, b))
    ensures MerkleRoot(h, Leaves(h, a)) == MerkleRoot(h, Leaves(h, b)) ==>
              Padded(a) == Padded(b) || IsCollision(h, RootCollision(h, a, b))
  {
    if a != [] {
      RootOfSome(h, a);
      PaddedStartsWithAll(a);
    }
    if b != [] {
      RootOfSome(h, b);
      PaddedStartsWithAll(b);
    }
    if a != [] && b != [] {
      SomeRootsAgree(h, a, b);
    }
  }

  // ---------- sets without repetitions ----------

  ghost predicate NoRepeats(commitments: seq<string>) {
    forall i, j | 0 <= i < j < |commitments| :: commitments[i] != commitments[j]
  }

  lemma ShorterIsAll(a: seq<string>, b: seq<string>)
    requires NoRepeats(b) && Padded(a) == Padded(b) && |a| <= |b|
    ensures a == b
  {
    if a == [] {
      if b != [] {
        PaddedStartsWithAll(b);
      }
    } else {
      PaddedStartsWithAll(a);
      PaddedStartsWithAll(b);
      assert a == b[..|a|];
      if |a| < |b| {
        RootLevelHasOneNode(|a|);
        assert Padded(a)[|a|] == b[|a|];
        SpreadHasMembers(a, Height(|a|), 0, b[|a|]);
      }
    }
  }

  /** The root of a ballot set in which no commitment repeats tells it from every other such set,
      whatever their sizes, unless RootCollision is a collision. */
  lemma RootBindsDistinct(h: Hash, a: seq<string>, b: seq<string>)
    requires AllDigests(a) && AllDigests(b) && NoRepeats(a) && NoRepeats(b)
    requires MerkleRoot(h, Leaves(h, a)) == MerkleRoot(h, Leaves(h, b))
    ensures a == b || IsCollision(h, RootCollision(h, a, b))
  {
    RootsAgreeWhenPaddedAgree(h, a, b);
    if Padded(a) == Padded(b) {
      if |a| <= |b| {
        ShorterIsAll(a, b);
      } else {
        ShorterIsAll(b, a);
      }
    }
  }

  /** Sets of one size pad to the same tree only if they are equal, repetitions or not. */
  lemma SameSizeSamePadding(a: seq<string>, b: seq<string>)
    requires |a| == |b| && Padded(a) == Padded(b)
    ensures a == b
  {
    if a != [] {
      PaddedStartsWithAll(a);
      PaddedStartsWithAll(b);
    }
  }
}
