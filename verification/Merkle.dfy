/** Merkle inclusion proofs over the sorted ballot commitments of a poll.

    The service builds the tree in loops, level by level, repeating the last node of an odd
    level. The tree is specified here by addresses: node i of level k hashes nodes 2i and
    2i+1 of the level below, where an index past the end means the last node. */
module Merkle {
  import opened Hashing
  import opened Sequences

  /** Which side of the running hash a sibling stands on. */
  datatype Side = Left | Right

  datatype ProofNode = ProofNode(hash: string, direction: Side)

  // ---------- the shape of the tree ----------

  /** How many nodes level k has above n leaves. */
  function Width(n: nat, k: nat): nat {
    if k == 0 then n else (Width(n, k - 1) + 1) / 2
  }

  function Height(n: nat): nat {
    if n <= 1 then 0 else 1 + Height((n + 1) / 2)
  }

  function Pow2(k: nat): nat {
    if k == 0 then 1 else 2 * Pow2(k - 1)
  }

  /** The node of level k above leaf i. */
  function Ancestor(i: nat, k: nat): nat {
    if k == 0 then i else Ancestor(i, k - 1) / 2
  }

  /** The height is the number of halvings: 2^(height - 1) < n <= 2^height. */
  lemma {:induction false} HeightIsTight(n: nat)
    ensures n <= Pow2(Height(n))
    ensures n > 1 ==> Pow2(Height(n) - 1) < n
  {
    if n <= 1 {
    } else {
      HeightIsTight((n + 1) / 2);
    }
  }

  lemma {:induction false} WidthStep(n: nat, k: nat)
    ensures Width((n + 1) / 2, k) == Width(n, k + 1)
  {
    if k == 0 {
    } else {
      WidthStep(n, k - 1);
    }
  }

  lemma {:induction false} RootLevelHasOneNode(n: nat)
    requires n > 0
    ensures Width(n, Height(n)) == 1
  {
    if n <= 1 {
    } else {
      RootLevelHasOneNode((n + 1) / 2);
      WidthStep(n, Height(n) - 1);
    }
  }

  lemma {:induction false} AncestorInLevel(n: nat, i: nat, k: nat)
    requires i < n
    ensures Ancestor(i, k) < Width(n, k)
  {
    if k == 0 {
    } else {
      AncestorInLevel(n, i, k - 1);
    }
  }

  // ---------- the tree ----------

  /** The right child of node i, in a level of the given width. */
  function RightChild(i: nat, width: nat): nat
    requires 2 * i < width
  {
    if 2 * i + 1 < width then 2 * i + 1 else 2 * i
  }

  function NodeAt(h: Hash, leaves: seq<string>, k: nat, i: nat): string
    requires i < Width(|leaves|, k)
    decreases k, 1
  {
    if k == 0 then leaves[i] else h(ChildrenOf(h, leaves, k, i))
  }

  /** The string that node i of level k hashes. */
  function ChildrenOf(h: Hash, leaves: seq<string>, k: nat, i: nat): string
    requires k > 0 && i < Width(|leaves|, k)
    decreases k, 0
  {
    NodeAt(h, leaves, k - 1, 2 * i) + NodeAt(h, leaves, k - 1, RightChild(i, Width(|leaves|, k - 1)))
  }

  function MerkleRoot(h: Hash, leaves: seq<string>): string {
    if leaves == [] then h("")
    else
      RootLevelHasOneNode(|leaves|);
      NodeAt(h, leaves, Height(|leaves|), 0)
  }

  function Sibling(i: nat): nat {
    if i % 2 == 0 then i + 1 else i - 1
  }

  /** The step of a proof for leaf t that stands in level k. */
  function PathNode(h: Hash, leaves: seq<string>, t: nat, k: nat): ProofNode
    requires t < |leaves|
  {
    AncestorInLevel(|leaves|, t, k);
    var a := Ancestor(t, k);
    if a % 2 == 1 then ProofNode(NodeAt(h, leaves, k, a - 1), Left)
    else ProofNode(NodeAt(h, leaves, k, RightChild(a / 2, Width(|leaves|, k))), Right)
  }

  function MerklePath(h: Hash, leaves: seq<string>, t: nat): (path: seq<ProofNode>)
    requires leaves != [] ==> t < |leaves|
    ensures |path| == Height(|leaves|)
  {
    seq(Height(|leaves|), k requires 0 <= k && t < |leaves| => PathNode(h, leaves, t, k))
  }

  // ---------- the loops of the service ----------

  ghost predicate IsScan(h: Hash, padded: seq<string>, next: seq<string>) {
    && 2 * |next| == |padded|
    && forall j | 0 <= j < |next| :: next[j] == h(padded[2 * j] + padded[2 * j + 1])
  }

  /** The pass over one padded level. The index of the target is halved as soon as its pair has been
      seen, while the pass goes on; no later pair is taken for the target's again. */
  method ScanLevel(h: Hash, current: seq<string>, targetIdx: nat, lower: seq<ProofNode>)
    returns (next: seq<string>, idx: nat, path: seq<ProofNode>)
    requires |current| % 2 == 0 && targetIdx < |current|
    ensures IsScan(h, current, next)
    ensures idx == targetIdx / 2
    ensures Sibling(targetIdx) < |current|
    ensures path == lower + [ProofNode(current[Sibling(targetIdx)],
                                       if Sibling(targetIdx) < targetIdx then Left else Right)]
  {
    next, idx, path := [], targetIdx, lower;
    var i := 0;
    while i < |current|
      invariant i == 2 * |next| <= |current|
      invariant forall j | 0 <= j < |next| :: next[j] == h(current[2 * j] + current[2 * j + 1])
      invariant if i <= targetIdx then idx == targetIdx && path == lower
                else idx == targetIdx / 2 && path == lower + [ProofNode(current[Sibling(targetIdx)],
                                                              if Sibling(targetIdx) < targetIdx then Left else Right)]
    {
      var parent := h(current[i] + current[i + 1]);
      next := next + [parent];
      var siblingIdx := if idx % 2 == 0 then idx + 1 else idx - 1;
      if i == idx || i + 1 == idx {
        var sibling := current[siblingIdx];
        var dir := Right;
        if siblingIdx < idx {
          dir := Left;
        }
        path := path + [ProofNode(sibling, dir)];
        idx := idx / 2;
      }
      i := i + 2;
    }
  }

  /** The first nodes of level k, as far as they have been computed. */
  ghost predicate LevelSoFar(h: Hash, leaves: seq<string>, k: nat, level: seq<string>) {
    && |level| <= Width(|leaves|, k)
    && forall i | 0 <= i < |level| :: level[i] == NodeAt(h, leaves, k, i)
  }

  /** The first steps of the path for leaf t. */
  ghost predicate PathSoFar(h: Hash, leaves: seq<string>, t: nat, path: seq<ProofNode>)
    requires t < |leaves|
  {
    forall j | 0 <= j < |path| :: path[j] == PathNode(h, leaves, t, j)
  }

  lemma ExtendPath(h: Hash, leaves: seq<string>, t: nat, path: seq<ProofNode>)
    requires t < |leaves| && PathSoFar(h, leaves, t, path)
    ensures PathSoFar(h, leaves, t, path + [PathNode(h, leaves, t, |path|)])
  {}

  ghost predicate IsPadded(level: seq<string>, padded: seq<string>) {
    && |level| > 0
    && padded == if |level| % 2 != 0 then level + [level[|level| - 1]] else level
  }

  /** The pairs of a padded level hash to the nodes of the level above. */
  lemma NextLevel(h: Hash, leaves: seq<string>, k: nat, level: seq<string>, padded: seq<string>, next: seq<string>)
    requires LevelSoFar(h, leaves, k, level) && |level| == Width(|leaves|, k) && IsPadded(level, padded)
    requires IsScan(h, padded, next)
    ensures |next| == (|level| + 1) / 2 == Width(|leaves|, k + 1)
    ensures LevelSoFar(h, leaves, k + 1, next)
  {
    forall i | 0 <= i < |next| ensures next[i] == NodeAt(h, leaves, k + 1, i) {
      assert padded[2 * i] == NodeAt(h, leaves, k, 2 * i);
      assert padded[2 * i + 1] == NodeAt(h, leaves, k, RightChild(i, |level|));
    }
  }

  lemma PaddedSibling(h: Hash, leaves: seq<string>, k: nat, level: seq<string>, padded: seq<string>, a: nat)
    requires LevelSoFar(h, leaves, k, level) && |level| == Width(|leaves|, k) && IsPadded(level, padded)
    requires a < |level|
    ensures Sibling(a) < |padded|
    ensures a % 2 == 1 ==> padded[Sibling(a)] == NodeAt(h, leaves, k, a - 1)
    ensures a % 2 == 0 ==> padded[Sibling(a)] == NodeAt(h, leaves, k, RightChild(a / 2, |level|))
  {}

  /** The node beside the target's ancestor is the next step of its path. */
  lemma SiblingIsPathNode(h: Hash, leaves: seq<string>, t: nat, level: seq<string>, padded: seq<string>, k: nat)
    requires t < |leaves|
    requires LevelSoFar(h, leaves, k, level) && |level| == Width(|leaves|, k) && IsPadded(level, padded)
    ensures var a := Ancestor(t, k);
            && Sibling(a) < |padded|
            && ProofNode(padded[Sibling(a)], if Sibling(a) < a then Left else Right) == PathNode(h, leaves, t, k)
  {
    AncestorInLevel(|leaves|, t, k);
    PaddedSibling(h, leaves, k, level, padded, Ancestor(t, k));
  }

  /** What a pass over a level brings. */
  lemma OneLevelUp(h: Hash, leaves: seq<string>, t: nat, k: nat, level: seq<string>, padded: seq<string>,
                   next: seq<string>, lower: seq<ProofNode>)
    requires t < |leaves| && PathSoFar(h, leaves, t, lower) && |lower| == k
    requires LevelSoFar(h, leaves, k, level) && |level| == Width(|leaves|, k) && IsPadded(level, padded)
    requires IsScan(h, padded, next)
    ensures LevelSoFar(h, leaves, k + 1, next) && |next| == Width(|leaves|, k + 1)
    ensures |level| > 1 ==> 0 < |next| < |level| && Height(|level|) == 1 + Height(|next|)
    ensures var a := Ancestor(t, k);
            && Sibling(a) < |padded|
            && Ancestor(t, k + 1) == a / 2
            && PathSoFar(h, leaves, t, lower + [ProofNode(padded[Sibling(a)], if Sibling(a) < a then Left else Right)])
  {
    NextLevel(h, leaves, k, level, padded, next);
    SiblingIsPathNode(h, leaves, t, level, padded, k);
    ExtendPath(h, leaves, t, lower);
  }

  /** buildMerkleProof: its loops give the root and the path of the tree above. */
  method BuildMerkleProof(h: Hash, leaves: seq<string>, targetIdx: nat)
    returns (root: string, path: seq<ProofNode>)
    requires leaves != [] ==> targetIdx < |leaves|
    ensures root == MerkleRoot(h, leaves)
    ensures path == MerklePath(h, leaves, targetIdx)
  {
    path := [];
    if |leaves| == 0 {
      return h(""), [];
    }
    if |leaves| == 1 {
      return leaves[0], [];
    }
    var current := leaves;
    var idx: nat := targetIdx;
    ghost var k: nat := 0;
    while |current| > 1
      invariant LevelSoFar(h, leaves, k, current) && 0 < |current| == Width(|leaves|, k)
      invariant k + Height(|current|) == Height(|leaves|)
      invariant idx == Ancestor(targetIdx, k)
      invariant PathSoFar(h, leaves, targetIdx, path) && |path| == k
      decreases |current|
    {
      ghost var level, lower := current, path;
      AncestorInLevel(|leaves|, targetIdx, k);
      if |current| % 2 != 0 {
        current := current + [current[|current| - 1]];
      }
      var next;
      next, idx, path := ScanLevel(h, current, idx, path);
      OneLevelUp(h, leaves, targetIdx, k, level, current, next, lower);
      current := next;
      k := k + 1;
    }
    RootLevelHasOneNode(|leaves|);
    return current[0], path;
  }

  // ---------- checking a proof ----------

  /** One step up: the sibling goes on the side its direction names. */
  function Join(acc: string, node: ProofNode): string {
    if node.direction == Left then node.hash + acc else acc + node.hash
  }

  /** What a path makes of a leaf. */
  function Fold(h: Hash, leaf: string, path: seq<ProofNode>): string {
    if path == [] then leaf
    else h(Join(Fold(h, leaf, path[..|path| - 1]), path[|path| - 1]))
  }

  /** The check a voter makes: hash the commitment, climb the path, compare with the root. */
  predicate Accepts(h: Hash, root: string, commitment: string, path: seq<ProofNode>) {
    Fold(h, h(commitment), path) == root
  }

  /** The leaf below node i that a path of directions leads down to; from the root (i = 0)
      the directions are the binary digits of the leaf's position, lowest first. */
  function LeafBelow(i: nat, path: seq<ProofNode>): nat
    decreases |path|
  {
    if path == [] then i
    else
      var last := |path| - 1;
      LeafBelow(2 * i + (if path[last].direction == Left then 1 else 0), path[..last])
  }

  ghost predicate DigestSiblings(path: seq<ProofNode>) {
    forall i | 0 <= i < |path| :: |path[i].hash| == DIGEST_LENGTH
  }

  /** Joined with its sibling, an ancestor of leaf t gives the string that its parent hashes. */
  lemma StepUp(h: Hash, leaves: seq<string>, t: nat, k: nat, acc: string)
    requires t < |leaves| && Ancestor(t, k) < Width(|leaves|, k)
    requires acc == NodeAt(h, leaves, k, Ancestor(t, k))
    ensures Ancestor(t, k + 1) < Width(|leaves|, k + 1)
    ensures Join(acc, PathNode(h, leaves, t, k)) == ChildrenOf(h, leaves, k + 1, Ancestor(t, k + 1))
    ensures Ancestor(t, k) == 2 * Ancestor(t, k + 1) + (if PathNode(h, leaves, t, k).direction == Left then 1 else 0)
  {}

  /** The first steps of the path for leaf t lead from its hash to its ancestor in the level
      they reach, and their directions lead back down. */
  lemma {:induction false} PathClimbs(h: Hash, leaves: seq<string>, t: nat, path: seq<ProofNode>)
    requires t < |leaves| && PathSoFar(h, leaves, t, path)
    ensures Ancestor(t, |path|) < Width(|leaves|, |path|)
    ensures Fold(h, leaves[t], path) == NodeAt(h, leaves, |path|, Ancestor(t, |path|))
    ensures LeafBelow(Ancestor(t, |path|), path) == t
    decreases |path|
  {
    AncestorInLevel(|leaves|, t, |path|);
    if path == [] {
    } else {
      var last := |path| - 1;
      PathClimbs(h, leaves, t, path[..last]);
      StepUp(h, leaves, t, last, Fold(h, leaves[t], path[..last]));
    }
  }

  lemma PathReachesRoot(h: Hash, leaves: seq<string>, t: nat, path: seq<ProofNode>)
    requires t < |leaves| && PathSoFar(h, leaves, t, path) && |path| == Height(|leaves|)
    ensures Fold(h, leaves[t], path) == MerkleRoot(h, leaves) && LeafBelow(0, path) == t
  {
    PathClimbs(h, leaves, t, path);
    RootLevelHasOneNode(|leaves|);
  }

  lemma PathHasDigests(h: Hash, leaves: seq<string>, t: nat, path: seq<ProofNode>)
    requires t < |leaves| && PathSoFar(h, leaves, t, path) && AllDigests(leaves)
    ensures DigestSiblings(path)
  {}

  /** Completeness and shape: the path built for leaf t has one sibling per level, is accepted
      from that leaf, and its directions spell t. */
  lemma PathLeadsToRoot(h: Hash, leaves: seq<string>, t: nat)
    requires t < |leaves|
    ensures var path := MerklePath(h, leaves, t);
            && Fold(h, leaves[t], path) == MerkleRoot(h, leaves)
            && |leaves| <= Pow2(|path|) && (|path| > 0 ==> Pow2(|path| - 1) < |leaves|)
            && LeafBelow(0, path) == t
            && (AllDigests(leaves) ==> DigestSiblings(path))
  {
    HeightIsTight(|leaves|);
    PathReachesRoot(h, leaves, t, MerklePath(h, leaves, t));
    if AllDigests(leaves) {
      PathHasDigests(h, leaves, t, MerklePath(h, leaves, t));
    }
  }

  // ---------- the full tree ----------

  /** The commitments below node i of level k, with the repetitions the tree makes. */
  function Spread(commitments: seq<string>, k: nat, i: nat): seq<string>
    requires i < Width(|commitments|, k)
  {
    if k == 0 then [commitments[i]]
    else
      Spread(commitments, k - 1, 2 * i)
      + Spread(commitments, k - 1, RightChild(i, Width(|commitments|, k - 1)))
  }

  /** The commitments as the full tree has them. */
  function Padded(commitments: seq<string>): seq<string> {
    if commitments == [] then []
    else
      RootLevelHasOneNode(|commitments|);
      Spread(commitments, Height(|commitments|), 0)
  }

  lemma {:induction false} SpreadLength(commitments: seq<string>, k: nat, i: nat)
    requires i < Width(|commitments|, k)
    ensures |Spread(commitments, k, i)| == Pow2(k)
  {
    if k == 0 {
    } else {
      SpreadLength(commitments, k - 1, 2 * i);
      SpreadLength(commitments, k - 1, RightChild(i, Width(|commitments|, k - 1)));
    }
  }

  /** The first commitment below a node, if there is one at its place. */
  function FirstBelow(k: nat, i: nat): nat {
    if k == 0 then i else FirstBelow(k - 1, 2 * i)
  }

  lemma {:induction false} FirstBelowNext(k: nat, i: nat)
    ensures FirstBelow(k, i + 1) == FirstBelow(k, i) + Pow2(k)
  {
    if k == 0 {
    } else {
      FirstBelowNext(k - 1, 2 * i);
      FirstBelowNext(k - 1, 2 * i + 1);
    }
  }

  lemma {:induction false} FirstBelowPastEnd(n: nat, k: nat, i: nat)
    requires i >= Width(n, k)
    ensures FirstBelow(k, i) >= n
  {
    if k == 0 {
    } else {
      FirstBelowPastEnd(n, k - 1, 2 * i);
    }
  }

  lemma {:induction false} FirstBelowZero(k: nat)
    ensures FirstBelow(k, 0) == 0
  {
    if k == 0 {
    } else {
      FirstBelowZero(k - 1);
    }
  }

  /** Padding only adds after the end: commitments that are there keep their places. */
  lemma {:induction false} SpreadKeepsPlaces(commitments: seq<string>, k: nat, i: nat, p: nat)
    requires i < Width(|commitments|, k) && p < Pow2(k) && FirstBelow(k, i) + p < |commitments|
    ensures |Spread(commitments, k, i)| == Pow2(k)
    ensures Spread(commitments, k, i)[p] == commitments[FirstBelow(k, i) + p]
  {
    SpreadLength(commitments, k, i);
    if k == 0 {
    } else {
      var half := Pow2(k - 1);
      SpreadLength(commitments, k - 1, 2 * i);
      FirstBelowNext(k - 1, 2 * i);
      if p < half {
        SpreadKeepsPlaces(commitments, k - 1, 2 * i, p);
      } else {
        if 2 * i + 1 >= Width(|commitments|, k - 1) {
          FirstBelowPastEnd(|commitments|, k - 1, 2 * i + 1);
        }
        SpreadKeepsPlaces(commitments, k - 1, 2 * i + 1, p - half);
      }
    }
  }

  lemma PaddedStartsWithAll(commitments: seq<string>)
    requires commitments != []
    ensures |Padded(commitments)| == Pow2(Height(|commitments|)) >= |commitments|
    ensures Padded(commitments)[..|commitments|] == commitments
  {
    var k := Height(|commitments|);
    RootLevelHasOneNode(|commitments|);
    HeightIsTight(|commitments|);
    SpreadLength(commitments, k, 0);
    FirstBelowZero(k);
    forall p | 0 <= p < |commitments| ensures Padded(commitments)[p] == commitments[p] {
      SpreadKeepsPlaces(commitments, k, 0, p);
    }
  }

  lemma {:induction false} SpreadHasMembers(commitments: seq<string>, k: nat, i: nat, c: string)
    requires i < Width(|commitments|, k) && c in Spread(commitments, k, i)
    ensures c in commitments
  {
    if k == 0 {
      assert c == commitments[i];
    } else {
      var right := RightChild(i, Width(|commitments|, k - 1));
      if c in Spread(commitments, k - 1, 2 * i) {
        SpreadHasMembers(commitments, k - 1, 2 * i, c);
      } else {
        SpreadHasMembers(commitments, k - 1, right, c);
      }
    }
  }

  // ---------- soundness ----------

  function Leaves(h: Hash, commitments: seq<string>): (leaves: seq<string>)
    ensures |leaves| == |commitments|
    ensures forall i | 0 <= i < |leaves| :: leaves[i] == h(commitments[i])
  {
    seq(|commitments|, i requires 0 <= i < |commitments| => h(commitments[i]))
  }

  /** The string hashed last when a path is folded from a commitment. */
  function LastHashed(h: Hash, commitment: string, path: seq<ProofNode>): string {
    if path == [] then commitment
    else Join(Fold(h, h(commitment), path[..|path| - 1]), path[|path| - 1])
  }

  /** The child of node i of level k on the side the path came from last. */
  function ChildToward(n: nat, k: nat, i: nat, path: seq<ProofNode>): (child: nat)
    requires 0 < k && i < Width(n, k) && path != []
    ensures child < Width(n, k - 1)
  {
    if path[|path| - 1].direction == Left then RightChild(i, Width(n, k - 1)) else 2 * i
  }

  /** Walks an accepted proof and the tree below node i of level k down together until they part:
      where they do, two different strings were hashed to the same digest. */
  function ForgedPairAt(h: Hash, commitments: seq<string>, k: nat, i: nat,
                        commitment: string, path: seq<ProofNode>): (string, string)
    requires i < Width(|commitments|, k)
  {
    var offered := LastHashed(h, commitment, path);
    if k == 0 then (offered, commitments[i])
    else
      var hashed := ChildrenOf(h, Leaves(h, commitments), k, i);
      if offered != hashed || path == [] then (offered, hashed)
      else
        ForgedPairAt(h, commitments, k - 1, ChildToward(|commitments|, k, i, path), commitment, path[..|path| - 1])
  }

  function ForgedPair(h: Hash, commitments: seq<string>, commitment: string, path: seq<ProofNode>): (string, string) {
    if commitments == [] then (LastHashed(h, commitment, path), "")
    else
      RootLevelHasOneNode(|commitments|);
      ForgedPairAt(h, commitments, Height(|commitments|), 0, commitment, path)
  }

  lemma FoldIsDigest(h: Hash, commitment: string, path: seq<ProofNode>)
    ensures |Fold(h, h(commitment), path)| == DIGEST_LENGTH
  {}

  lemma NodeIsDigest(h: Hash, leaves: seq<string>, k: nat, i: nat)
    requires i < Width(|leaves|, k) && AllDigests(leaves)
    ensures |NodeAt(h, leaves, k, i)| == DIGEST_LENGTH
  {}

  /** If the string hashed last is made of two digests, the rest of the path gives the one
      on the other side of its last sibling. */
  lemma LastStepSplits(h: Hash, commitment: string, path: seq<ProofNode>, l: string, r: string)
    requires path != [] && DigestSiblings(path) && |l| == |r| == DIGEST_LENGTH
    requires LastHashed(h, commitment, path) == l + r
    ensures var last := |path| - 1;
            Fold(h, h(commitment), path[..last]) == if path[last].direction == Left then r else l
  {
    var last := |path| - 1;
    var acc := Fold(h, h(commitment), path[..last]);
    FoldIsDigest(h, commitment, path[..last]);
    HalvesOf(l, r);
    HalvesOf(path[last].hash, acc);
    HalvesOf(acc, path[last].hash);
  }

  /** Below node i a path leads to the place it leads to below node 0, counted from the first leaf there. */
  lemma {:induction false} LeafBelowFromFirst(i: nat, path: seq<ProofNode>)
    ensures LeafBelow(i, path) == FirstBelow(|path|, i) + LeafBelow(0, path)
    ensures LeafBelow(0, path) < Pow2(|path|)
    decreases |path|
  {
    if path == [] {
    } else {
      var last, k := |path| - 1, |path| - 1;
      var side := if path[last].direction == Left then 1 else 0;
      LeafBelowFromFirst(2 * i + side, path[..last]);
      LeafBelowFromFirst(side, path[..last]);
      FirstBelowNext(k, 2 * i);
      FirstBelowNext(k, 0);
      FirstBelowZero(k);
    }
  }

  lemma LeafBelowLast(path: seq<ProofNode>)
    requires path != []
    ensures var last := |path| - 1;
            LeafBelow(0, path) == LeafBelow(0, path[..last]) + if path[last].direction == Left then Pow2(last) else 0
  {
    var last := |path| - 1;
    LeafBelowFromFirst(if path[last].direction == Left then 1 else 0, path[..last]);
    FirstBelowNext(last, 0);
    FirstBelowZero(last);
  }

  predicate StandsAt(list: seq<string>, place: nat, commitment: string) {
    place < |list| && list[place] == commitment
  }

  lemma StandsInHalf(left: seq<string>, right: seq<string>, place: nat, commitment: string)
    ensures StandsAt(left, place, commitment) ==> StandsAt(left + right, place, commitment)
    ensures StandsAt(right, place, commitment) ==> StandsAt(left + right, place + |left|, commitment)
  {}

  /** What an accepted proof shows: its commitment stands below node i of level k, where its path leads. */
  ghost predicate ShowsMember(commitments: seq<string>, k: nat, i: nat, commitment: string, path: seq<ProofNode>)
    requires i < Width(|commitments|, k)
  {
    |path| == k && StandsAt(Spread(commitments, k, i), LeafBelow(0, path), commitment)
  }

  lemma MemberFromChild(commitments: seq<string>, k: nat, i: nat, commitment: string, path: seq<ProofNode>)
    requires k > 0 && i < Width(|commitments|, k) && path != []
    requires ShowsMember(commitments, k - 1, ChildToward(|commitments|, k, i, path), commitment, path[..|path| - 1])
    ensures ShowsMember(commitments, k, i, commitment, path)
  {
    var left := Spread(commitments, k - 1, 2 * i);
    var right := Spread(commitments, k - 1, RightChild(i, Width(|commitments|, k - 1)));
    var place := LeafBelow(0, path[..|path| - 1]);
    SpreadLength(commitments, k - 1, 2 * i);
    LeafBelowLast(path);
    StandsInHalf(left, right, place, commitment);
    if path[|path| - 1].direction == Left {
      assert StandsAt(left + right, place + |left|, commitment);
    } else {
      assert StandsAt(left + right, place, commitment);
    }
  }

  lemma AcceptedAtLeaf(h: Hash, commitments: seq<string>, i: nat, commitment: string, path: seq<ProofNode>)
    requires i < |commitments| && AllDigests(commitments)
    requires |commitment| == DIGEST_LENGTH && DigestSiblings(path)
    requires Accepts(h, h(commitments[i]), commitment, path)
    ensures || IsCollision(h, (LastHashed(h, commitment, path), commitments[i]))
            || (path == [] && commitment == commitments[i])
  {
    if path != [] {
      FoldIsDigest(h, commitment, path[..|path| - 1]);
    }
  }

  /** Where the string hashed last is that of the node, the rest of the path is accepted for the child. */
  lemma AcceptedAtChild(h: Hash, commitments: seq<string>, k: nat, i: nat, commitment: string, path: seq<ProofNode>)
    requires 0 < k && i < Width(|commitments|, k)
    requires AllDigests(commitments) && |commitment| == DIGEST_LENGTH && DigestSiblings(path)
    requires LastHashed(h, commitment, path) == ChildrenOf(h, Leaves(h, commitments), k, i)
    ensures path != []
    ensures Accepts(h, NodeAt(h, Leaves(h, commitments), k - 1, ChildToward(|commitments|, k, i, path)),
                    commitment, path[..|path| - 1])
  {
    var leaves, width := Leaves(h, commitments), Width(|commitments|, k - 1);
    NodeIsDigest(h, leaves, k - 1, 2 * i);
    NodeIsDigest(h, leaves, k - 1, RightChild(i, width));
    assert path != [];
    LastStepSplits(h, commitment, path,
                   NodeAt(h, leaves, k - 1, 2 * i), NodeAt(h, leaves, k - 1, RightChild(i, width)));
  }

  lemma {:induction false} AcceptedBelow(h: Hash, commitments: seq<string>, k: nat, i: nat,
                                         commitment: string, path: seq<ProofNode>)
    requires i < Width(|commitments|, k)
    requires AllDigests(commitments) && |commitment| == DIGEST_LENGTH && DigestSiblings(path)
    requires Accepts(h, NodeAt(h, Leaves(h, commitments), k, i), commitment, path)
    ensures || IsCollision(h, ForgedPairAt(h, commitments, k, i, commitment, path))
            || ShowsMember(commitments, k, i, commitment, path)
  {
    if k == 0 {
      AcceptedAtLeaf(h, commitments, i, commitment, path);
    } else if LastHashed(h, commitment, path) == ChildrenOf(h, Leaves(h, commitments), k, i) {
      AcceptedAtChild(h, commitments, k, i, commitment, path);
      var child, shorter := ChildToward(|commitments|, k, i, path), path[..|path| - 1];
      AcceptedBelow(h, commitments, k - 1, child, commitment, shorter);
      if ShowsMember(commitments, k - 1, child, commitment, shorter) {
        MemberFromChild(commitments, k, i, commitment, path);
      }
    }
  }

  lemma SomeMember(commitments: seq<string>, commitment: string, path: seq<ProofNode>)
    requires commitments != [] && Width(|commitments|, Height(|commitments|)) == 1
    requires ShowsMember(commitments, Height(|commitments|), 0, commitment, path)
    ensures commitment in commitments
    ensures LeafBelow(0, path) < |Padded(commitments)| && Padded(commitments)[LeafBelow(0, path)] == commitment
    ensures LeafBelow(0, path) < |commitments| ==> commitments[LeafBelow(0, path)] == commitment
  {
    SpreadHasMembers(commitments, Height(|commitments|), 0, commitment);
    PaddedStartsWithAll(commitments);
  }

  /** Soundness for any offered path: it has exactly the height of the tree and its commitment is in the
      ballot set, and stands in the full tree at the very position the path spells, or ForgedPair is a
      collision. No path is accepted for an empty ballot set without one. */
  lemma AcceptedIsMember(h: Hash, commitments: seq<string>, commitment: string, path: seq<ProofNode>)
    requires AllDigests(commitments) && |commitment| == DIGEST_LENGTH && DigestSiblings(path)
    requires Accepts(h, MerkleRoot(h, Leaves(h, commitments)), commitment, path)
    ensures || IsCollision(h, ForgedPair(h, commitments, commitment, path))
            || (&& |path| == Height(|commitments|)
                && commitment in commitments
                && LeafBelow(0, path) < |Padded(commitments)|
                && Padded(commitments)[LeafBelow(0, path)] == commitment
                && (LeafBelow(0, path) < |commitments| ==> commitments[LeafBelow(0, path)] == commitment))
  {
    if commitments == [] {
      assert LastHashed(h, commitment, path) != "";
    } else {
      RootLevelHasOneNode(|commitments|);
      AcceptedBelow(h, commitments, Height(|commitments|), 0, commitment, path);
      if ShowsMember(commitments, Height(|commitments|), 0, commitment, path) {
        SomeMember(commitments, commitment, path);
      }
    }
  }

  // ---------- binding ----------

  /** Climbs from leaf j of two trees, from level k on, to the first level where they agree. */
  function ParentCollision(h: Hash, a: seq<string>, b: seq<string>, j: nat, k: nat): (string, string)
    requires |a| == |b| && j < |a| && k <= Height(|a|)
    decreases Height(|a|) - k
  {
    AncestorInLevel(|a|, j, k);
    AncestorInLevel(|a|, j, k + 1);
    if k == Height(|a|) || NodeAt(h, a, k + 1, Ancestor(j, k + 1)) == NodeAt(h, b, k + 1, Ancestor(j, k + 1)) then
      (ChildrenOf(h, a, k + 1, Ancestor(j, k + 1)), ChildrenOf(h, b, k + 1, Ancestor(j, k + 1)))
    else
      ParentCollision(h, a, b, j, k + 1)
  }

  lemma {:induction false} DifferenceClimbs(h: Hash, a: seq<string>, b: seq<string>, j: nat, k: nat)
    requires |a| == |b| && j < |a| && k <= Height(|a|)
    requires AllDigests(a) && AllDigests(b) && MerkleRoot(h, a) == MerkleRoot(h, b)
    requires Ancestor(j, k) < Width(|a|, k)
    requires NodeAt(h, a, k, Ancestor(j, k)) != NodeAt(h, b, k, Ancestor(j, k))
    ensures IsCollision(h, ParentCollision(h, a, b, j, k))
    decreases Height(|a|) - k
  {
    RootLevelHasOneNode(|a|);
    AncestorInLevel(|a|, j, k);
    AncestorInLevel(|a|, j, k + 1);
    var p := Ancestor(j, k + 1);
    if NodeAt(h, a, k + 1, p) == NodeAt(h, b, k + 1, p) {
      var r := RightChild(p, Width(|a|, k));
      NodeIsDigest(h, a, k, 2 * p);
      NodeIsDigest(h, b, k, 2 * p);
      HalvesOf(NodeAt(h, a, k, 2 * p), NodeAt(h, a, k, r));
      HalvesOf(NodeAt(h, b, k, 2 * p), NodeAt(h, b, k, r));
    } else {
      assert k != Height(|a|);
      DifferenceClimbs(h, a, b, j, k + 1);
    }
  }

  /** The first position where two lists of equal length differ. */
  function FirstDifference(a: seq<string>, b: seq<string>): (j: nat)
    requires |a| == |b| && a != b
    ensures j < |a| && a[j] != b[j]
  {
    if a[0] != b[0] then 0
    else
      assert a == [a[0]] + a[1..] && b == [b[0]] + b[1..];
      1 + FirstDifference(a[1..], b[1..])
  }

  /** Equal roots over equally many leaves mean equal leaves, or two colliding strings:
      above the first difference, the strings hashed by the lowest equal ancestors. */
  lemma MerkleRootBinds(h: Hash, a: seq<string>, b: seq<string>)
    requires |a| == |b| && AllDigests(a) && AllDigests(b)
    requires MerkleRoot(h, a) == MerkleRoot(h, b)
    ensures a == b || IsCollision(h, ParentCollision(h, a, b, FirstDifference(a, b), 0))
  {
    if a != b {
      DifferenceClimbs(h, a, b, FirstDifference(a, b), 0);
    }
  }

  lemma {:induction false} NodesAgree(h: Hash, a: seq<string>, b: seq<string>, k: nat, i: nat)
    requires k > 0 && i < Width(|a|, k) && |b| == |a| + 1 && |a| % 2 == 1
    requires b == a + [a[|a| - 1]]
    ensures Width(|b|, k) == Width(|a|, k)
    ensures NodeAt(h, a, k, i) == NodeAt(h, b, k, i)
  {
    if k <= 1 {
    } else {
      NodesAgree(h, a, b, k - 1, 2 * i);
      NodesAgree(h, a, b, k - 1, RightChild(i, Width(|a|, k - 1)));
    }
  }

  /** The equal length is needed: an odd list and the same list with its last leaf
      repeated always have the same root. */
  lemma RepeatedLastLeafKeepsRoot(h: Hash, leaves: seq<string>)
    requires |leaves| % 2 == 1 && |leaves| > 1
    ensures MerkleRoot(h, leaves + [leaves[|leaves| - 1]]) == MerkleRoot(h, leaves)
  {
    var k := Height(|leaves|);
    RootLevelHasOneNode(|leaves|);
    NodesAgree(h, leaves, leaves + [leaves[|leaves| - 1]], k, 0);
    assert Height(|leaves| + 1) == k;
  }
}
