/** The Merkle tree level by level, from the leaves up, without reference to the addresses of its nodes. */
module MerkleLevels {
  import opened Hashing
  import opened Merkle

  /** Each pair of neighbours gives the digest of the left one followed by the right one; a last node without a
      neighbour is paired with itself. */
  ghost predicate IsLevelAbove(h: Hash, level: seq<string>, above: seq<string>) {
    && |above| == (|level| + 1) / 2
    && forall i | 0 <= i < |above| ::
         above[i] == h(level[2 * i] + if 2 * i + 1 < |level| then level[2 * i + 1] else level[2 * i])
  }

  ghost predicate IsTower(h: Hash, levels: seq<seq<string>>) {
    levels != [] && forall k | 0 <= k < |levels| - 1 :: |levels[k]| > 1 && IsLevelAbove(h, levels[k], levels[k + 1])
  }

  /** A tower of levels that ends as soon as only one node is left. */
  ghost predicate IsTree(h: Hash, levels: seq<seq<string>>) {
    IsTower(h, levels) && |levels[|levels| - 1]| == 1
  }

  /** The neighbour of node a and the side it stands on. */
  function Neighbour(level: seq<string>, a: nat): ProofNode
    requires a < |level|
  {
    if a % 2 == 1 then ProofNode(level[a - 1], Left)
    else if a + 1 < |level| then ProofNode(level[a + 1], Right)
    else ProofNode(level[a], Right)
  }

  /** The places passed on the way up: each is half of the one before. */
  ghost predicate AreHalvings(places: seq<nat>, t: nat) {
    places != [] && places[0] == t && forall k | 0 <= k < |places| - 1 :: places[k + 1] == places[k] / 2
  }

  /** The path has the neighbour of each node passed below the root. */
  ghost predicate IsPathIn(levels: seq<seq<string>>, places: seq<nat>, path: seq<ProofNode>) {
    && |places| == |levels| == |path| + 1
    && forall k | 0 <= k < |path| :: places[k] < |levels[k]| && path[k] == Neighbour(levels[k], places[k])
  }

  // ---------- the levels of the addressed tree ----------

  lemma {:induction false} WidthAboveOne(n: nat, k: nat)
    requires k < Height(n)
    ensures Width(n, k) > 1
  {
    if k == 0 {
    } else {
      WidthAboveOne((n + 1) / 2, k - 1);
      WidthStep(n, k - 1);
    }
  }

  ghost function LevelOf(h: Hash, leaves: seq<string>, k: nat, n: nat): (level: seq<string>)
    requires n <= Width(|leaves|, k)
    ensures |level| == n && LevelSoFar(h, leaves, k, level)
  {
    if n == 0 then [] else LevelOf(h, leaves, k, n - 1) + [NodeAt(h, leaves, k, n - 1)]
  }

  lemma NodesAbove(h: Hash, leaves: seq<string>, k: nat, level: seq<string>, above: seq<string>)
    requires LevelSoFar(h, leaves, k, level) && |level| == Width(|leaves|, k)
    requires LevelSoFar(h, leaves, k + 1, above) && |above| == Width(|leaves|, k + 1)
    ensures IsLevelAbove(h, level, above)
  {
    forall i | 0 <= i < |above|
      ensures above[i] == h(level[2 * i] + if 2 * i + 1 < |level| then level[2 * i + 1] else level[2 * i])
    {
      assert above[i] == h(ChildrenOf(h, leaves, k + 1, i));
      assert level[2 * i] == NodeAt(h, leaves, k, 2 * i);
      assert level[RightChild(i, |level|)] == NodeAt(h, leaves, k, RightChild(i, |level|));
    }
  }

  lemma TowerGrows(h: Hash, levels: seq<seq<string>>, above: seq<string>)
    requires IsTower(h, levels) && |levels[|levels| - 1]| > 1 && IsLevelAbove(h, levels[|levels| - 1], above)
    ensures IsTower(h, levels + [above])
  {}

  lemma PathGrows(levels: seq<seq<string>>, above: seq<string>, places: seq<nat>, t: nat, path: seq<ProofNode>)
    requires AreHalvings(places, t) && IsPathIn(levels, places, path)
    requires places[|path|] < |levels[|path|]|
    ensures AreHalvings(places + [places[|path|] / 2], t)
    ensures IsPathIn(levels + [above], places + [places[|path|] / 2],
                     path + [Neighbour(levels[|path|], places[|path|])])
  {}

  lemma NeighbourIsPathNode(h: Hash, leaves: seq<string>, t: nat, k: nat, level: seq<string>)
    requires t < |leaves| && LevelSoFar(h, leaves, k, level) && |level| == Width(|leaves|, k)
    ensures Ancestor(t, k) < |level| && PathNode(h, leaves, t, k) == Neighbour(level, Ancestor(t, k))
  {
    AncestorInLevel(|leaves|, t, k);
  }

  lemma {:induction false} LevelsUpTo(h: Hash, leaves: seq<string>, t: nat, top: nat)
    returns (levels: seq<seq<string>>, places: seq<nat>, path: seq<ProofNode>)
    requires t < |leaves| && top <= Height(|leaves|)
    ensures IsTower(h, levels) && |levels| == top + 1 && levels[0] == leaves
    ensures |levels[top]| == Width(|leaves|, top) && LevelSoFar(h, leaves, top, levels[top])
    ensures AreHalvings(places, t) && IsPathIn(levels, places, path) && places[top] == Ancestor(t, top)
    ensures PathSoFar(h, leaves, t, path)
  {
    if top == 0 {
      levels, places, path := [leaves], [t], [];
    } else {
      levels, places, path := LevelsUpTo(h, leaves, t, top - 1);
      var level := levels[top - 1];
      var above := LevelOf(h, leaves, top, Width(|leaves|, top));
      WidthAboveOne(|leaves|, top - 1);
      NodesAbove(h, leaves, top - 1, level, above);
      TowerGrows(h, levels, above);
      NeighbourIsPathNode(h, leaves, t, top - 1, level);
      PathGrows(levels, above, places, t, path);
      ExtendPath(h, leaves, t, path);
      path := path + [PathNode(h, leaves, t, top - 1)];
      levels, places := levels + [above], places + [Ancestor(t, top)];
    }
  }

  /** Whatever the leaves: the root is the top of the tower built from them, and the path has, level by level, the
      neighbour of the node passed on the way up. */
  lemma TreeOf(h: Hash, leaves: seq<string>, t: nat) returns (levels: seq<seq<string>>, places: seq<nat>)
    requires t < |leaves|
    ensures IsTree(h, levels) && levels[0] == leaves
    ensures MerkleRoot(h, leaves) == levels[|levels| - 1][0]
    ensures AreHalvings(places, t) && IsPathIn(levels, places, MerklePath(h, leaves, t))
  {
    var path;
    RootLevelHasOneNode(|leaves|);
    levels, places, path := LevelsUpTo(h, leaves, t, Height(|leaves|));
    assert path == MerklePath(h, leaves, t);
  }

  lemma OnlyLevelAbove(h: Hash, level: seq<string>, a: seq<string>, b: seq<string>)
    requires IsLevelAbove(h, level, a) && IsLevelAbove(h, level, b)
    ensures a == b
  {}

  /** The leaves leave no choice: there is one tower over them. */
  lemma {:induction false} OnlyTree(h: Hash, a: seq<seq<string>>, b: seq<seq<string>>)
    requires IsTree(h, a) && IsTree(h, b) && a[0] == b[0]
    ensures a == b
  {
    if |a| > 1 && |b| > 1 {
      OnlyLevelAbove(h, a[0], a[1], b[1]);
      assert forall k | 0 <= k < |a| - 1 :: a[1..][k] == a[k + 1];
      assert forall k | 0 <= k < |b| - 1 :: b[1..][k] == b[k + 1];
      OnlyTree(h, a[1..], b[1..]);
      assert a == [a[0]] + a[1..] && b == [b[0]] + b[1..];
    }
  }
}
