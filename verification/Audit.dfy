/** The public audit: pages of the ballot list, and Merkle proofs for single ballots. */
module Audit {
  import opened Wrappers
  import opened Hashing
  import opened AuditRoot
  import opened Sequences
  import opened Polls
  import opened Tallies
  import opened StringOrder
  import M = Merkle
  import L = MerkleLevels

  const DEFAULT_AUDIT_PAGE_SIZE := 100
  const MAX_AUDIT_PAGE_SIZE := 500

  datatype AuditEntry = AuditEntry(receiptToken: Uuid, choiceIndex: int, rankings: seq<int>, commitment: Digest)

  datatype AuditProof = AuditProof(entries: seq<AuditEntry>, auditRoot: string, total: nat, offset: int, limit: int)

  function EntryOf(b: Ballot): AuditEntry {
    AuditEntry(b.receiptToken, b.choiceIndex, b.rankings, b.commitment)
  }

  /** The entry shows what the row holds. */
  predicate ShowsBallot(entry: AuditEntry, b: Ballot) {
    && entry.receiptToken == b.receiptToken && entry.commitment == b.commitment
    && entry.choiceIndex == b.choiceIndex && entry.rankings == b.rankings
  }

  function EntriesOf(rows: seq<Ballot>): (entries: seq<AuditEntry>)
    ensures |entries| == |rows|
    ensures forall i | 0 <= i < |rows| :: entries[i] == EntryOf(rows[i])
  {
    if rows == [] then []
    else
      var last := |rows| - 1;
      EntriesOf(rows[..last]) + [EntryOf(rows[last])]
  }

  function EntryCommitment(entry: AuditEntry): seq<string> {
    [entry.commitment]
  }

  /** Limits that are not positive or too large fall back to the default. */
  function ClampLimit(limit: int): (clamped: nat)
    ensures 1 <= clamped <= MAX_AUDIT_PAGE_SIZE
  {
    if limit <= 0 || limit > MAX_AUDIT_PAGE_SIZE then DEFAULT_AUDIT_PAGE_SIZE else limit
  }

  /** The entries of the page. */
  function EntriesOn(rows: seq<Ballot>, offset: nat, limit: int): seq<AuditEntry> {
    EntriesOf(Slice(rows, offset, ClampLimit(limit)))
  }

  function PageOf(h: Hash, rows: seq<Ballot>, offset: nat, limit: int): AuditProof {
    AuditProof(EntriesOn(rows, offset, limit), RootOf(h, FlatMap(CommitmentOf, rows)),
               |rows|, offset, ClampLimit(limit))
  }

  /** The proof shows the rows from the offset on, as many as the limit allows, and is about all of them. */
  ghost predicate ShowsPage(h: Hash, rows: seq<Ballot>, offset: nat, limit: int, proof: AuditProof) {
    && proof.total == |rows| && proof.offset == offset
    && proof.limit == (if 1 <= limit <= 500 then limit else 100)
    && |proof.entries| == (if offset <= |rows| then Min(proof.limit, |rows| - offset) else 0)
    && (forall i | 0 <= i < |proof.entries| :: ShowsBallot(proof.entries[i], rows[offset + i]))
    && proof.auditRoot == RootOf(h, FlatMap(CommitmentOf, rows))
  }

  lemma PageShowsRows(h: Hash, rows: seq<Ballot>, offset: nat, limit: int)
    ensures ShowsPage(h, rows, offset, limit, PageOf(h, rows, offset, limit))
  {
    var page := Slice(rows, offset, ClampLimit(limit));
    forall i | 0 <= i < |page| ensures page[i] == rows[offset + i] {}
  }

  /** What an auditor collects who asks for the page after the entries received so far, until one
      comes back empty. The limits asked for may be anything. */
  function Walk(rows: seq<Ballot>, limits: nat -> int, offset: nat): seq<AuditEntry>
    requires offset <= |rows|
    decreases |rows| - offset
  {
    var page := EntriesOn(rows, offset, limits(offset));
    if page == [] then [] else page + Walk(rows, limits, offset + |page|)
  }

  lemma SliceSplits<T>(all: seq<T>, offset: nat, limit: nat)
    requires offset <= |all|
    ensures var page := Slice(all, offset, limit); all[offset..] == page + all[offset + |page|..]
  {}

  lemma EntriesOfPart(rows: seq<Ballot>, lo: nat, hi: nat)
    requires lo <= hi <= |rows|
    ensures EntriesOf(rows[lo..hi]) == EntriesOf(rows)[lo..hi]
  {}

  lemma PageIsSlice(rows: seq<Ballot>, offset: nat, limit: int)
    ensures EntriesOn(rows, offset, limit) == Slice(EntriesOf(rows), offset, ClampLimit(limit))
  {
    EntriesOfPart(rows, Min(offset, |rows|), Min(offset + ClampLimit(limit), |rows|));
  }

  /** The rest of a walk is what is left of the list. */
  ghost predicate BringsRest(rows: seq<Ballot>, limits: nat -> int, offset: nat) {
    offset <= |rows| && Walk(rows, limits, offset) == EntriesOf(rows)[offset..]
  }

  /** An empty page comes only after the last row. */
  lemma PageFits(rows: seq<Ballot>, offset: nat, limit: int)
    requires offset <= |rows|
    ensures var page := EntriesOn(rows, offset, limit);
            offset + |page| <= |rows| && (page == [] <==> offset == |rows|)
  {}

  lemma PageThenRest(rows: seq<Ballot>, offset: nat, limit: int)
    requires offset <= |rows|
    ensures var page, all := EntriesOn(rows, offset, limit), EntriesOf(rows);
            offset + |page| <= |rows| && all[offset..] == page + all[offset + |page|..]
  {
    PageIsSlice(rows, offset, limit);
    SliceSplits(EntriesOf(rows), offset, ClampLimit(limit));
  }

  lemma LastPageEnds(rows: seq<Ballot>, limits: nat -> int)
    ensures BringsRest(rows, limits, |rows|)
  {
    PageFits(rows, |rows|, limits(|rows|));
  }

  lemma PageThenWalk(rows: seq<Ballot>, limits: nat -> int, offset: nat, page: seq<AuditEntry>)
    requires offset <= |rows| && page == EntriesOn(rows, offset, limits(offset)) != []
    requires BringsRest(rows, limits, offset + |page|)
    ensures BringsRest(rows, limits, offset)
  {
    PageThenRest(rows, offset, limits(offset));
  }

  lemma {:induction false} WalkIsRest(rows: seq<Ballot>, limits: nat -> int, offset: nat)
    requires offset <= |rows|
    ensures BringsRest(rows, limits, offset)
    decreases |rows| - offset
  {
    var page := EntriesOn(rows, offset, limits(offset));
    PageFits(rows, offset, limits(offset));
    if page == [] {
      LastPageEnds(rows, limits);
    } else {
      WalkIsRest(rows, limits, offset + |page|);
      PageThenWalk(rows, limits, offset, page);
    }
  }

  lemma {:induction false} EntriesKeepCommitments(rows: seq<Ballot>)
    ensures FlatMap(EntryCommitment, EntriesOf(rows)) == FlatMap(CommitmentOf, rows)
  {
    if rows == [] {
    } else {
      var last := |rows| - 1;
      EntriesKeepCommitments(rows[..last]);
      assert EntriesOf(rows)[..last] == EntriesOf(rows[..last]);
    }
  }

  /** Whatever limits are asked for, the walk ends, brings every ballot exactly once and in order, and
      the root recomputed from what it brought is the one shown on every page. */
  lemma WalkReassembles(h: Hash, rows: seq<Ballot>, limits: nat -> int)
    ensures |Walk(rows, limits, 0)| == |rows|
    ensures forall i | 0 <= i < |rows| :: ShowsBallot(Walk(rows, limits, 0)[i], rows[i])
    ensures Walk(rows, limits, 0) == EntriesOf(rows)
    ensures forall offset: nat, limit: int ::
              PageOf(h, rows, offset, limit).auditRoot == RootOf(h, FlatMap(EntryCommitment, Walk(rows, limits, 0)))
  {
    WalkIsRest(rows, limits, 0);
    assert EntriesOf(rows)[0..] == EntriesOf(rows);
    EntriesKeepCommitments(rows);
  }

  lemma CommitmentsByRow(rows: seq<Ballot>)
    ensures |FlatMap(CommitmentOf, rows)| == |rows|
    ensures forall i | 0 <= i < |rows| :: FlatMap(CommitmentOf, rows)[i] == rows[i].commitment
  {
    FlatMapOfOnes(CommitmentOf, rows);
  }

  /** The loop that makes the entries of a page. */
  method EntriesIn(rows: seq<Ballot>) returns (entries: seq<AuditEntry>)
    ensures |entries| == |rows| && forall i | 0 <= i < |rows| :: ShowsBallot(entries[i], rows[i])
    ensures entries == EntriesOf(rows)
  {
    entries := [];
    for i := 0 to |rows|
      invariant entries == EntriesOf(rows[..i])
    {
      assert rows[..i + 1][..i] == rows[..i];
      var b := rows[i];
      entries := entries + [AuditEntry(b.receiptToken, b.choiceIndex, b.rankings, b.commitment)];
    }
    assert rows[..|rows|] == rows;
  }

  // ---------- Merkle proofs ----------

  datatype MerkleProof = MerkleProof(commitment: Digest, leafIndex: nat, merkleRoot: string,
                                     proofPath: seq<M.ProofNode>, leafCount: nat)

  function SortedCommitments(rows: seq<Ballot>): seq<string> {
    SortStrings(FlatMap(CommitmentOf, rows))
  }

  /** The Merkle root of a ballot list. */
  function BallotRoot(h: Hash, rows: seq<Ballot>): string {
    M.MerkleRoot(h, M.Leaves(h, SortedCommitments(rows)))
  }

  /** The proof is accepted against the root of the rows, and points at the last leaf with its commitment. */
  ghost predicate ProvesCommitment(h: Hash, rows: seq<Ballot>, commitment: Digest, proof: MerkleProof) {
    var sorted := SortedCommitments(rows);
    && proof.commitment == commitment
    && proof.leafCount == |rows| == |sorted|
    && proof.leafIndex < |sorted| && sorted[proof.leafIndex] == commitment
    && commitment !in sorted[proof.leafIndex + 1..]
    && proof.merkleRoot == BallotRoot(h, rows)
    && M.Accepts(h, proof.merkleRoot, commitment, proof.proofPath)
    && M.LeafBelow(0, proof.proofPath) == proof.leafIndex
  }

  /** The leaves are the digests of the commitments in order, the root is the top of the tower over them, the index
      is a place of the commitment and the path has the neighbours of the nodes above it. */
  ghost predicate IsProofOver(h: Hash, sorted: seq<string>, levels: seq<seq<string>>, places: seq<nat>,
                              commitment: Digest, proof: MerkleProof) {
    && Sorted(sorted) && L.IsTree(h, levels)
    && |levels[0]| == |sorted| && (forall i | 0 <= i < |sorted| :: levels[0][i] == h(sorted[i]))
    && proof.merkleRoot == levels[|levels| - 1][0]
    && proof.leafIndex < |sorted| && sorted[proof.leafIndex] == commitment
    && L.AreHalvings(places, proof.leafIndex) && L.IsPathIn(levels, places, proof.proofPath)
  }

  /** It is the proof of the Merkle tree over the commitments of the rows. */
  ghost predicate IsTreeProof(h: Hash, rows: seq<Ballot>, commitment: Digest, proof: MerkleProof) {
    exists sorted: seq<string>, levels: seq<seq<string>>, places: seq<nat> ::
      multiset(sorted) == multiset(FlatMap(CommitmentOf, rows))
      && IsProofOver(h, sorted, levels, places, commitment, proof)
  }

  lemma SortedHasSame(rows: seq<Ballot>)
    ensures |SortedCommitments(rows)| == |rows|
    ensures forall c: string :: c in SortedCommitments(rows) <==> exists i :: 0 <= i < |rows| && rows[i].commitment == c
    ensures AllDigests(SortedCommitments(rows))
  {
    var sorted, commitments := SortedCommitments(rows), FlatMap(CommitmentOf, rows);
    CommitmentsByRow(rows);
    assert |sorted| == |multiset(sorted)| == |multiset(commitments)|;
    forall c: string ensures c in sorted <==> c in commitments {
      assert c in sorted <==> c in multiset(sorted);
      assert c in commitments <==> c in multiset(commitments);
    }
    forall i | 0 <= i < |sorted| ensures |sorted[i]| == DIGEST_LENGTH {
      assert sorted[i] in sorted;
    }
  }

  /** The loop that reads the commitments off the rows. */
  method CommitmentsIn(rows: seq<Ballot>) returns (commitments: seq<string>)
    ensures commitments == FlatMap(CommitmentOf, rows)
  {
    commitments := [];
    for i := 0 to |rows|
      invariant commitments == FlatMap(CommitmentOf, rows[..i])
    {
      assert rows[..i + 1][..i] == rows[..i];
      commitments := commitments + [rows[i].commitment];
    }
    assert rows[..|rows|] == rows;
  }

  /** The loop that hashes the sorted commitments and remembers the last place of one of them. */
  method HashLeaves(h: Hash, sorted: seq<string>, commitment: string) returns (leaves: seq<string>, targetIdx: int)
    ensures leaves == M.Leaves(h, sorted)
    ensures -1 <= targetIdx < |sorted|
    ensures targetIdx != -1 ==> sorted[targetIdx] == commitment
    ensures forall j | targetIdx < j < |sorted| :: sorted[j] != commitment
  {
    leaves, targetIdx := [], -1;
    for i := 0 to |sorted|
      invariant |leaves| == i && forall j | 0 <= j < i :: leaves[j] == h(sorted[j])
      invariant -1 <= targetIdx < i
      invariant targetIdx != -1 ==> sorted[targetIdx] == commitment
      invariant forall j | targetIdx < j < i :: sorted[j] != commitment
    {
      leaves := leaves + [h(sorted[i])];
      if sorted[i] == commitment {
        targetIdx := i;
      }
    }
  }

  /** The second half of GetMerkleProof: the proof for one ballot among the rows of its poll. */
  method ProveBallot(h: Hash, ballot: Ballot, rows: seq<Ballot>) returns (proof: Option<MerkleProof>)
    ensures proof == None <==> forall i | 0 <= i < |rows| :: rows[i].commitment != ballot.commitment
    ensures proof.Some? ==> ProvesCommitment(h, rows, ballot.commitment, proof.value)
    ensures proof.Some? ==> IsTreeProof(h, rows, ballot.commitment, proof.value)
  {
    SortedHasSame(rows);
    var commitments := CommitmentsIn(rows);
    var sorted := SortStrings(commitments);
    var leaves, targetIdx := HashLeaves(h, sorted, ballot.commitment);
    if targetIdx == -1 {
      assert ballot.commitment !in sorted;
      return None;
    }
    assert ballot.commitment in sorted;
    var merkleRoot, proofPath := M.BuildMerkleProof(h, leaves, targetIdx);
    M.PathLeadsToRoot(h, leaves, targetIdx);
    ghost var levels, places := L.TreeOf(h, leaves, targetIdx);
    proof := Some(MerkleProof(ballot.commitment, targetIdx, merkleRoot, proofPath, |leaves|));
    assert IsProofOver(h, sorted, levels, places, ballot.commitment, proof.value);
  }

  /** Any proof accepted against the root of a ballot list is for a ballot in the list, or the pair
      found on the way down collides. */
  lemma AcceptedIsBallot(h: Hash, rows: seq<Ballot>, commitment: Digest, path: seq<M.ProofNode>)
    requires M.DigestSiblings(path)
    requires M.Accepts(h, BallotRoot(h, rows), commitment, path)
    ensures || IsCollision(h, M.ForgedPair(h, SortedCommitments(rows), commitment, path))
            || exists i :: 0 <= i < |rows| && rows[i].commitment == commitment
  {
    SortedHasSame(rows);
    M.AcceptedIsMember(h, SortedCommitments(rows), commitment, path);
  }
}
