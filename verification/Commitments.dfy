/** The anonymous voter token and the public ballot commitment, and what they bind. */
module Commitments {
  import opened Hashing
  import opened Decimals

  const UUID_LENGTH := 36

  /** The vote a commitment is made for: one option, or a ranking of options. */
  datatype Vote = Single(choice: int) | Ranking(order: seq<int>)

  function FltHash(h: Hash, flt: string): Digest {
    h(flt)
  }

  function DeriveVoterToken(h: Hash, fltHash: string, pollId: string, pollSalt: string): Digest {
    h(fltHash + pollId + pollSalt)
  }

  function DeriveCommitment(h: Hash, voterToken: string, choiceStr: string, receiptToken: string): Digest {
    h(voterToken + choiceStr + receiptToken)
  }

  /** How the vote is written into the commitment. */
  function ChoiceStr(vote: Vote): string {
    match vote
    case Single(choice) => Itoa(choice)
    case Ranking(order) => JsonInts(order)
  }

  /** The two strings hashed for two commitments. */
  function CommitmentPreimages(tokenA: string, voteA: Vote, receiptA: string,
                               tokenB: string, voteB: Vote, receiptB: string): (string, string) {
    (tokenA + ChoiceStr(voteA) + receiptA, tokenB + ChoiceStr(voteB) + receiptB)
  }

  lemma ChoiceStrInjective(a: Vote, b: Vote)
    requires ChoiceStr(a) == ChoiceStr(b)
    ensures a == b
  {
    match (a, b)
    case (Single(x), Single(y)) => ItoaPrefix(x, [], y, []);
    case (Ranking(x), Ranking(y)) => JsonIntsInjective(x, y);
    case (Single(x), Ranking(y)) =>
    case (Ranking(x), Single(y)) =>
  }

  /** A string between two fields of known widths. */
  lemma FieldsBetween(l: string, m: string, r: string)
    ensures (l + m + r)[..|l|] == l
    ensures (l + m + r)[|l|..|l| + |m|] == m
    ensures (l + m + r)[|l| + |m|..] == r
  {}

  /** Binding: equal commitments stand for the same voter token, the same vote (of the same kind)
      and the same receipt, or the two strings hashed for them collide. */
  lemma CommitmentBinds(h: Hash, tokenA: string, voteA: Vote, receiptA: string,
                        tokenB: string, voteB: Vote, receiptB: string)
    requires |tokenA| == |tokenB| == DIGEST_LENGTH && |receiptA| == |receiptB| == UUID_LENGTH
    requires DeriveCommitment(h, tokenA, ChoiceStr(voteA), receiptA)
             == DeriveCommitment(h, tokenB, ChoiceStr(voteB), receiptB)
    ensures || IsCollision(h, CommitmentPreimages(tokenA, voteA, receiptA, tokenB, voteB, receiptB))
            || (tokenA == tokenB && voteA == voteB && receiptA == receiptB)
  {
    var a, b := ChoiceStr(voteA), ChoiceStr(voteB);
    if tokenA + a + receiptA == tokenB + b + receiptB {
      assert |a| == |b|;
      FieldsBetween(tokenA, a, receiptA);
      FieldsBetween(tokenB, b, receiptB);
      ChoiceStrInjective(voteA, voteB);
    }
  }

  /** Where the derivations of two equal tokens hashed different strings. */
  function TokenCollision(h: Hash, fltA: string, idA: string, saltA: string,
                          fltB: string, idB: string, saltB: string): (string, string) {
    var a, b := FltHash(h, fltA) + idA + saltA, FltHash(h, fltB) + idB + saltB;
    if a != b then (a, b) else (fltA, fltB)
  }

  /** Equal voter tokens come from the same FLT in the same poll, or TokenCollision collides. */
  lemma VoterTokenBinds(h: Hash, fltA: string, idA: string, saltA: string, fltB: string, idB: string, saltB: string)
    requires |idA| == |idB|
    requires DeriveVoterToken(h, FltHash(h, fltA), idA, saltA) == DeriveVoterToken(h, FltHash(h, fltB), idB, saltB)
    ensures || IsCollision(h, TokenCollision(h, fltA, idA, saltA, fltB, idB, saltB))
            || (fltA == fltB && idA == idB && saltA == saltB)
  {
    FieldsBetween(FltHash(h, fltA), idA, saltA);
    FieldsBetween(FltHash(h, fltB), idB, saltB);
  }
}
