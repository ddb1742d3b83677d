/** SHA-256 in hexadecimal, as far as the services depend on it: some function from
    strings to 64-character strings. Every module takes the function as a parameter,
    so nothing is assumed about it beyond the width of its digests.

    A digest function always has colliding inputs somewhere, so "a collision exists" says
    nothing. The binding results therefore name the two colliding strings: they are
    computed, by functions defined beside each result, from the data at hand. */
module Hashing {

  const DIGEST_LENGTH := 64

  type Digest = s: string | |s| == DIGEST_LENGTH witness seq(DIGEST_LENGTH, _ => '0')

  type Hash = string -> Digest

  /** A pair of strings on which the hash function collides. */
  predicate IsCollision(h: Hash, pair: (string, string)) {
    pair.0 != pair.1 && h(pair.0) == h(pair.1)
  }

  /** Every string of the list is as wide as a digest. */
  ghost predicate AllDigests(ss: seq<string>) {
    forall i | 0 <= i < |ss| :: |ss[i]| == DIGEST_LENGTH
  }
}
