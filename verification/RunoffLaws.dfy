/** Laws of the instant-runoff count that compare two counts: anonymity, neutrality,
    later preferences, striking out. */
module RunoffLaws {
  import opened Wrappers
  import opened Sets
  import opened Sequences
  import opened InstantRunoff

  // ---------- ballots that vote alike count alike ----------

  /** Ballot by ballot, the two lists vote for the same candidate while the given ones stand. */
  ghost predicate VoteAlike(a: seq<seq<int>>, b: seq<seq<int>>, active: set<nat>) {
    && |a| == |b|
    && forall i | 0 <= i < |a| :: FirstActive(a[i], active) == FirstActive(b[i], active)
  }

  lemma {:induction false} AlikeVotes(a: seq<seq<int>>, b: seq<seq<int>>, active: set<nat>, group: set<nat>)
    requires VoteAlike(a, b, active)
    ensures Votes(a, active, group) == Votes(b, active, group)
  {
    if a == [] {
    } else {
      AlikeVotes(a[..|a| - 1], b[..|b| - 1], active, group);
    }
  }

  /** Nothing in a round depends on more than the votes of each group. */
  ghost predicate SameVotes(a: seq<seq<int>>, b: seq<seq<int>>, active: set<nat>) {
    forall group: set<nat> :: Votes(a, active, group) == Votes(b, active, group)
  }

  lemma SameRound(a: seq<seq<int>>, b: seq<seq<int>>, active: set<nat>)
    requires SameVotes(a, b, active)
    ensures forall eliminated :: RoundAt(a, active, eliminated) == RoundAt(b, active, eliminated)
    ensures forall c: nat :: IsMajority(a, active, c) == IsMajority(b, active, c)
    ensures Lowest(a, active) == Lowest(b, active)
  {}

  /** One step of two counts that agree on a round. */
  lemma CountStep(a: seq<seq<int>>, b: seq<seq<int>>, active: set<nat>)
    requires SameVotes(a, b, active)
    requires |active| > 1 && !(exists c: nat :: IsMajority(a, active, c)) ==>
      var left := active - Lowest(a, active);
      Count(a, left) == Count(b, left)
    ensures Count(a, active) == Count(b, active)
  {
    SameRound(a, b, active);
    if |active| > 1 {
      if c: nat :| IsMajority(a, active, c) {
        CountMajority(a, active, c);
        CountMajority(b, active, c);
      } else {
        CountElimination(a, active);
        CountElimination(b, active);
      }
    }
  }

  lemma AllAlike(a: seq<seq<int>>, b: seq<seq<int>>, active: set<nat>)
    requires VoteAlike(a, b, active)
    ensures SameVotes(a, b, active)
  {
    forall group: set<nat> ensures Votes(a, active, group) == Votes(b, active, group) {
      AlikeVotes(a, b, active, group);
    }
  }

  // ---------- anonymity ----------

  lemma {:induction false} VotesWithout(rankings: seq<seq<int>>, j: nat, active: set<nat>, group: set<nat>)
    requires j < |rankings|
    ensures Votes(rankings, active, group)
            == Votes(rankings[..j] + rankings[j + 1..], active, group) + VoteFor(rankings[j], active, group)
  {
    var last := |rankings| - 1;
    if j == last {
      assert rankings[..j] + rankings[j + 1..] == rankings[..last];
    } else {
      var rest := rankings[..j] + rankings[j + 1..];
      VotesWithout(rankings[..last], j, active, group);
      assert rest[..|rest| - 1] == rankings[..last][..j] + rankings[..last][j + 1..];
    }
  }

  lemma {:induction false} VotesIgnoreOrder(a: seq<seq<int>>, b: seq<seq<int>>, active: set<nat>, group: set<nat>)
    requires multiset(a) == multiset(b)
    ensures Votes(a, active, group) == Votes(b, active, group)
  {
    if a == [] || b == [] {
      assert |multiset(a)| == |a| && |multiset(b)| == |b|;
    } else {
      var last := |a| - 1;
      RemoveAt(a, last);
      assert a[..last] + a[last + 1..] == a[..last];
      assert a[last] in multiset(b);
      var j :| 0 <= j < |b| && b[j] == a[last];
      RemoveAt(b, j);
      VotesIgnoreOrder(a[..last], b[..j] + b[j + 1..], active, group);
      VotesWithout(b, j, active, group);
    }
  }

  /** The order of the ballots does not matter. */
  lemma {:induction false} CountIsAnonymous(a: seq<seq<int>>, b: seq<seq<int>>, active: set<nat>)
    requires multiset(a) == multiset(b)
    ensures Count(a, active) == Count(b, active)
    decreases |active|
  {
    forall group: set<nat> ensures Votes(a, active, group) == Votes(b, active, group) {
      VotesIgnoreOrder(a, b, active, group);
    }
    if |active| > 1 && !exists c: nat :: IsMajority(a, active, c) {
      CountElimination(a, active);
      CountIsAnonymous(a, b, active - Lowest(a, active));
    }
    CountStep(a, b, active);
  }

  // ---------- later preferences ----------

  /** The two ballots are equal, or equal down to and including w. */
  ghost predicate SameDownTo(w: nat, p: seq<int>, q: seq<int>) {
    || p == q
    || exists k :: 0 < k <= |p| && k <= |q| && p[k - 1] == w && p[..k] == q[..k]
  }

  lemma {:induction false} FirstActiveAbove(w: nat, p: seq<int>, q: seq<int>, k: nat, active: set<nat>)
    requires w in active && 0 < k <= |p| && k <= |q| && p[k - 1] == w && p[..k] == q[..k]
    ensures FirstActive(p, active) == FirstActive(q, active)
  {
    assert p[0] == p[..k][0] == q[..k][0] == q[0];
    if p[0] !in active {
      assert k > 1;
      assert p[1..][..k - 1] == p[..k][1..] == q[..k][1..] == q[1..][..k - 1];
      FirstActiveAbove(w, p[1..], q[1..], k - 1, active);
    }
  }

  lemma SameDownToSymmetric(w: nat, p: seq<int>, q: seq<int>)
    requires SameDownTo(w, p, q)
    ensures SameDownTo(w, q, p)
  {}

  ghost predicate AllSameDownTo(w: nat, a: seq<seq<int>>, b: seq<seq<int>>) {
    && |a| == |b|
    && forall i | 0 <= i < |a| :: SameDownTo(w, a[i], b[i])
  }

  lemma WinnerStands(rankings: seq<seq<int>>, active: set<nat>)
    ensures var winner := Count(rankings, active).winner;
            winner.Some? ==> winner.value in active
    decreases |active|
  {
    if |active| > 1 && !exists c: nat :: IsMajority(rankings, active, c) {
      CountElimination(rankings, active);
      WinnerStands(rankings, active - Lowest(rankings, active));
    }
  }

  /** Later preferences cannot matter: what ballots say below the winner changes neither the winner
      nor any round. */
  lemma {:induction false} LaterPreferences(a: seq<seq<int>>, b: seq<seq<int>>, active: set<nat>, w: nat)
    requires AllSameDownTo(w, a, b)
    requires Count(a, active).winner == Some(w)
    ensures Count(b, active) == Count(a, active)
    decreases |active|
  {
    WinnerStands(a, active);
    forall i | 0 <= i < |a| ensures FirstActive(a[i], active) == FirstActive(b[i], active) {
      if a[i] != b[i] {
        var k :| 0 < k <= |a[i]| && k <= |b[i]| && a[i][k - 1] == w && a[i][..k] == b[i][..k];
        FirstActiveAbove(w, a[i], b[i], k, active);
      }
    }
    AllAlike(a, b, active);
    if |active| > 1 && !exists c: nat :: IsMajority(a, active, c) {
      CountElimination(a, active);
      LaterPreferences(a, b, active - Lowest(a, active), w);
    }
    CountStep(a, b, active);
  }

  /** So changes below w can neither harm w nor help it. */
  lemma LaterNoHarmNoHelp(a: seq<seq<int>>, b: seq<seq<int>>, active: set<nat>, w: nat)
    requires AllSameDownTo(w, a, b)
    ensures Count(a, active).winner == Some(w) <==> Count(b, active).winner == Some(w)
  {
    if Count(a, active).winner == Some(w) {
      LaterPreferences(a, b, active, w);
    }
    if Count(b, active).winner == Some(w) {
      forall i | 0 <= i < |b| ensures SameDownTo(w, b[i], a[i]) {
        SameDownToSymmetric(w, a[i], b[i]);
      }
      LaterPreferences(b, a, active, w);
    }
  }

  // ---------- striking out ----------

  /** The ballot without anyone outside the given candidates. */
  function Strike(prefs: seq<int>, keep: set<nat>): seq<int> {
    if prefs == [] then []
    else if prefs[0] in keep then [prefs[0]] + Strike(prefs[1..], keep)
    else Strike(prefs[1..], keep)
  }

  /** The ballot without repeated choices; those in seen came before. */
  function WithoutRepeats(prefs: seq<int>, seen: set<int>): seq<int> {
    if prefs == [] then []
    else if prefs[0] in seen then WithoutRepeats(prefs[1..], seen)
    else [prefs[0]] + WithoutRepeats(prefs[1..], seen + {prefs[0]})
  }

  function StrikeAll(rankings: seq<seq<int>>, keep: set<nat>): (struck: seq<seq<int>>)
    ensures |struck| == |rankings|
  {
    seq(|rankings|, i requires 0 <= i < |rankings| => Strike(rankings[i], keep))
  }

  function RepeatsRemoved(rankings: seq<seq<int>>): (cleaned: seq<seq<int>>)
    ensures |cleaned| == |rankings|
  {
    seq(|rankings|, i requires 0 <= i < |rankings| => WithoutRepeats(rankings[i], {}))
  }

  lemma {:induction false} StrikeKeepsVote(prefs: seq<int>, keep: set<nat>, active: set<nat>)
    requires active <= keep
    ensures FirstActive(Strike(prefs, keep), active) == FirstActive(prefs, active)
  {
    if prefs == [] {
    } else {
      StrikeKeepsVote(prefs[1..], keep, active);
      assert ([prefs[0]] + Strike(prefs[1..], keep))[1..] == Strike(prefs[1..], keep);
    }
  }

  lemma {:induction false} RepeatsKeepVote(prefs: seq<int>, seen: set<int>, active: set<nat>)
    requires forall c | c in active :: c !in seen
    ensures FirstActive(WithoutRepeats(prefs, seen), active) == FirstActive(prefs, active)
  {
    if prefs == [] {
    } else {
      if prefs[0] in seen {
        RepeatsKeepVote(prefs[1..], seen, active);
      } else if prefs[0] !in active {
        RepeatsKeepVote(prefs[1..], seen + {prefs[0]}, active);
        var rest := WithoutRepeats(prefs[1..], seen + {prefs[0]});
        assert ([prefs[0]] + rest)[1..] == rest;
      }
    }
  }

  /** Lists that vote alike whoever still stands among the given candidates are counted alike. */
  lemma {:induction false} AlikeCount(a: seq<seq<int>>, b: seq<seq<int>>, active: set<nat>)
    requires forall standing: set<nat> | standing <= active :: VoteAlike(a, b, standing)
    ensures Count(a, active) == Count(b, active)
    decreases |active|
  {
    AllAlike(a, b, active);
    if |active| > 1 && !exists c: nat :: IsMajority(a, active, c) {
      CountElimination(a, active);
      var left := active - Lowest(a, active);
      forall standing: set<nat> | standing <= left ensures VoteAlike(a, b, standing) {
        assert standing <= active;
      }
      AlikeCount(a, b, left);
    }
    CountStep(a, b, active);
  }

  /** Out-of-range and repeated choices change nothing. */
  lemma CleaningChangesNothing(rankings: seq<seq<int>>, active: set<nat>)
    ensures Count(RepeatsRemoved(StrikeAll(rankings, active)), active) == Count(rankings, active)
  {
    var struck := StrikeAll(rankings, active);
    var cleaned := RepeatsRemoved(struck);
    forall standing: set<nat> | standing <= active ensures VoteAlike(cleaned, rankings, standing) {
      forall i | 0 <= i < |rankings| ensures FirstActive(cleaned[i], standing) == FirstActive(rankings[i], standing) {
        StrikeKeepsVote(rankings[i], active, standing);
        RepeatsKeepVote(struck[i], {}, standing);
      }
    }
    AlikeCount(cleaned, rankings, active);
  }

  /** The rounds after an elimination are those of a count started from the survivors, on ballots
      from which the eliminated candidates have been struck out. */
  lemma EliminationIsStrikingOut(rankings: seq<seq<int>>, active: set<nat>)
    requires |active| > 1 && !exists c: nat :: IsMajority(rankings, active, c)
    ensures var eliminated := Lowest(rankings, active);
            var survivors := active - eliminated;
            Count(rankings, active)
            == After([RoundAt(rankings, active, eliminated)], Count(StrikeAll(rankings, survivors), survivors))
  {
    CountElimination(rankings, active);
    var survivors := active - Lowest(rankings, active);
    var struck := StrikeAll(rankings, survivors);
    forall standing: set<nat> | standing <= survivors ensures VoteAlike(struck, rankings, standing) {
      forall i | 0 <= i < |rankings| ensures FirstActive(struck[i], standing) == FirstActive(rankings[i], standing) {
        StrikeKeepsVote(rankings[i], survivors, standing);
      }
    }
    AlikeCount(struck, rankings, survivors);
  }

  // ---------- neutrality ----------

  /** A renaming of the choices that keeps different ones different, and candidates candidates. */
  ghost predicate IsRenaming(pi: int -> int) {
    && (forall x, y :: pi(x) == pi(y) ==> x == y)
    && (forall x :: x >= 0 <==> pi(x) >= 0)
  }

  ghost function Image(pi: int -> int, group: set<nat>): (image: set<nat>)
    requires IsRenaming(pi)
    ensures forall c: nat :: pi(c) in image <==> c in group
  {
    set c | c in group :: pi(c)
  }

  function Rename(pi: int -> int, prefs: seq<int>): seq<int> {
    seq(|prefs|, i requires 0 <= i < |prefs| => pi(prefs[i]))
  }

  function RenameAll(pi: int -> int, rankings: seq<seq<int>>): (renamed: seq<seq<int>>)
    ensures |renamed| == |rankings|
  {
    seq(|rankings|, i requires 0 <= i < |rankings| => Rename(pi, rankings[i]))
  }

  /** The second round is the first with every candidate renamed. */
  ghost predicate RenamedRound(pi: int -> int, a: Round, b: Round)
    requires IsRenaming(pi)
  {
    && b.counts.Keys == Image(pi, a.counts.Keys)
    && (forall c | c in a.counts :: pi(c) in b.counts && b.counts[pi(c)] == a.counts[c])
    && b.eliminated == Image(pi, a.eliminated)
    && b.totalActive == a.totalActive
  }

  ghost predicate RenamedOutcome(pi: int -> int, a: Outcome, b: Outcome)
    requires IsRenaming(pi)
  {
    && b.winner == (if a.winner.Some? then Some(pi(a.winner.value)) else None)
    && |b.rounds| == |a.rounds|
    && forall i | 0 <= i < |a.rounds| :: RenamedRound(pi, a.rounds[i], b.rounds[i])
  }

  lemma {:induction false} RenamedFirst(pi: int -> int, prefs: seq<int>, active: set<nat>)
    requires IsRenaming(pi)
    ensures FirstActive(Rename(pi, prefs), Image(pi, active))
            == (var first := FirstActive(prefs, active); if first.Some? then Some(pi(first.value)) else None)
  {
    if prefs == [] {
    } else {
      RenamedFirst(pi, prefs[1..], active);
      assert Rename(pi, prefs)[1..] == Rename(pi, prefs[1..]);
      assert pi(prefs[0]) in Image(pi, active) <==> prefs[0] in active;
    }
  }

  lemma {:induction false} RenamedVotes(pi: int -> int, rankings: seq<seq<int>>, active: set<nat>, group: set<nat>)
    requires IsRenaming(pi)
    ensures Votes(RenameAll(pi, rankings), Image(pi, active), Image(pi, group)) == Votes(rankings, active, group)
  {
    if rankings == [] {
    } else {
      var last := |rankings| - 1;
      RenamedVotes(pi, rankings[..last], active, group);
      RenamedFirst(pi, rankings[last], active);
      assert RenameAll(pi, rankings)[..last] == RenameAll(pi, rankings[..last]);
    }
  }

  lemma {:induction false} ImageSize(pi: int -> int, group: set<nat>)
    requires IsRenaming(pi)
    ensures |Image(pi, group)| == |group|
  {
    if group != {} {
      var c :| c in group;
      ImageSize(pi, group - {c});
      assert Image(pi, group) == Image(pi, group - {c}) + {pi(c)};
    }
  }

  lemma ImageOfOne(pi: int -> int, c: nat)
    requires IsRenaming(pi)
    ensures Image(pi, {c}) == {pi(c)}
  {}

  lemma ImageMinus(pi: int -> int, a: set<nat>, b: set<nat>)
    requires IsRenaming(pi)
    ensures Image(pi, a - b) == Image(pi, a) - Image(pi, b)
  {}

  lemma RenamedRoundAt(pi: int -> int, rankings: seq<seq<int>>, active: set<nat>, eliminated: set<nat>)
    requires IsRenaming(pi)
    ensures RenamedRound(pi, RoundAt(rankings, active, eliminated),
                         RoundAt(RenameAll(pi, rankings), Image(pi, active), Image(pi, eliminated)))
  {
    RenamedVotes(pi, rankings, active, active);
    forall c | c in active
      ensures Votes(RenameAll(pi, rankings), Image(pi, active), {pi(c)}) == Votes(rankings, active, {c})
    {
      ImageOfOne(pi, c);
      RenamedVotes(pi, rankings, active, {c});
    }
  }

  lemma RenamedMajority(pi: int -> int, rankings: seq<seq<int>>, active: set<nat>, c: nat)
    requires IsRenaming(pi)
    ensures IsMajority(RenameAll(pi, rankings), Image(pi, active), pi(c)) <==> IsMajority(rankings, active, c)
  {
    ImageOfOne(pi, c);
    RenamedVotes(pi, rankings, active, {c});
    RenamedVotes(pi, rankings, active, active);
  }

  lemma RenamedLowest(pi: int -> int, rankings: seq<seq<int>>, active: set<nat>)
    requires IsRenaming(pi)
    ensures Lowest(RenameAll(pi, rankings), Image(pi, active)) == Image(pi, Lowest(rankings, active))
  {
    var renamed, image := RenameAll(pi, rankings), Image(pi, active);
    forall c | c in active ensures Votes(renamed, image, {pi(c)}) == Votes(rankings, active, {c}) {
      ImageOfOne(pi, c);
      RenamedVotes(pi, rankings, active, {c});
    }
    forall c | c in active ensures pi(c) in Lowest(renamed, image) <==> c in Lowest(rankings, active) {
      if pi(c) in Lowest(renamed, image) {
        forall d | d in active ensures Votes(rankings, active, {c}) <= Votes(rankings, active, {d}) {
          assert pi(d) in image;
        }
      }
    }
  }

  lemma RenamedLastRound(pi: int -> int, c: nat, a: Round, b: Round)
    requires IsRenaming(pi) && RenamedRound(pi, a, b)
    ensures RenamedOutcome(pi, Outcome(Some(c), [a]), Outcome(Some(pi(c)), [b]))
  {}

  lemma ImageOfNone(pi: int -> int)
    requires IsRenaming(pi)
    ensures Image(pi, {}) == {}
  {}

  lemma RenamedWin(pi: int -> int, rankings: seq<seq<int>>, active: set<nat>, c: nat)
    requires IsRenaming(pi) && |active| > 1 && IsMajority(rankings, active, c)
    requires |Image(pi, active)| == |active|
    ensures RenamedOutcome(pi, Count(rankings, active), Count(RenameAll(pi, rankings), Image(pi, active)))
  {
    RenamedMajority(pi, rankings, active, c);
    CountMajority(rankings, active, c);
    CountMajority(RenameAll(pi, rankings), Image(pi, active), pi(c));
    RenamedRoundAt(pi, rankings, active, {});
    ImageOfNone(pi);
    RenamedLastRound(pi, c, RoundAt(rankings, active, {}), RoundAt(RenameAll(pi, rankings), Image(pi, active), {}));
  }

  lemma RenamedNoMajority(pi: int -> int, rankings: seq<seq<int>>, active: set<nat>)
    requires IsRenaming(pi) && !exists c: nat :: IsMajority(rankings, active, c)
    ensures !exists d: nat :: IsMajority(RenameAll(pi, rankings), Image(pi, active), d)
  {
    forall d: nat ensures !IsMajority(RenameAll(pi, rankings), Image(pi, active), d) {
      if d in Image(pi, active) {
        var c :| c in active && pi(c) == d;
        RenamedMajority(pi, rankings, active, c);
      }
    }
  }

  /** Lists related place by place stay so with one more related pair in front. */
  lemma PairsJoin<R>(related: (R, R) -> bool, a: R, restA: seq<R>, b: R, restB: seq<R>)
    requires |restA| == |restB| && related(a, b)
    requires forall i | 0 <= i < |restA| :: related(restA[i], restB[i])
    ensures forall i | 0 <= i < |[a] + restA| :: related(([a] + restA)[i], ([b] + restB)[i])
  {}

  lemma RenamedAfter(pi: int -> int, a: Round, restA: Outcome, b: Round, restB: Outcome)
    requires IsRenaming(pi) && RenamedRound(pi, a, b) && RenamedOutcome(pi, restA, restB)
    ensures RenamedOutcome(pi, After([a], restA), After([b], restB))
  {
    var related := (x, y) => IsRenaming(pi) && RenamedRound(pi, x, y);
    PairsJoin(related, a, restA.rounds, b, restB.rounds);
    forall i | 0 <= i < |[a] + restA.rounds|
      ensures RenamedRound(pi, ([a] + restA.rounds)[i], ([b] + restB.rounds)[i])
    {
      assert related(([a] + restA.rounds)[i], ([b] + restB.rounds)[i]);
    }
  }

  lemma RenamedElimination(pi: int -> int, rankings: seq<seq<int>>, active: set<nat>)
    requires IsRenaming(pi) && |active| > 1 && !exists c: nat :: IsMajority(rankings, active, c)
    requires |Image(pi, active)| == |active|
    requires var left := active - Lowest(rankings, active);
             RenamedOutcome(pi, Count(rankings, left), Count(RenameAll(pi, rankings), Image(pi, left)))
    ensures RenamedOutcome(pi, Count(rankings, active), Count(RenameAll(pi, rankings), Image(pi, active)))
  {
    var renamed, image := RenameAll(pi, rankings), Image(pi, active);
    var lowest := Lowest(rankings, active);
    RenamedNoMajority(pi, rankings, active);
    CountElimination(rankings, active);
    CountElimination(renamed, image);
    RenamedLowest(pi, rankings, active);
    RenamedRoundAt(pi, rankings, active, lowest);
    ImageMinus(pi, active, lowest);
    RenamedAfter(pi, RoundAt(rankings, active, lowest), Count(rankings, active - lowest),
                 RoundAt(renamed, image, Image(pi, lowest)), Count(renamed, Image(pi, active - lowest)));
  }

  /** Neutrality: renaming the candidates renames the outcome and changes nothing else. */
  lemma {:induction false} CountIsNeutral(pi: int -> int, rankings: seq<seq<int>>, active: set<nat>)
    requires IsRenaming(pi)
    ensures RenamedOutcome(pi, Count(rankings, active), Count(RenameAll(pi, rankings), Image(pi, active)))
    decreases |active|
  {
    ImageSize(pi, active);
    if |active| <= 1 {
      if active != {} {
        var c :| c in active;
        AnyOfOne(active, c);
        AnyOfOne(Image(pi, active), pi(c));
      }
    } else if c: nat :| IsMajority(rankings, active, c) {
      RenamedWin(pi, rankings, active, c);
    } else {
      CountElimination(rankings, active);
      CountIsNeutral(pi, rankings, active - Lowest(rankings, active));
      RenamedElimination(pi, rankings, active);
    }
  }

  /** The same for a whole poll: renaming the options among themselves renames its outcome. */
  lemma RenamedPoll(pi: int -> int, rankings: seq<seq<int>>, numOptions: nat)
    requires IsRenaming(pi) && forall c: nat | c < numOptions :: pi(c) < numOptions
    ensures RenamedOutcome(pi, Count(rankings, Candidates(numOptions)),
                           Count(RenameAll(pi, rankings), Candidates(numOptions)))
  {
    var all := Candidates(numOptions);
    CountIsNeutral(pi, rankings, all);
    ImageSize(pi, all);
    SubsetOfSameSize(Image(pi, all), all);
  }
}
