# A verified model of the voting backend

This project models the voting service of the repository (polls, anonymous ballots, tallies, public
audit, live results) and its pagination library, and proves what they promise. Everything is proved
for all inputs, all runs and all interleavings; `dafny verify dfyconfig.toml` checks all of it.

## What is modelled

- **Merkle proofs** (`Merkle.dfy`, `MerkleLevels.dfy`, `MerkleRoots.dfy`, `Audit.dfy`). `buildMerkleProof` is a method with the
  source's two nested loops, including the target index that is halved in the middle of the pass over a
  level. It is proved to compute the root and path of a tree given by addresses, which is the one built level by
  level from the leaves. The service has no
  verifier, so `Fold` and `Accepts` follow the description of proofs in the source. Accepted proofs are then
  complete, sound for any offered path, and bound to a position; and two ballot sets have one root exactly
  when repeating last nodes makes the same full tree of them.
- **Audit root** (`AuditRoot.dfy`, `StringOrder.dfy`) and **audit pages** (`Audit.dfy`, and `AuditReads.dfy` with
  ballots stored between the reads of one page), and what a published root says about the ballots behind it
  (`AuditBinding.dfy`).
- **Commitments** (`Commitments.dfy`, `Decimals.dfy`): what a commitment and a voter token are the digest of,
  down to the printing of decimals and of JSON integer arrays (sections 5 and 6 of RFC 8259).
- **Instant runoff** (`InstantRunoff.dfy`, `RunoffRules.dfy`, `RunoffLaws.dfy`, `RunoffOutcome.dfy`). `ComputeIRV` is a method
  with the source's loops, in which every pass over a Go map picks its next key arbitrarily. It is proved
  equal to the function `Count`, which is proved to give the one outcome that follows the rules of the runoff, and
  about which the laws of the count are proved.
- **The tables, services and scheduler** (`Polls.dfy`, `Tallies.dfy`, `Repository.dfy`, `Services.dfy`), as
  classes that change the tables in place, each call taken alone.
- **Casting as a concurrent protocol** (`Casting.dfy`, `CastingSafety.dfy`). Calls to `CastBallot`, ticks of
  the scheduler and calls to `GetTally` run statement by statement in any interleaving, with failing
  statements, lost replies and an arbitrary clock. Only the UNIQUE constraints guard the tables.
  `Scheduling.dfy` says what uninterrupted ticks do to a poll, and that they are those of the protocol.
- **The live-result hub** (`Hub.dfy`, `HubRuns.dfy`): the class, each call alone, and then all calls
  together, every channel send a step of its own, with lists that are Go slices over arrays that `append` may
  share and `remove` overwrites in place. `LiveResults.dfy` runs the hub together with the voting protocol: each
  recorded ballot starts a goroutine that counts the ballots of its poll and publishes the total.
- **Keyset pagination** (`Base64.dfy`, `Pagination.dfy`, `PaginationWalks.dfy`, `PaginationLimits.dfy`): cursors,
  pages and whole walks over a table that may change in any way between two fetches.

SHA-256 is a parameter: any function from strings to 64-character strings. Such a function always has
collisions, so "or there is a collision" would say nothing. The binding results name the two colliding
strings instead, computed from the data at hand by functions such as `Merkle.ForgedPair`.

## Where the code differs from what is said of it

- `packages/nz-common/pagination/cursor.go:68-70` says that the extra row is used to make the next cursor.
  The code uses the last row that is kept (line 84), and so does the model.
- `packages/nz-common/pagination/cursor.go:2-3` promises walks that stay stable. `PaginationWalks.WalkIsStable`
  proves it for unique keys that are not empty. Rows that share a sort key can be lost, and an empty last key
  starts the walk again (`Pagination.CursorAdvances`); `PaginationWalks.WholeTableNeedsKeys` says exactly which
  tables every walk brings as a whole, and `PaginationLimits.WholeAtLimit` which a walk with one given limit does.
- `migrations/001_init.sql:47` has CHECK (choice_index >= 0), while ranked ballots are stored with -1
  (`migrations/002_ranked_ballots.sql:8`). The model follows the second and has no such CHECK.
- Ballots are not only inserted while the poll is open: the status is read earlier.
  `CastingSafety.BallotAfterClosing` is a run that shows it, and `CastingSafety.InsertMeetsOpenPoll` says exactly
  when an insert still meets an open poll; a call that starts once the poll is closed stores nothing
  (`ClosedTakesNothing`, `LateCallStoresNothing`).
- A tally once stored is not refreshed by `GetTally`: `CastingSafety.StaleTallyIsServed` is a run that shows it,
  and `StoredTallyIsCurrent` and `ServedTallyIsCurrent` say exactly when it is current all the same. So the check
  that the repository's `README.md:161` describes can fail for an honest server; `AuditBinding.AuditorsCheck` says
  when.
- The repository's `README.md:157` has one fetch of `/audit` give the full ballot list. It gives a page, and the
  list takes a walk (`Audit.WalkReassembles`). The total, the entries and the root of a page come from three reads,
  between which ballots may be stored; `AuditReads.AuditAnswerIsPage` says exactly when they fit together.
- The repository's `README.md:163` says that a choice can be seen only with the receipt. Each entry of the public
  audit shows both (`Audit.PageShowsRows`), to everyone; who cast it, only the holder of the receipt can tell.
- The goroutine for the live total ignores the error of its query (`internal/services/poll.go:177`). What a failed
  query publishes may be too low, zero at worst; `LiveResults.LiveTotalIsPast` allows for it.
- A coalition backed by more than half of all ballots need not provide the winner, because candidates at the
  minimum go out together: `RunoffOutcome.CoalitionCanLose` is an example, and `CoalitionWinsOnBallots` the exact
  condition on the ballots.
- A winner need not have a majority of the last round. In the same example it has 3 votes of 7;
  `RunoffOutcome.LastRoundDecides` and, on the ballots, `MajorityOnBallots` say exactly when it has one, and
  `MajorityIsSureForTwo` for how many options it always has.
- The counts of a ranked poll need not add up to its ballots (`Tallies.RankedNeedNotAddUp`); they do exactly when
  there is a winner or no ballot (`Tallies.RankedAddsUp`).
- Merkle roots do not tell all lists of different lengths apart (`Merkle.RepeatedLastLeafKeepsRoot`);
  `MerkleRoots.RootsAgreeWhenPaddedAgree` says exactly which ones. The lists that are confused repeat a
  commitment, which rows of the table do only with a collision, so the root of real ballot sets binds at every
  size (`AuditBinding.MerkleRootBindsBallots`).

## Model

| member | source | states |
|---|---|---|
| Merkle.BuildMerkleProof | internal/services/tally.go:237-272 | The level-by-level loops, with the index halved while a level is scanned, give the root and the path of the recursively defined tree that repeats the last node of an odd level; no leaves give the digest of the empty string, one leaf is its own root with an empty path |
| MerkleLevels.TreeOf | internal/services/tally.go:246-271 | The root is the top of the tower in which each level has the digests of the pairs of the level below, left one first, a last node without a neighbour paired with itself; and the path has, level by level, the neighbour of the node passed on the way up and its side |
| MerkleLevels.OnlyTree | internal/services/tally.go:246-271 | There is one such tower over given leaves |
| Merkle.ScanLevel | internal/services/tally.go:253-269 | One pass over an even level yields the digests of its pairs, exactly one sibling with its side, and the halved index, although the index changes before the pass is over |
| Merkle.HeightIsTight | internal/services/tally.go:249-269 | The number k of levels satisfies n <= 2^k, and 2^(k-1) < n if there is more than one leaf |
| Merkle.PathClimbs | internal/services/tally.go:259-266 | The first k steps of the path fold the leaf to its ancestor k levels up, and their directions lead from that ancestor back down to the leaf |
| Merkle.PathLeadsToRoot | internal/services/tally.go:234-272 | Completeness and shape: the path built for a leaf folds to the root, has one sibling per level, its length is tight for the number of leaves, and its directions are the binary digits of the leaf index |
| Merkle.AcceptedIsMember | internal/services/tally.go:208-232 | Soundness for any offered path of digests, of any length, and any ballot set, also an empty one: if it folds to the root over the set, it has exactly the height of the tree, its commitment is in the set and stands in the padded full tree at the very position its directions spell, or ForgedPair is a collision |
| Merkle.MerkleRootBinds | internal/services/tally.go:237-272 | Equal roots over equally many 64-character leaves mean equal lists, or ParentCollision is a collision |
| Merkle.RepeatedLastLeafKeepsRoot | internal/services/tally.go:250-252 | Every odd list of more than one leaf has the same root as the list with its last leaf repeated |
| MerkleRoots.RootsAgreeWhenPaddedAgree | internal/services/tally.go:206-272 | Ballot sets of any sizes, also empty ones, have the same root exactly when they pad to the same full tree, unless RootCollision is a collision |
| MerkleRoots.SameSizeSamePadding | internal/services/tally.go:250-252 | Sets of one size pad to the same tree only if they are equal, repetitions or not |
| MerkleRoots.RootBindsDistinct | internal/services/tally.go:202-221 | Among sets in which no commitment repeats, of whatever sizes, equal roots mean equal sets, or RootCollision is a collision |
| Merkle.PaddedStartsWithAll | internal/services/tally.go:250-252 | Padding keeps every commitment at its place, adds only after the end, and fills up to a power of two |
| MerkleRoots.NodesBind | internal/services/tally.go:253-257 | Equal nodes anywhere in two trees stand in the same level above the same commitments, or PartingPair is a collision |
| AuditRoot.ComputeAuditRoot | internal/services/tally.go:301-314 | The root is the digest of the sorted commitments written one after the other, and of nothing for no commitments |
| AuditRoot.RootByHand | README.md:157-161 | Whoever puts the commitments in order, writes them one after the other and hashes the text gets the root |
| AuditRoot.RootIgnoresOrder | internal/services/tally.go:299-307 | The root depends only on the multiset of commitments |
| AuditRoot.RootBinds | internal/services/tally.go:299-314 | Lists of digests, of whatever lengths, have equal roots exactly when they are rearrangements of each other, unless RootPreimages is a collision |
| StringOrder.SortStrings | internal/services/tally.go:305-307 | Sorting yields the same strings, with their multiplicities, in byte order |
| StringOrder.SortedUnique | internal/services/tally.go:300-307 | A multiset of strings has only one sorted arrangement, so the result is deterministic |
| StringOrder.LexLessAt | internal/services/tally.go:305-307 | One string is before another exactly if it is the smaller at the first place where they differ, or the other continues it |
| Decimals.AtoiItoa | packages/nz-common/pagination/cursor.go:42 | Parsing a printed 64-bit integer gives it back |
| Decimals.ItoaIsDecimal | internal/services/poll.go:149 | The printed integer is the one string with a minus sign exactly for negative numbers, decimal digits of the right value, and no zero before other digits |
| Decimals.ValueByDigits | packages/nz-common/pagination/cursor.go:42 | The value of digits is decimal: a digit more counts once, and what stands before it tenfold |
| Decimals.AtoiReads | packages/nz-common/pagination/cursor.go:42 | A text is read exactly if it is digits, with a sign or without, and its value fits 64 bits |
| Decimals.ItoaPrefix | internal/services/poll.go:149 | A printed integer followed by a non-digit determines the integer and what follows |
| Decimals.JsonIntsInjective | internal/services/poll.go:136-137 | Different rankings are printed as different JSON arrays |
| Decimals.JsonIntsByElement | internal/services/poll.go:136-137 | An array is printed as its elements in their order, between brackets, with commas and nothing else |
| Commitments.CommitmentBinds | internal/services/poll.go:221-227 | Equal commitments stand for the same voter token, the same kind of vote, the same choice or ranking and the same receipt, or the two hashed strings collide; nothing separates the three fields but their widths |
| Commitments.VoterTokenBinds | internal/services/poll.go:213-219 | Equal voter tokens come from the same FLT, poll and salt, or TokenCollision, a pair for one of the two hashings, is a collision |
| AuditBinding.TwinsCollide | internal/services/poll.go:221-227 | Two different rows under one poll id with one commitment show a collision, the two strings hashed for them |
| AuditBinding.AuditRootBindsBallots | internal/models/voter.go:106-108 | The promise of the audit: lists of committed rows under one poll id, of whatever lengths, with the same audit root hold the same ballots, with the same tokens, votes and receipts, and have the same tally, or AuditCollision is a collision |
| AuditBinding.MerkleRootBindsBallots | internal/services/tally.go:185-232 | The same for the Merkle root of rows of which no two conflict; different numbers of ballots are told apart too |
| AuditBinding.PublishedRootsBind | internal/services/tally.go:142-183 | At any two moments, of one run or of two, whatever the polls there are, equal audit roots or equal Merkle roots under a poll id mean equal ballots, or an explicit collision |
| AuditBinding.AuditorsCheck | README.md:153-161 | In every run, the root an auditor recomputes from the pages of the audit is the one in the results if their total is the number of ballots listed; and if it is, the totals agree, or AuditCollision for the ballots of then and now is a collision |
| AuditReads.AuditAnswerIsPage | internal/services/tally.go:144-183 | Whatever is stored between the three reads of an audit page, the later see at least the rows of the earlier, in their places; the answer is a page of the ballot list under its root exactly when its total is the length of that list |
| AuditReads.VoterFindsVote | README.md:163 | In every run, each voter whose ballot was stored finds exactly one entry with the receipt, in any walk through the audit pages and at any later time; it shows the vote that was sent, and the receipt leads to that ballot |
| InstantRunoff.ComputeIRV | internal/services/irv.go:20-92 | Whatever order the maps are visited in, the loop returns the winner and the rounds of the order-free count |
| RunoffRules.CountFollowsRules | internal/services/irv.go:20-92 | An outcome is that of the count exactly if it follows the rules: in each round every ballot counts for the first candidate who stands, without a majority all who have the fewest are eliminated, the rounds go on among the others, and the one with a majority or the last one left wins |
| InstantRunoff.TallyRound | internal/services/irv.go:29-43 | A round gives each ballot to its first active choice; the counts cover exactly the active candidates and the total counts the ballots that are not exhausted |
| InstantRunoff.FindMajority | internal/services/irv.go:45-52 | The check finds a candidate with more than half of the active votes exactly if there is one |
| InstantRunoff.MinimumOf | internal/services/irv.go:54-60 | Starting from the largest int, the pass finds the smallest count |
| InstantRunoff.CandidatesAt | internal/services/irv.go:62-69 | The pass eliminates exactly the candidates at the minimum |
| InstantRunoff.MajorityIsUnique | internal/services/irv.go:46-51 | Two candidates cannot both have a majority, so the order of the check does not matter |
| RunoffLaws.CountIsAnonymous | internal/services/irv.go:35-43 | Rearranging the ballots changes nothing in the outcome |
| RunoffLaws.CountIsNeutral | internal/services/irv.go:28-91 | Renaming candidates by any injective renaming renames winner, counts and eliminated sets, and changes nothing else |
| RunoffLaws.RenamedPoll | internal/services/irv.go:20-92 | The same for a whole poll whose options are renamed among themselves |
| RunoffLaws.WinnerStands | internal/services/irv.go:83-91 | A winner is one of the candidates |
| RunoffLaws.LaterPreferences | internal/services/irv.go:28-91 | If the count elects w, changing ballots only in positions after w leaves the winner and every round as they were |
| RunoffLaws.LaterNoHarmNoHelp | internal/services/irv.go:28-91 | Such changes neither take the election from w nor give it to w |
| RunoffLaws.CleaningChangesNothing | internal/services/irv.go:35-43 | Deleting out-of-range and repeated choices from every ballot first changes nothing |
| RunoffLaws.EliminationIsStrikingOut | internal/services/irv.go:62-80 | The rounds after an elimination are those of a count started from the survivors on ballots with the eliminated candidates struck out |
| RunoffOutcome.VotesGrow | internal/services/irv.go:35-43 | When candidates drop out, the count of nobody who stays falls |
| RunoffOutcome.CountAddsUp | internal/services/irv.go:28-81 | In every round the counts add up to the active total; from round to round no survivor loses votes and the eliminated votes are the gains plus the newly exhausted ballots; there are fewer rounds than candidates |
| RunoffOutcome.LastRoundDecides | internal/services/irv.go:71-91 | With two or more candidates the winner strictly leads everyone else in the last round, with a majority exactly when that round eliminates nobody; there is no winner exactly when all who were left tied and went out together |
| RunoffOutcome.MajorityOnBallots | internal/services/irv.go:45-90 | The same on the ballots: with two or more candidates, one of them wins by a majority of the last round exactly when, after some number of eliminations, two or more still stand and that one is first among these on more than half of the ballots not exhausted |
| RunoffOutcome.MajorityIsSureForTwo | internal/services/irv.go:45-90 | Winners are sure to have a majority of the last round, whatever the ballots, exactly when there are at most two options |
| RunoffOutcome.CoalitionWins | internal/services/irv.go:35-81 | A coalition that more than half of all ballots put ahead of everyone else provides the winner exactly when no round eliminates all its remaining members |
| RunoffOutcome.CoalitionWinsOnBallots | internal/services/irv.go:35-81 | The same condition read off the ballots: such a coalition provides the winner exactly when at no number of eliminations all its members who still stand are at the minimum |
| RunoffOutcome.CoalitionWinsOneByOne | internal/services/irv.go:35-81 | So it does when no round eliminates more than one candidate, and a coalition of one does in any case |
| RunoffOutcome.CoalitionCanLose | internal/services/irv.go:62-69 | Three ballots [0], two [1,2] and two [2,1] elect 0 although most ballots put 1 and 2 ahead of it; the one round counts 3, 2 and 2 of 7 votes and eliminates 1 and 2, so 0 has no majority |
| Polls.ValidateRankings | internal/services/poll.go:238-253 | The loop reports no fault exactly for rankings, and else the first fault; an index out of range is reported as such, even if it is a repetition |
| Polls.FaultlessIsRanking | internal/services/poll.go:238-253 | The reported fault is absent exactly for proper rankings |
| Polls.FaultIsFirst | internal/services/poll.go:238-253 | A ranking is refused with an error exactly if that is what its first faulty position says |
| Polls.FaultlessVoteIsValid | internal/services/poll.go:132-161 | The checks of CastBallot pass exactly when the row that holds the vote sent is one its poll allows |
| Polls.CastOutcomeIsRight | internal/services/poll.go:106-190 | A ballot is recorded exactly when its poll is open, the voter has none there, the vote is one the poll allows and the receipt is new; the one new row then holds the choice or ranking sent, the receipt, and the token and commitment that are the digests of the promised concatenations. Otherwise nothing changes, and the error is that of the first thing in the way |
| Polls.RefusalIsOne | internal/services/poll.go:106-168 | No call meets the conditions of two errors, or of an error and of success |
| Repository.VoterRepository.CreatePoll | internal/repository/voter_repo.go:68-93 | A poll is added under a fresh id if it closes after it opens, and otherwise nothing changes |
| Repository.VoterRepository.OpenDraftPolls | internal/repository/voter_repo.go:149-157 | A poll changes exactly if it is a draft whose opening time has come; it then becomes open, with everything else of it kept; no poll comes or goes, and the number returned is that of the polls changed |
| Repository.VoterRepository.CloseExpiredPolls | internal/repository/voter_repo.go:161-169 | A poll changes exactly if it is open and its closing time has come; it then becomes closed, with everything else of it kept; no poll comes or goes, and the number returned is that of the polls changed |
| Repository.VoterRepository.InsertBallot | internal/repository/voter_repo.go:201-227 | The row is appended unless a row with the same poll and voter token, or with the same receipt, stands in the way, or the poll does not exist; then the table stays as it was, and the error tells which |
| Repository.VoterRepository.HasVoted | internal/repository/voter_repo.go:230-240 | True exactly if a row has that poll and voter token |
| Repository.VoterRepository.GetBallotsByPoll | internal/repository/voter_repo.go:260-267 | All rows of the poll and no others, in the order of the table |
| Repository.VoterRepository.GetBallotsByPollPaginated | internal/repository/voter_repo.go:270-286 | From the offset on, as many of those rows as there are and as fit the limit, and the number of all; a negative offset is refused |
| Repository.VoterRepository.CountVotesByPoll | internal/repository/voter_repo.go:312-331 | For each choice that occurs among the rows of the poll, the number of its rows |
| Repository.VoterRepository.GetBallotByReceiptToken | internal/repository/voter_repo.go:334-357 | A row of the table that has the receipt asked for, or nothing if no row has it |
| Repository.VoterRepository.UpsertTally | internal/repository/voter_repo.go:362-384 | The tally of the poll is replaced and no other |
| Services.PollService.CreatePoll | internal/services/poll.go:39-75 | A poll is created exactly for a titled request with two options or more, a known ballot type and a closing time after the opening time; it has what was asked for, and is open exactly if the opening time has come; a refused request changes nothing |
| Services.CreateFault | internal/services/poll.go:255-269 | A request passes exactly if it has a title, two options or more, a closing time, and, where it says when it opens, a closing time after that |
| Services.PollService.CastBallot | internal/services/poll.go:106-190 | Taken alone, the call leaves the tables and gives the answer that CastOutcomeIsRight says the service owes: a row that holds the vote sent, or the right refusal |
| Services.PollScheduler.Tick | internal/scheduler/scheduler.go:48-62 | A draft that is due becomes open if that statement succeeds, and then it, like any open poll that is due, becomes closed if the other one does; nothing else changes, and a statement that fails does not keep the other one from running |
| Services.PollScheduler.Run | internal/scheduler/scheduler.go:30-46 | The polls go through one tick at once and one for every signal, in order |
| Scheduling.TicksOnPoll | internal/scheduler/scheduler.go:30-62 | After any ticks, with any of their statements failing, a poll differs in its status only, is not ahead of the clock when the last tick ended, and not behind the clock when any successful tick began |
| Scheduling.TickCatchesUp | internal/scheduler/scheduler.go:48-62 | After a successful tick the status of every poll lies between those of the clock when the tick began and when it ended |
| Scheduling.TickAloneIsTick | internal/scheduler/scheduler.go:48-62 | The two steps of a tick in the concurrent protocol, uninterrupted, leave the tables that the sequential tick leaves |
| Services.TallyService.ComputeAndStoreTally | internal/services/tally.go:44-111 | The tally returned and stored counts the rows of the poll: for each option its votes, or in a ranked poll all ballots for the winner of the runoff, which is reported for ranked polls only; an unknown poll changes nothing |
| Services.TallyService.GetTally | internal/services/tally.go:114-140 | A stored tally is returned as it is, without a runoff; otherwise one is computed and stored |
| Services.TallyService.GetAuditProof | internal/services/tally.go:144-183 | Entry i shows the receipt, choice, ranking and commitment of row offset + i, for as many rows as the limit from 1 to 500, or else 100, allows; total and root are those of all rows |
| Services.TallyService.GetMerkleProof | internal/services/tally.go:188-232 | For the receipt of a ballot of the poll, a proof that is accepted, for the commitment of that very ballot, from the tree over the sorted commitments; nothing for a receipt that is unknown or of another poll; the error for a missing commitment cannot occur |
| Tallies.CountSingleChoice | internal/services/tally.go:79-84 | The loop counts each row under its choice, also under choices that are no option, and collects the commitments |
| Tallies.CollectRankings | internal/services/tally.go:66-73 | The loop collects the rankings that are not empty, and all commitments |
| Tallies.ComputeTally | internal/services/tally.go:58-95 | Total, counts and audit root are those of the rows: the count of an option is the number of its votes, or in a ranked poll all ballots for the winner and none for the others; the runoff follows the rules for the rankings of the rows |
| Tallies.TallyIsRight | internal/services/tally.go:58-95 | The same of the specification TallyOf, for any poll and rows |
| Tallies.RunoffIsRight | internal/services/tally.go:66-78 | The runoff counts the rankings of the rows that have one, all of them and in their order |
| Tallies.RowsStandInOrder | internal/repository/voter_repo.go:260-267 | The rows of a poll stand in the table in ascending places, and no row of the poll is left out |
| Tallies.TallyIgnoresOrder | internal/services/tally.go:58-95 | A tally does not depend on the order in which the rows were read |
| Tallies.SingleChoiceAddsUp | internal/services/tally.go:79-93 | The counts of a single-choice poll add up to the total, the number of its ballots |
| Tallies.ValidRowsCountOptions | internal/services/tally.go:58-61 | On rows that CastBallot lets through, the counts are for the options of the poll and nothing else |
| Tallies.RankedAddsUp | internal/services/tally.go:74-78 | The counts of a ranked poll add up to its ballots exactly when there is a winner or no ballot |
| Tallies.RankedNeedNotAddUp | internal/services/tally.go:74-78 | With one ballot for each of two options there is no winner, and the counts do not add up to the ballots |
| Tallies.CountsGrow | internal/services/tally.go:79-93 | Later ballots never lower a count of a single-choice poll |
| Tallies.GroupsAddUp | internal/services/poll.go:177-180 | The counts summed for the live event give the number of ballots of the poll, ranked or not, and no more if only some of the groups came |
| Tallies.GroupsAreVotes | internal/repository/voter_repo.go:312-331 | Each group counts the rows with its choice, and there is one for each choice that occurs |
| Audit.ClampLimit | internal/services/tally.go:145-147 | Whatever limit is asked for, a page has room for at least one entry and at most 500 |
| Audit.HashLeaves | internal/services/tally.go:208-216 | The loop hashes every commitment and finds the last place of the one asked for, or none exactly if it is not there |
| Audit.WalkReassembles | internal/services/tally.go:142-183 | For any requested limits, asking for the page after the entries received so far ends and brings one entry for each ballot, in order, with its receipt, choice, ranking and commitment; hashing the sorted commitments it brought gives the root shown on every page |
| Audit.PageShowsRows | internal/services/tally.go:142-183 | Each entry of a page shows what the row at its offset holds, and the page has as many as the limit and the rows allow |
| Audit.ProveBallot | internal/services/tally.go:197-231 | A proof exists exactly if the commitment is among the rows; it is accepted, its index is the last place of the commitment in sorted order, as its path spells, and root and path are those of the tree over the sorted commitments |
| Audit.AcceptedIsBallot | internal/services/tally.go:202-221 | Any path accepted against the root of a ballot list belongs to a ballot of the list, or ForgedPair is a collision |
| Casting.StepKeepsOnTime | internal/repository/voter_repo.go:149-169 | No step puts a poll ahead of the clock, or behind the start of the last successful tick that saw it |
| Casting.InsertIsSound | internal/services/poll.go:128-168 | What an insert stores holds the choice or ranking asked for, under the receipt drawn, valid for its poll, with the promised token and commitment; what it refuses as a double vote is one, or the receipt was taken; what it refuses as a bad vote is one |
| Casting.StepKeepsBallotsSound | internal/services/poll.go:106-190 | Whatever step any call, tick or job takes next, rows stay unique, valid, committed to, and matched one to one with the calls that stored them |
| CastingSafety.RunIsSafe | internal/services/poll.go:106-190 | Every state of every run satisfies the invariants on time, ballots and tallies |
| CastingSafety.CastingIsSafe | migrations/001_init.sql:43-52 | In every interleaving a voter token has at most one ballot in a poll, receipts are distinct, every row is a vote its poll allows with the commitment for it, rows and the calls that stored one match one to one, and each row holds the very vote its call sent, under the receipt drawn for it |
| CastingSafety.OneBallotPerVoter | internal/services/poll.go:116-128 | Of any number of racing calls by one voter to one poll, even if all pass the HasVoted check, at most one stores a ballot |
| CastingSafety.RefusalHasCause | internal/services/poll.go:121-128 | Whoever is told to have voted shares the FLT with a stored ballot of the poll, or drew a receipt that was taken, or there is an explicit collision |
| CastingSafety.RefusedVoteIsBad | internal/services/poll.go:132-148 | In every run, a vote refused as a bad ranking has that first fault, and one refused as out of range is out of range |
| CastingSafety.TickBoundsLag | internal/scheduler/scheduler.go:48-62 | After a tick whose statements both succeeded, no poll that existed at its start is ever again behind that time, or ahead of the clock; if no time has passed each has exactly the status of the clock |
| CastingSafety.ClosedTakesNothing | internal/services/poll.go:107-116 | A closed poll takes no ballot from a call that had not read it before |
| CastingSafety.LateCallStoresNothing | internal/services/poll.go:107-116 | A call that starts after a successful tick past the closing time stores nothing, in any continuation |
| CastingSafety.BallotWasReadOpen | internal/services/poll.go:107-116 | Every call that stores a ballot has read its poll while it was open |
| CastingSafety.OpenUntilClosed | internal/repository/voter_repo.go:161-169 | A poll that is open stays open exactly until a closing statement finds it expired |
| CastingSafety.InsertMeetsOpenPoll | internal/services/poll.go:107-168 | In every run, the insert of a call meets an open poll exactly when no closing statement has found the poll expired since the call read it |
| CastingSafety.BallotAfterClosing | internal/services/poll.go:114-168 | There is a run that stores a ballot in a poll that has been closed between the read and the insert |
| CastingSafety.ServedTallyIsPast | internal/services/tally.go:114-140 | Any tally served is the exact tally of the ballots at some earlier state of the run; in a single-choice poll it adds up and no count exceeds a fresh recount |
| CastingSafety.ServedTallyIsCurrent | internal/services/tally.go:123-139 | A served tally is current exactly when its total is the number of ballots the poll has now |
| CastingSafety.StoredTallyIsCurrent | internal/services/tally.go:123-139 | The same of the stored tally, before anybody asks for it |
| CastingSafety.StaleTallyIsServed | internal/services/tally.go:123-139 | There is a run in which somebody who asks for the tally after a ballot was stored is served one that does not count it |
| Hub.WithoutFirstAt | internal/services/sse.go:63-69 | Deleting an element of a list without repetitions keeps all others in order, and the element is gone |
| Hub.TallyHub.constructor | internal/services/sse.go:22-25 | A new hub has no lists |
| Hub.TallyHub.Subscribe | internal/services/sse.go:29-43 | A new open, empty channel is appended to the list of its poll and no other list changes |
| Hub.TallyHub.Publish | internal/services/sse.go:47-57 | Every channel in the list of the poll gets the event behind what its buffer holds, if that is fewer than four events, and else stays as it is; no other channel changes |
| Hub.TallyHub.Remove | internal/services/sse.go:59-73 | Only the target leaves its list, the others keep their order, and a list that becomes empty leaves the map |
| Hub.TallyHub.Unsubscribe | internal/services/sse.go:36-40 | The channel leaves its list and is closed after that, and no other channel is closed |
| HubRuns.DeletedDrops | internal/services/sse.go:63-72 | Shifting the array in place drops one channel from one list, and every other list reads as before |
| HubRuns.RunIsSafe | internal/services/sse.go:29-73 | Every state of every interleaving of subscribers, readers, publishers and removals satisfies the invariants of the hub |
| HubRuns.HubIsSafe | internal/services/sse.go:29-73 | No send ever meets a closed channel, no closed channel is in a list, no empty list stays in the map, buffers hold at most four events, and a subscriber receives a subsequence of what it was offered, all for its own poll |
| HubRuns.PublishReachesEveryone | internal/services/sse.go:47-57 | A publisher that is done has offered its event once to every channel then in the list of its poll, and to no other |
| HubRuns.SendDelivers | internal/services/sse.go:51-56 | In any state of a run, a send puts the event behind a buffer with room, and leaves a full one as it is |
| HubRuns.OnlyFullBuffersMiss | internal/services/sse.go:51-56 | In every run, what a reader has got or can still get is what was offered, in order, and an offer is missing only if the buffer was full at its send |
| HubRuns.PublishDelivers | internal/services/sse.go:47-57 | When a publisher is done, every channel in the list of its poll has got the event or had a full buffer at the send |
| HubRuns.RemoveTakesOutOne | internal/services/sse.go:59-73 | In any interleaving a removal takes out its own channel, keeps the rest of its list in order, and leaves the lists of other polls alone |
| LiveResults.LiveTotalIsPast | internal/services/poll.go:172-182 | Every event a subscriber gets is of the poll it listens to, and counts the ballots the poll had at an earlier state of the run, among them the one that caused it; it misses none of them unless the query failed, and never counts more |
| LiveResults.LastTotalIsCurrent | internal/services/poll.go:172-182 | Whatever order the goroutines run in, the one started for the last ballot of a poll announces the number of all of them, unless its query failed |
| LiveResults.TotalIsDelivered | internal/services/poll.go:172-182 | When the goroutine of a recorded ballot is done, its total has reached every subscriber in the list of the poll whose buffer was not full at the send |
| Base64.DecodeEncode | packages/nz-common/pagination/cursor.go:57-59 | Decoding an encoded cursor gives back every string of bytes |
| Base64.SymbolsAreAlphabet | packages/nz-common/pagination/cursor.go:57-59 | The alphabet is the URL-safe one of section 5 of RFC 4648 |
| Base64.GroupIsNumber | packages/nz-common/pagination/cursor.go:57-59 | Four symbols are the base-64 digits of the number that three bytes make |
| Base64.DecodeAccepts | packages/nz-common/pagination/cursor.go:33-39 | A cursor is read exactly if it has only symbols and line breaks, and the symbols do not leave a single one over when taken by fours |
| Pagination.NewResult | packages/nz-common/pagination/cursor.go:74-87 | There is more exactly if more rows than the limit came; the items are the rows up to the limit, and the cursor is that of the last of them, present exactly if there is more and something was kept |
| Pagination.LimitIsNumber | packages/nz-common/pagination/cursor.go:41-50 | Without a limit parameter the limit is 20; otherwise the parameter must be a number from 1 on that fits 64 bits, and any larger than 100 stands for 100 |
| Pagination.QueryErrors | packages/nz-common/pagination/cursor.go:30-53 | A request is refused for its cursor exactly if that is not empty and cannot be decoded, and for its limit exactly if the cursor is in order and the limit is not |
| Pagination.CursorRoundTrip | packages/nz-common/pagination/cursor.go:30-59 | The cursor of a page, sent with the next request, is read as the key of the last row shown, and the limit as the number printed, up to 100 |
| Pagination.FetchIsStretch | packages/nz-common/pagination/cursor.go:68-87 | A request is answered with the stretch of the table after the cursor, of at most the limit |
| Pagination.WalkIsTrace | packages/nz-common/pagination/cursor.go:30-87 | Whatever the table does between fetches, a walk by cursors shows what a walk shows that remembers keys |
| PaginationWalks.WalkAscends | packages/nz-common/pagination/cursor.go:68-87 | Over tables that change at will between fetches, the keys a walk brings strictly ascend |
| PaginationWalks.WalkIsExact | packages/nz-common/pagination/cursor.go:68-87 | A completed walk brings a row exactly if the table holds it at the fetch at which the walk passes its key |
| PaginationWalks.WalkIsStable | packages/nz-common/pagination/cursor.go:1-3 | No row comes twice, every row that comes was in the table when its page was fetched, and a completed walk has brought every row that was there throughout |
| PaginationWalks.FrozenWalk | packages/nz-common/pagination/cursor.go:68-87 | A table of n rows that does not change comes back whole, on max(1, ceil(n / limit)) pages |
| PaginationWalks.WholeTableNeedsKeys | packages/nz-common/pagination/cursor.go:55-57 | For every table in key order, walks with every limit bring all of it exactly if no two rows share a key and the first of several rows has a key that is not empty |
| PaginationLimits.WholeAtLimit | packages/nz-common/pagination/cursor.go:68-87 | With one given limit a table in key order comes back whole exactly if at the end of every page but the last the key is not empty and smaller than that of the next row |
| Pagination.CursorAdvances | packages/nz-common/pagination/cursor.go:16-20 | The cursor of a page leads past that page in every later table exactly if the last key shown is not empty |
| Casting.StepKeepsPolls | internal/repository/voter_repo.go:149-169 | Supporting fact: no step removes a poll, changes anything of it but its status, or moves the status back |
| CastingSafety.AloneIsCastBallot | internal/services/poll.go:106-190 | Supporting fact: a call whose steps nobody interrupts does what the method CastBallot does, and its reply confirms the ballot recorded |
| HubRuns.ClosedOnce | internal/services/sse.go:36-40 | Supporting fact: no channel is closed twice |
| HubRuns.AppendAdds | internal/services/sse.go:32-34 | Supporting fact: appending, in place or into a new array, adds one channel to one list, and every other list reads as before |
| Pagination.EmptyKeyRestarts | packages/nz-common/pagination/cursor.go:33-39 | Supporting fact: after a row with an empty key the walk gets the first page again |

## Left out

- SHA-256 itself (section 6.2 of FIPS 180-4), random salts and the generation of UUIDs: the digest function, salts, ids and receipt tokens are parameters.
- Bytes of text: strings are lists of characters and digests and ids have 64 and 36 of them; only cursors are restricted to bytes.
- PostgreSQL and its driver: tables are maps and sequences that one statement at a time reads or changes. Failing statements and lost replies are steps of their own in `Casting`; the classes of `Repository` and `Services` do not fail.
- One clock: the application and the database share it, and one scheduler runs, as the server starts it.
- ORDER BY cast_at: the table keeps its rows in that order; in `Casting` a read for a tally may bring them in any order, since times can tie. Audit pages assume a fixed order.
- The two reads of GetTally are one step of `Casting`: polls are never removed, so the later read decides.
- InstantRunoff.ComputeIRV: requires at most MAX_INT / 2 ballots, because `count*2` is a 64-bit product; no list in memory is longer.
- Tallies.ComputeTally: has the same bound, and so have the services that call it.
- The order inside `Eliminated`: it follows the order of a Go map, so a round has the set.
- Merkle.BuildMerkleProof: requires an index below the number of leaves, as its only caller ensures; beyond that the source returns a path that proves nothing.
- Polls.ValidateRankings: the text of the error messages is not modelled, only which error it is and the index it names.
- GetActivePolls, GetAllPolls, GetVoterReceipt and VerifyReceipt only read: they list polls, or look up one row by voter token or receipt. GetPollByID and GetTallyByPoll, which the services need, stand for this kind.
- UpdatePollStatus sets the status of a poll to anything; no service calls it, so the lifecycle results do not allow for it.
- The registration of voters: it keeps a table of FLT digests and a status that no modelled service reads.
- Live totals published by different goroutines may arrive out of order; no order is promised or proved.
- Subscribers of several server instances, NATS, Redis and `internal/services/poll_cache.go`, which is not wired in.
- Pagination: the collation of the database is the byte order, and a request the service refuses is asked again. IDCursorSQL only builds a text for a database and is not part of the model.
- HTTP handlers, SAML, JWT, RealMe and the other clients, middleware, the React pages and `packages/nz-common/money`.
