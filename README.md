# Instant-runoff tallier

A Dafny model of `election(candidates, ballots)` from
`src_code/instant-runoff-vote/instant-runoff-votes.cc`. It is an instant-runoff vote count. A
ballot gives every candidate a rank, and a lower rank is preferred. The function does two
things:

- It turns every ballot into a list of `(candidate, rank)` pairs sorted by rank.
- It runs rounds until one returns. A round tallies each ballot's first choice still in the
  running. It returns a candidate who reaches `sum / 2 + 1` votes. Otherwise it returns the
  least-voted candidates if they are everyone still in the running (a full tie). Otherwise it
  eliminates them and starts the next round.

The model keeps the source's imperative shape. Each step is a method proved equal to a
specification function:

- `SortByRank` is an insertion sort on an array, standing in for `std::sort`.
- `SortBallot` and `SortBallots` build and sort the pairs.
- `TallyVotes` holds the nested tally loops.
- `ScanCandidates` is the majority check and least-voted scan.
- `NamesOf` builds the tie's names.
- `Eliminate` inserts the least-voted candidates into the eliminated set.
- `Election` is the `while (true)` round loop.

The properties are lemmas about those functions.

The modules are:

- `Preferences`: the sort step.
- `RoundTally`: the tally.
- `Scan`: the threshold and the scan.
- `Election`: rounds, the loop and the defect.
- `Corrected`: the loop with the seed defect repaired.
- `Scenarios`: the four elections of `main.cc` plus one that exposes the defect.

The scan seeds its least-voted list with candidate 0 whether or not candidate 0 is still in the
running (line 44). The model keeps this as written: the scan compares the keys `[0]` followed by
every candidate after 0 still in the running (`Scan.ScanKeys`).

Once candidate 0 is out, a round can name only candidate 0 as least voted. Eliminating it again
changes nothing, so the source loops for ever. `Election.Election` returns `NoResult` where the
source would loop, and only then. `Election.ElectionFrom` calls that outcome `Stalled`.
`Election.Rounds` is the literal loop with a bound on the number of rounds. The lemmas
`RoundsStalled`, `RoundsDecided` and `RoundsAgree` show that it never returns on a stalled
election and returns the decided result on every other one.

`std::sort` is not stable. A sorted ballot is therefore specified only as some permutation of its
pairs in rank order (`Preferences.Arranges`). The election is defined over any such arrangement.
When a ballot has no repeated rank the arrangement is unique
(`Preferences.ArrangementUnique`).

## Model

| member | source | states |
|---|---|---|
| Preferences.RankBeforeIsStrictWeakOrder | src_code/instant-runoff-vote/instant-runoff-votes.cc:8-12 | The comparator orders pairs by rank alone. It is irreflexive and transitive, and incomparability is transitive, so it is the strict weak order the sort requires. |
| Preferences.PairsCount | src_code/instant-runoff-vote/instant-runoff-votes.cc:20-23 | The pairs built from a ballot hold `(i, ballot[i])` exactly once for every candidate i, and nothing else. |
| Preferences.SortByRank | src_code/instant-runoff-vote/instant-runoff-votes.cc:24 | Sorting in place leaves the array non-decreasing in rank, holding the same multiset of pairs. |
| Preferences.InsertDown | src_code/instant-runoff-vote/instant-runoff-votes.cc:24 | One insertion step extends the sorted prefix by one entry, leaves the entries after it unchanged and keeps the multiset of pairs. |
| Preferences.SortBallot | src_code/instant-runoff-vote/instant-runoff-votes.cc:20-24 | The list built for one ballot is non-decreasing in rank and is a permutation of the ballot's pairs. |
| Preferences.SortBallots | src_code/instant-runoff-vote/instant-runoff-votes.cc:19-26 | There is one sorted list per ballot, in ballot order, and each is an arrangement of its ballot. |
| Preferences.ArrangementUnique | src_code/instant-runoff-vote/instant-runoff-votes.cc:24 | When a ballot repeats no rank, every arrangement of it by rank is the same list, so the unstable sort order does not matter. |
| RoundTally.ArrangesAllBounded | src_code/instant-runoff-vote/instant-runoff-votes.cc:19-26 | When every ballot has one rank per candidate, every sorted pair names one of the candidates, so `votes[candidate]` at line 37 is in range. |
| RoundTally.FirstActiveAt | src_code/instant-runoff-vote/instant-runoff-votes.cc:32-38 | The inner loop stops at the first pair whose candidate is not eliminated. Every pair before it is eliminated. It runs off the end only when all are eliminated. |
| RoundTally.BallotVotesForFavourite | src_code/instant-runoff-vote/instant-runoff-votes.cc:31-39 | A ballot votes for a candidate in the running with the lowest rank among those in the running. It votes for nobody exactly when every candidate it lists is eliminated. |
| RoundTally.TallyVotes | src_code/instant-runoff-vote/instant-runoff-votes.cc:30-40 | The nested loops produce the round's vote vector `Tally`, one count per candidate. |
| RoundTally.TallyCounts | src_code/instant-runoff-vote/instant-runoff-votes.cc:30-40 | Counts start at zero. Each candidate's count is the number of ballots whose first choice still in the running is that candidate. |
| RoundTally.EliminatedGetNothing | src_code/instant-runoff-vote/instant-runoff-votes.cc:34-35 | An eliminated candidate receives no vote. |
| RoundTally.SumTally | src_code/instant-runoff-vote/instant-runoff-votes.cc:30-43 | The sum of the counts is the number of ballots not exhausted, which is at most the number of ballots. |
| Scan.Threshold | src_code/instant-runoff-vote/instant-runoff-votes.cc:43 | The threshold t is the least count with `2t > sum`, which is `sum / 2 + 1` in integer division. |
| Scan.AtMostOneMajority | src_code/instant-runoff-vote/instant-runoff-votes.cc:43-53 | No two different candidates both reach the threshold. |
| Scan.FirstMajorityFinds | src_code/instant-runoff-vote/instant-runoff-votes.cc:45-53 | The winner found is the lowest-index candidate in the running that reaches the threshold, and none is found only when no candidate in the running reaches it. |
| Scan.ScanKeysWhileSeedActive | src_code/instant-runoff-vote/instant-runoff-votes.cc:44-60 | While candidate 0 is in the running, the seed plus the scanned candidates are exactly the candidates in the running, each once and in index order. |
| Scan.ScanOfMajority | src_code/instant-runoff-vote/instant-runoff-votes.cc:45-53 | The scan reports candidate c as the winner exactly when c is in the running and reaches the threshold; being the only such candidate, c is the one returned. |
| Scan.ScanBelow | src_code/instant-runoff-vote/instant-runoff-votes.cc:44-65 | A reported winner is a candidate in the running. A least-voted list is non-empty and names only candidates, so the names lookup at line 72 is in range. |
| Scan.ScanStep | src_code/instant-runoff-vote/instant-runoff-votes.cc:47-64 | One step of the scan: an eliminated candidate leaves the list alone. A lower count restarts the list, an equal count appends the candidate (except candidate 0 itself), and a higher count changes nothing. |
| Scan.ScanCandidates | src_code/instant-runoff-vote/instant-runoff-votes.cc:44-65 | The scan loop returns the first majority or the least-voted list that `ScanOf` specifies. |
| Scan.LeastWhileSeedActive | src_code/instant-runoff-vote/instant-runoff-votes.cc:44-65 | While candidate 0 is in the running, the least-voted list is exactly the candidates in the running with the least count among them, in increasing order without repeats. |
| Scan.SeedStaysLeast | src_code/instant-runoff-vote/instant-runoff-votes.cc:44-60 | Once candidate 0 is eliminated with no votes, and every candidate in the running has a vote, the least-voted list is `[0]`. |
| Election.Round | src_code/instant-runoff-vote/instant-runoff-votes.cc:28-80 | A round's winner is a candidate, a tie is a non-empty list of candidates, and a continuing round's eliminated set contains the old one and stays within the candidates. |
| Election.ElectionFrom | src_code/instant-runoff-vote/instant-runoff-votes.cc:28-81 | The rounds from a given eliminated set end in a decided non-empty list of candidates, or in a round that changes nothing (Stalled). |
| Election.RoundsStalled | src_code/instant-runoff-vote/instant-runoff-votes.cc:28-81 | On a stalled election the literal loop has not returned after any number of rounds. |
| Election.RoundsDecided | src_code/instant-runoff-vote/instant-runoff-votes.cc:28-81 | On a decided election the literal loop returns the decided candidates within one round per candidate still in the running. |
| Election.EveryoneOutRepeats | src_code/instant-runoff-vote/instant-runoff-votes.cc:30-80 | With every candidate eliminated all counts are zero, the scan names only the seed 0, and the round leaves the eliminated set as it was. |
| Election.DecidedLeavesSomeone | src_code/instant-runoff-vote/instant-runoff-votes.cc:28-81 | A decided election never reaches a state where every candidate is eliminated. |
| Election.RoundsAgree | src_code/instant-runoff-vote/instant-runoff-votes.cc:28-81 | Whatever the literal loop returns within any number of rounds is the decided outcome. |
| Election.NamesOf | src_code/instant-runoff-vote/instant-runoff-votes.cc:70-73 | The tie's names are the candidates' names in list order. |
| Election.Eliminate | src_code/instant-runoff-vote/instant-runoff-votes.cc:78-80 | The new eliminated set is the old one plus every least-voted candidate. |
| Election.Election | src_code/instant-runoff-vote/instant-runoff-votes.cc:14-81 | The result is the election outcome over some rank-order arrangement of the ballots: the names returned, or NoResult where the source would loop for ever. |
| Election.RoundVotes | src_code/instant-runoff-vote/instant-runoff-votes.cc:30-51 | The counts are the ballots' first choices still in the running. A count reaches the threshold exactly when it is more than half of the ballots not exhausted. |
| Election.RoundWinner | src_code/instant-runoff-vote/instant-runoff-votes.cc:45-53 | A round returns candidate c alone exactly when c is in the running and holds more than half of the ballots not exhausted. |
| Election.RoundProgress | src_code/instant-runoff-vote/instant-runoff-votes.cc:67-80 | While candidate 0 is in the running, a round that returns nothing eliminates at least one more candidate and leaves at least one in the running. |
| Election.RoundTie | src_code/instant-runoff-vote/instant-runoff-votes.cc:67-74 | While candidate 0 is in the running, a round ends in a full tie exactly when nobody has a majority and all candidates in the running have equal counts. The tie then lists all of them in index order. |
| Election.SingleActiveTakesAll | src_code/instant-runoff-vote/instant-runoff-votes.cc:30-40 | With one candidate left in the running, every ballot not exhausted votes for that candidate. |
| Election.SeedDefect | src_code/instant-runoff-vote/instant-runoff-votes.cc:44-80 | Suppose candidate 0 is eliminated, every candidate in the running has a vote and nobody has a majority. Then the round eliminates nobody new, the election is Stalled, and the literal loop never returns. |
| Election.NoBallots | src_code/instant-runoff-vote/instant-runoff-votes.cc:67-74 | With no ballots the first round is a full tie, and every candidate's name is returned in index order. |
| Corrected.CorrectedScanAgrees | src_code/instant-runoff-vote/instant-runoff-votes.cc:44-65 | While candidate 0 is in the running, the corrected scan and the scan as written agree. |
| Corrected.CorrectedLeastMembers | src_code/instant-runoff-vote/instant-runoff-votes.cc:44-65 | The corrected least-voted list is exactly the candidates in the running with the least count, in increasing order. It is empty only when nobody is in the running. |
| Corrected.CorrectedScanCandidates | src_code/instant-runoff-vote/instant-runoff-votes.cc:44-65 | The corrected scan loop, seeded by the first candidate in the running, returns `CorrectedScanOf`. |
| Corrected.CorrectedRound | src_code/instant-runoff-vote/instant-runoff-votes.cc:28-80 | Every corrected round that returns nothing eliminates at least one more candidate and leaves one in the running. |
| Corrected.CorrectedRoundAgrees | src_code/instant-runoff-vote/instant-runoff-votes.cc:28-80 | While candidate 0 is in the running, a corrected round is a round as written. |
| Corrected.CorrectedElectionFrom | src_code/instant-runoff-vote/instant-runoff-votes.cc:28-81 | The corrected rounds always return, with a non-empty list of candidates. |
| Corrected.CorrectedElection | src_code/instant-runoff-vote/instant-runoff-votes.cc:14-81 | The corrected loop terminates and returns the corrected outcome over some arrangement of the ballots. |
| Scenarios.Test1 | src_code/instant-runoff-vote/main.cc:6-15 | Two voters who both prefer Donald Trump elect him alone. |
| Scenarios.Test2 | src_code/instant-runoff-vote/main.cc:18-28 | Opposite ballots tie, and both names are returned in index order. |
| Scenarios.Test3 | src_code/instant-runoff-vote/main.cc:31-48 | The seven ballots elect Andrew Scheer alone. |
| Scenarios.Test4 | src_code/instant-runoff-vote/main.cc:51-72 | The eleven ballots eliminate May, then Scheer, then elect Justin Trudeau alone. |
| Scenarios.Test3Elects | src_code/instant-runoff-vote/main.cc:31-48 | The Test3 result holds for every arrangement of the ballots, since no ballot repeats a rank. |
| Scenarios.Test4Elects | src_code/instant-runoff-vote/main.cc:51-72 | The Test4 result holds for every arrangement of the ballots. |
| Scenarios.Stall | src_code/instant-runoff-vote/instant-runoff-votes.cc:44-80 | For three candidates and the ballots `[3, 1, 2]` and `[3, 2, 1]` the loop as written does not return (NoResult). |
| Scenarios.StallNeverReturns | src_code/instant-runoff-vote/instant-runoff-votes.cc:28-81 | The literal loop on those ballots has not returned after any number of rounds. |
| Scenarios.CorrectedStall | src_code/instant-runoff-vote/instant-runoff-votes.cc:44-65 | With the corrected seed the same election returns the tie between Bob and Cy. |

## Left out

- Integer widths are not modelled; all counts are unbounded naturals. This leaves out the `int`
  seed of `std::accumulate` (line 43) and the unsigned subtraction in the tie test (line 69).
  That subtraction cannot wrap only because `Election.Election` requires at least one candidate:
  the eliminated set then only ever holds candidates, the seed 0 included.
- Election: the ballots must have one rank per candidate and there must be at least one
  candidate. For a longer ballot the source indexes `votes` out of range (line 37). With no
  candidates `votes` is empty, so every ballot that lists a candidate also writes out of range at
  line 37. The scan loop (line 45) then never runs, and round 1 inserts the seed 0 (line 79).
  From round 2 on the subtraction at line 69 is 0 - 1 in unsigned arithmetic and wraps, so the
  loop never returns.
- Election: returns `NoResult` where the source loops for ever.
  `Election.RoundsStalled` and `Election.SeedDefect` state the non-termination itself.
- The order `std::sort` leaves equal ranks in is not modelled. A sorted ballot is any
  rank-ordered permutation of its pairs. `SortByRank` is one such sort, an insertion sort.
- The unreachable `return {""}` after the loop (line 84) is not modelled.
- `instant-runoff-votes.hpp` is a declaration only and is not part of this model. Neither is
  `scripts/convert_poe_art_to_nft.py`, which only copies files.
- `main.cc` is modelled only as its four scenarios. Its comments on test3 and test4 do not match
  the rounds the code actually runs; the asserted winners do match.
  - In test3, round 2 eliminates Trudeau and May together (3 votes to Scheer, 2 each to
    Trudeau and May), and Scheer wins round 3 with all seven votes.
  - In test4, Singh has 5 votes in round 3, not 4.

## Findings

| source | as written | input that shows it | evidently intended | confidence | as-written member | corrected member |
|---|---|---|---|---|---|---|
| src_code/instant-runoff-vote/instant-runoff-votes.cc:44-60 | The least-voted list is seeded with candidate 0 even after candidate 0 is eliminated. A round can then name only candidate 0, eliminate nobody new, and repeat for ever. | 3 candidates; ballots `[3, 1, 2]` and `[3, 2, 1]`. Round 1 eliminates candidate 0. Round 2 gives 0/1/1 votes again, the list stays `[0]`, and the loop never returns. | Seed the list with the first candidate still in the running. Every round that returns nothing then eliminates someone new, and the election above ends in a tie between candidates 1 and 2. | not executed | Scenarios.StallNeverReturns | Corrected.CorrectedElectionFrom |
