/**
 * The round loop with the least-voted list seeded by the first candidate still in the running
 * instead of candidate 0. With that seed every round that returns nothing eliminates at least one
 * more candidate, so the loop always ends.
 */
module Corrected {
  import opened Options
  import opened Preferences
  import opened RoundTally
  import opened Scan
  import opened Election

  /** The scan with the corrected seed: a winner, or the least-voted candidates in the running. */
  function CorrectedScanOf(votes: seq<nat>, eliminated: set<nat>): ScanResult
  {
    match FirstMajority(votes, eliminated, 0)
    case Some(w) => Majority(w)
    case None => Least(LeastSoFar(votes, eliminated, |votes|))
  }

  /** The least-voted among the candidates below i in the running, or [] when there are none. */
  function LeastSoFar(votes: seq<nat>, eliminated: set<nat>, i: nat): seq<nat>
    requires i <= |votes|
  {
    var running := Active(eliminated, 0, i);
    ActiveBelow(eliminated, 0, i, |votes|);
    if |running| == 0 then [] else LeastAmong(votes, running)
  }

  /** While candidate 0 is in the running the corrected scan and the scan as written agree. */
  lemma CorrectedScanAgrees(votes: seq<nat>, eliminated: set<nat>)
    requires |votes| > 0 && 0 !in eliminated
    ensures CorrectedScanOf(votes, eliminated) == ScanOf(votes, eliminated)
  {
    ScanKeysWhileSeedActive(eliminated, |votes|);
  }

  /** The corrected least-voted list holds exactly the candidates in the running that no candidate
      in the running undercuts, in increasing index order, and it is empty only when nobody is
      in the running. */
  lemma CorrectedLeastMembers(votes: seq<nat>, eliminated: set<nat>)
    ensures var least := LeastSoFar(votes, eliminated, |votes|);
            Increasing(least) && KeysBelow(least, |votes|) &&
            (|least| == 0 <==> |Active(eliminated, 0, |votes|)| == 0) &&
            forall c: nat :: c in least <==>
              (c < |votes| && c !in eliminated &&
               forall d :: 0 <= d < |votes| && d !in eliminated ==> votes[c] <= votes[d])
  {
    var running := Active(eliminated, 0, |votes|);
    ActiveMembers(eliminated, 0, |votes|);
    ActiveBelow(eliminated, 0, |votes|, |votes|);
    ActiveIncreasing(eliminated, 0, |votes|);
    if |running| > 0 {
      LeastAmongMembers(votes, running);
    } else {
      assert forall c :: 0 <= c < |votes| ==> c in eliminated;
    }
    BelowByMembers(LeastSoFar(votes, eliminated, |votes|), |votes|);
  }

  /** One step of the corrected scan at candidate i. */
  lemma CorrectedScanStep(votes: seq<nat>, eliminated: set<nat>, i: nat, least: seq<nat>)
    requires i < |votes|
    requires least == LeastSoFar(votes, eliminated, i)
    ensures |least| > 0 ==> least[0] < |votes|
    ensures i in eliminated ==> LeastSoFar(votes, eliminated, i + 1) == least
    ensures i !in eliminated ==>
              LeastSoFar(votes, eliminated, i + 1) ==
                if |least| == 0 || votes[i] < votes[least[0]] then [i]
                else if votes[i] == votes[least[0]] then least + [i]
                else least
  {
    var running := Active(eliminated, 0, i);
    ActiveMembers(eliminated, 0, i);
    ActiveBelow(eliminated, 0, i, |votes|);
    if i in eliminated {
      assert Active(eliminated, 0, i + 1) == running;
    } else {
      assert Active(eliminated, 0, i + 1) == running + [i];
    }
    if |running| > 0 {
      LeastAmongMembers(votes, running);
      assert least[0] in least;
      assert least[0] < |votes| && votes[least[0]] == MinAmong(votes, running);
      if i !in eliminated {
        LeastAmongAppend(votes, running, i);
      }
    } else if i !in eliminated {
      assert LeastAmong(votes, [i]) == [i];
    }
  }

  /** The corrected scan: one pass over the candidates, the list seeded by the first one in the running. */
  method CorrectedScanCandidates(votes: seq<nat>, eliminated: set<nat>) returns (result: ScanResult)
    ensures result == CorrectedScanOf(votes, eliminated)
  {
    var majority := Threshold(votes);
    var least := [];
    for i := 0 to |votes|
      invariant least == LeastSoFar(votes, eliminated, i)
      invariant FirstMajority(votes, eliminated, 0) == FirstMajority(votes, eliminated, i)
    {
      CorrectedScanStep(votes, eliminated, i, least);
      if i !in eliminated {
        if votes[i] >= majority {
          return Majority(i);
        }
        if |least| == 0 || votes[i] < votes[least[0]] {
          least := [i];
        } else if votes[i] == votes[least[0]] {
          least := least + [i];
        }
      }
    }
    return Least(least);
  }

  /** Some candidate is still in the running while the eliminated set is a proper subset. */
  lemma SomeoneRunning(eliminated: set<nat>, n: nat)
    requires eliminated < Range(n)
    ensures |Active(eliminated, 0, n)| > 0
  {
    RangeCard(n);
    ActiveCount(eliminated, n);
    var outside := Range(n) - eliminated;
    assert Range(n) == eliminated + outside;
    assert outside != {};
  }

  /** One corrected round. Every round that returns nothing eliminates at least one more candidate
      and leaves at least one in the running. */
  function CorrectedRound(sorted: seq<seq<Preference>>, n: nat, eliminated: set<nat>): (r: RoundResult)
    requires n > 0 && Bounded(sorted, n) && eliminated < Range(n)
    ensures r.Winner? ==> r.winner < n
    ensures r.Tie? ==> KeysBelow(r.tied, n) && |r.tied| > 0
    ensures r.Continue? ==> eliminated < r.eliminated < Range(n)
  {
    var votes := Tally(sorted, eliminated, n);
    FirstMajorityFinds(votes, eliminated, 0);
    CorrectedLeastMembers(votes, eliminated);
    SomeoneRunning(eliminated, n);
    match CorrectedScanOf(votes, eliminated)
    case Majority(w) => Winner(w)
    case Least(least) =>
      if |least| == n - |eliminated| then Tie(least)
      else
        CorrectedContinues(eliminated, least, n);
        Continue(eliminated + Members(least))
  }

  lemma CorrectedContinues(eliminated: set<nat>, least: seq<nat>, n: nat)
    requires eliminated <= Range(n) && |least| > 0 && Increasing(least)
    requires forall c: nat :: c in least ==> c < n && c !in eliminated
    requires |least| != n - |eliminated|
    ensures eliminated < eliminated + Members(least) < Range(n)
  {
    assert least[0] in least;
    IncreasingMembersCard(least);
    PartOfRunning(eliminated, Members(least), n);
  }

  /** While candidate 0 is in the running a corrected round is a round as written. */
  lemma CorrectedRoundAgrees(sorted: seq<seq<Preference>>, n: nat, eliminated: set<nat>)
    requires n > 0 && Bounded(sorted, n) && eliminated < Range(n) && 0 !in eliminated
    ensures CorrectedRound(sorted, n, eliminated) == Round(sorted, n, eliminated)
  {
    CorrectedScanAgrees(Tally(sorted, eliminated, n), eliminated);
  }

  /** The corrected rounds from the eliminated set onwards; they always return. */
  function CorrectedElectionFrom(sorted: seq<seq<Preference>>, n: nat, eliminated: set<nat>): (w: seq<nat>)
    requires n > 0 && Bounded(sorted, n) && eliminated < Range(n)
    decreases Range(n) - eliminated
    ensures KeysBelow(w, n) && |w| > 0
  {
    match CorrectedRound(sorted, n, eliminated)
    case Winner(w) => [w]
    case Tie(tied) => tied
    case Continue(next) =>
      assert Range(n) - next < Range(n) - eliminated by {
        var x :| x in next && x !in eliminated;
        assert x in Range(n) - eliminated;
      }
      CorrectedElectionFrom(sorted, n, next)
  }

  /** The corrected election over ballots already sorted by rank, in candidate names. */
  function CorrectedElectionOf(candidates: seq<string>, sorted: seq<seq<Preference>>): seq<string>
    requires |candidates| > 0 && Bounded(sorted, |candidates|)
  {
    assert 0 in Range(|candidates|);
    Names(candidates, CorrectedElectionFrom(sorted, |candidates|, {}))
  }

  /** election(candidates, ballots) with the corrected seed: the round loop needs no way out other
      than a winner or a full tie. */
  method CorrectedElection(candidates: seq<string>, ballots: seq<Ballot>) returns (names: seq<string>)
    requires |candidates| > 0
    requires forall k :: 0 <= k < |ballots| ==> |ballots[k]| == |candidates|
    ensures exists sorted :: ArrangesAll(sorted, ballots) && Bounded(sorted, |candidates|) &&
                             names == CorrectedElectionOf(candidates, sorted)
  {
    var n := |candidates|;
    var sorted := SortBallots(ballots);
    ArrangesAllBounded(sorted, ballots, n);
    var eliminated: set<nat> := {};
    assert 0 in Range(n);
    while true
      invariant eliminated < Range(n)
      invariant CorrectedElectionFrom(sorted, n, eliminated) == CorrectedElectionFrom(sorted, n, {})
      decreases Range(n) - eliminated
    {
      var votes := TallyVotes(sorted, eliminated, n);
      var scan := CorrectedScanCandidates(votes, eliminated);
      if scan.Majority? {
        assert CorrectedElectionFrom(sorted, n, eliminated) == [scan.winner];
        return [candidates[scan.winner]];
      }
      var least := scan.least;
      if |least| == n - |eliminated| {
        assert CorrectedElectionFrom(sorted, n, eliminated) == least;
        names := NamesOf(candidates, least);
        return;
      }
      var next := Eliminate(eliminated, least);
      assert CorrectedRound(sorted, n, eliminated) == Continue(next);
      var x :| x in next && x !in eliminated;
      assert x in Range(n) - eliminated;
      eliminated := next;
    }
  }
}
