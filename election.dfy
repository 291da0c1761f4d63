/**
 * The round loop of the instant-runoff tallier: tally, look for a majority, return a full
 * tie, or eliminate the least-voted candidates and go again.
 */
module Election {
  import opened Options
  import opened Preferences
  import opened RoundTally
  import opened Scan

  /** c indexes one of n candidates. It restates c < n as a function term, so that quantifiers
      over Range(n) have a trigger to match on. */
  predicate IsCandidate(c: nat, n: nat)
  {
    c < n
  }

  /** The candidate indices 0, ..., n - 1. The bare c < n bounds the comprehension, and the
      repeated IsCandidate(c, n) gives it a trigger. */
  function Range(n: nat): set<nat>
  {
    set c: nat | c < n && IsCandidate(c, n)
  }

  lemma {:induction false} RangeCard(n: nat)
    ensures |Range(n)| == n
  {
    if n > 0 {
      assert Range(n) == Range(n - 1) + {n - 1};
      RangeCard(n - 1);
    } else {
      assert Range(0) == {};
    }
  }

  /** The set of the listed candidates. */
  function Members(s: seq<nat>): set<nat>
  {
    set c | c in s
  }

  /** A list in increasing order lists as many candidates as it has entries. */
  lemma {:induction false} IncreasingMembersCard(s: seq<nat>)
    requires Increasing(s)
    ensures |Members(s)| == |s|
  {
    if |s| > 0 {
      var init := s[..|s| - 1];
      var last := s[|s| - 1];
      assert s == init + [last];
      assert Members(s) == Members(init) + {last};
      assert forall k :: 0 <= k < |init| ==> init[k] < last;
      assert last !in init;
      IncreasingMembersCard(init);
    }
  }

  /** A count that reaches the round's threshold: more than half of the ballots not exhausted. */
  predicate IsMajority(count: nat, cast: nat)
  {
    2 * count > cast
  }

  /** How one round can end. */
  datatype RoundResult = Winner(winner: nat) | Tie(tied: seq<nat>) | Continue(eliminated: set<nat>)

  /** One round: tally, scan, then a full-tie return or the elimination of the least-voted list. */
  function Round(sorted: seq<seq<Preference>>, n: nat, eliminated: set<nat>): (r: RoundResult)
    requires n > 0 && Bounded(sorted, n) && eliminated <= Range(n)
    ensures r.Winner? ==> r.winner < n
    ensures r.Tie? ==> KeysBelow(r.tied, n) && |r.tied| > 0
    ensures r.Continue? ==> eliminated <= r.eliminated <= Range(n)
  {
    var votes := Tally(sorted, eliminated, n);
    ScanBelow(votes, eliminated);
    match ScanOf(votes, eliminated)
    case Majority(w) => Winner(w)
    case Least(least) =>
      if |least| == n - |eliminated| then Tie(least)
      else Continue(eliminated + Members(least))
  }

  /** The outcome of the rounds: the returned candidates, or a round that changes nothing and so
      repeats for ever. */
  datatype Outcome = Decided(winners: seq<nat>) | Stalled

  /** The rounds from the eliminated set onwards: every round either returns, eliminates at least
      one more candidate, or leaves the state as it was, after which the loop never returns. */
  function ElectionFrom(sorted: seq<seq<Preference>>, n: nat, eliminated: set<nat>): (o: Outcome)
    requires n > 0 && Bounded(sorted, n) && eliminated <= Range(n)
    decreases Range(n) - eliminated
    ensures o.Decided? ==> KeysBelow(o.winners, n) && |o.winners| > 0
  {
    match Round(sorted, n, eliminated)
    case Winner(w) => Decided([w])
    case Tie(tied) => Decided(tied)
    case Continue(next) =>
      if next == eliminated then Stalled
      else
        assert Range(n) - next < Range(n) - eliminated by {
          var x :| x in next && x !in eliminated;
          assert x in Range(n) - eliminated;
        }
        ElectionFrom(sorted, n, next)
  }

  /** The loop exactly as written, limited to fuel further rounds: None when it has not returned by then. */
  function Rounds(sorted: seq<seq<Preference>>, n: nat, eliminated: set<nat>, fuel: nat): Option<seq<nat>>
    requires n > 0 && Bounded(sorted, n) && eliminated <= Range(n)
    decreases fuel
  {
    match Round(sorted, n, eliminated)
    case Winner(w) => Some([w])
    case Tie(tied) => Some(tied)
    case Continue(next) => if fuel == 0 then None else Rounds(sorted, n, next, fuel - 1)
  }

  /** A stalled election never returns, however many rounds the loop runs. */
  lemma {:induction false} RoundsStalled(sorted: seq<seq<Preference>>, n: nat, eliminated: set<nat>, fuel: nat)
    requires n > 0 && Bounded(sorted, n) && eliminated <= Range(n)
    requires ElectionFrom(sorted, n, eliminated) == Stalled
    ensures Rounds(sorted, n, eliminated, fuel) == None
    decreases Range(n) - eliminated, fuel
  {
    match Round(sorted, n, eliminated)
    case Continue(next) =>
      if fuel > 0 {
        if next == eliminated {
          RoundsStalled(sorted, n, eliminated, fuel - 1);
        } else {
          assert Range(n) - next < Range(n) - eliminated by {
            var x :| x in next && x !in eliminated;
            assert x in Range(n) - eliminated;
          }
          RoundsStalled(sorted, n, next, fuel - 1);
        }
      }
  }

  /** A decided election returns the same candidates once the loop may run one round per
      candidate still in the running. */
  lemma {:induction false} RoundsDecided(sorted: seq<seq<Preference>>, n: nat, eliminated: set<nat>, fuel: nat)
    requires n > 0 && Bounded(sorted, n) && eliminated <= Range(n)
    requires ElectionFrom(sorted, n, eliminated).Decided?
    requires fuel + 1 >= |Range(n) - eliminated|
    ensures Rounds(sorted, n, eliminated, fuel) == Some(ElectionFrom(sorted, n, eliminated).winners)
    decreases Range(n) - eliminated
  {
    match Round(sorted, n, eliminated)
    case Winner(_) =>
    case Tie(_) =>
    case Continue(next) =>
      assert next != eliminated && ElectionFrom(sorted, n, next).Decided?;
      DecidedLeavesSomeone(sorted, n, next);
      StrictlyFewerRunning(eliminated, next, n);
      RoundsDecided(sorted, n, next, fuel - 1);
  }

  /** A decided election never reaches the state where every candidate is eliminated. */
  lemma DecidedLeavesSomeone(sorted: seq<seq<Preference>>, n: nat, eliminated: set<nat>)
    requires n > 0 && Bounded(sorted, n) && eliminated <= Range(n)
    requires ElectionFrom(sorted, n, eliminated).Decided?
    ensures eliminated < Range(n)
  {
    EveryoneOutRepeats(sorted, n);
    assert ElectionFrom(sorted, n, Range(n)) == Stalled;
    assert eliminated != Range(n);
  }

  /** Growing the eliminated set, short of everyone, leaves fewer candidates in the running but not none. */
  lemma StrictlyFewerRunning(eliminated: set<nat>, next: set<nat>, n: nat)
    requires eliminated < next < Range(n)
    ensures 0 < |Range(n) - next| < |Range(n) - eliminated|
  {
    var x :| x in next && x !in eliminated;
    var before, after := Range(n) - eliminated, Range(n) - next;
    assert x in before - after;
    assert before == after + (before - after);
    assert |before| == |after| + |before - after|;
    var y :| y in Range(n) && y !in next;
    assert y in after;
  }

  /** Once every candidate is eliminated, all counts are zero and the scan names only the seed 0,
      so the round changes nothing: a decided election never eliminates everyone. */
  lemma EveryoneOutRepeats(sorted: seq<seq<Preference>>, n: nat)
    requires n > 0 && Bounded(sorted, n)
    ensures Round(sorted, n, Range(n)) == Continue(Range(n))
  {
    var votes := Tally(sorted, Range(n), n);
    assert 0 in Range(n);
    TallyCounts(sorted, Range(n), n, 0);
    EliminatedGetNothing(sorted, Range(n), 0);
    SeedStaysLeast(votes, Range(n));
    FirstMajorityFinds(votes, Range(n), 0);
    assert forall c :: 0 <= c < n ==> IsCandidate(c, n) && c in Range(n);
    RangeCard(n);
    assert Members([0]) == {0};
    assert Range(n) + {0} == Range(n);
  }

  /** Whatever the loop returns within any number of rounds is the election's outcome. */
  lemma {:induction false} RoundsAgree(sorted: seq<seq<Preference>>, n: nat, eliminated: set<nat>, fuel: nat)
    requires n > 0 && Bounded(sorted, n) && eliminated <= Range(n)
    requires Rounds(sorted, n, eliminated, fuel).Some?
    ensures ElectionFrom(sorted, n, eliminated) == Decided(Rounds(sorted, n, eliminated, fuel).value)
    decreases fuel
  {
    match Round(sorted, n, eliminated)
    case Winner(_) =>
    case Tie(_) =>
    case Continue(next) =>
      if next == eliminated {
        RoundsStalled(sorted, n, eliminated, fuel);
      } else {
        RoundsAgree(sorted, n, next, fuel - 1);
      }
  }

  /** The election's result in candidate names. */
  datatype ElectionResult = Elected(names: seq<string>) | NoResult

  /** The names of the listed candidates, in list order. */
  function Names(candidates: seq<string>, indices: seq<nat>): seq<string>
    requires KeysBelow(indices, |candidates|)
  {
    assert forall k :: 0 <= k < |indices| ==> indices[k] in indices;
    seq(|indices|, k requires 0 <= k < |indices| => candidates[indices[k]])
  }

  /** The election over ballots already sorted by rank, starting with nobody eliminated. */
  function ElectionOf(candidates: seq<string>, sorted: seq<seq<Preference>>): ElectionResult
    requires |candidates| > 0 && Bounded(sorted, |candidates|)
  {
    match ElectionFrom(sorted, |candidates|, {})
    case Decided(winners) => Elected(Names(candidates, winners))
    case Stalled => NoResult
  }

  /** The names of a tie, one push per listed candidate. */
  method NamesOf(candidates: seq<string>, indices: seq<nat>) returns (names: seq<string>)
    requires KeysBelow(indices, |candidates|)
    ensures names == Names(candidates, indices)
  {
    assert forall k :: 0 <= k < |indices| ==> indices[k] in indices;
    names := [];
    for k := 0 to |indices|
      invariant |names| == k
      invariant forall j :: 0 <= j < k ==> names[j] == candidates[indices[j]]
    {
      names := names + [candidates[indices[k]]];
    }
  }

  /** The eliminated set after inserting every listed candidate, one insert at a time. */
  method Eliminate(eliminated: set<nat>, least: seq<nat>) returns (next: set<nat>)
    ensures next == eliminated + Members(least)
  {
    next := eliminated;
    for k := 0 to |least|
      invariant next == eliminated + Members(least[..k])
    {
      assert Members(least[..k + 1]) == Members(least[..k]) + {least[k]} by {
        assert least[..k + 1] == least[..k] + [least[k]];
      }
      next := next + {least[k]};
    }
    assert least[..|least|] == least;
  }

  /** election(candidates, ballots): sort every ballot, then run rounds until one returns; a round
      that eliminates nobody new would repeat for ever, and is reported as NoResult. */
  method Election(candidates: seq<string>, ballots: seq<Ballot>) returns (r: ElectionResult)
    requires |candidates| > 0
    requires forall k :: 0 <= k < |ballots| ==> |ballots[k]| == |candidates|
    ensures exists sorted :: ArrangesAll(sorted, ballots) && Bounded(sorted, |candidates|) &&
                             r == ElectionOf(candidates, sorted)
  {
    var n := |candidates|;
    var sorted := SortBallots(ballots);
    ArrangesAllBounded(sorted, ballots, n);
    var eliminated: set<nat> := {};
    while true
      invariant eliminated <= Range(n)
      invariant ElectionFrom(sorted, n, eliminated) == ElectionFrom(sorted, n, {})
      decreases Range(n) - eliminated
    {
      var votes := TallyVotes(sorted, eliminated, n);
      var scan := ScanCandidates(votes, eliminated);
      ScanBelow(votes, eliminated);
      if scan.Majority? {
        assert ElectionFrom(sorted, n, eliminated) == Decided([scan.winner]);
        return Elected([candidates[scan.winner]]);
      }
      var least := scan.least;
      if |least| == n - |eliminated| {
        assert ElectionFrom(sorted, n, eliminated) == Decided(least);
        var names := NamesOf(candidates, least);
        return Elected(names);
      }
      var next := Eliminate(eliminated, least);
      assert Round(sorted, n, eliminated) == Continue(next);
      if next == eliminated {
        return NoResult;
      }
      var x :| x in next && x !in eliminated;
      assert x in Range(n) - eliminated;
      eliminated := next;
    }
  }

  /** The round's counts are the ballots' first choices still in the running, and a count reaches
      the threshold exactly when it is more than half of the ballots not exhausted. */
  lemma RoundVotes(sorted: seq<seq<Preference>>, n: nat, eliminated: set<nat>)
    requires n > 0 && Bounded(sorted, n)
    ensures forall c :: 0 <= c < n ==> Tally(sorted, eliminated, n)[c] == VotesFor(sorted, eliminated, c)
    ensures forall c :: 0 <= c < n ==>
              (Tally(sorted, eliminated, n)[c] >= Threshold(Tally(sorted, eliminated, n)) <==>
               IsMajority(VotesFor(sorted, eliminated, c), Cast(sorted, eliminated)))
  {
    forall c | 0 <= c < n
      ensures Tally(sorted, eliminated, n)[c] == VotesFor(sorted, eliminated, c)
    {
      TallyCounts(sorted, eliminated, n, c);
    }
    SumTally(sorted, eliminated, n);
  }

  /** A round returns candidate c alone exactly when c is in the running and holds more than half
      of the ballots not exhausted. */
  lemma RoundWinner(sorted: seq<seq<Preference>>, n: nat, eliminated: set<nat>, c: nat)
    requires n > 0 && Bounded(sorted, n) && eliminated <= Range(n)
    ensures Round(sorted, n, eliminated) == Winner(c) <==>
              c < n && c !in eliminated && IsMajority(VotesFor(sorted, eliminated, c), Cast(sorted, eliminated))
  {
    RoundVotes(sorted, n, eliminated);
    ScanOfMajority(Tally(sorted, eliminated, n), eliminated, c);
  }

  /** While candidate 0 is in the running, a round that returns nothing eliminates at least one more
      candidate and leaves at least one in the running. */
  lemma RoundProgress(sorted: seq<seq<Preference>>, n: nat, eliminated: set<nat>)
    requires n > 0 && Bounded(sorted, n) && eliminated <= Range(n)
    requires 0 !in eliminated
    ensures Round(sorted, n, eliminated).Continue? ==>
              eliminated < Round(sorted, n, eliminated).eliminated < Range(n)
  {
    var votes := Tally(sorted, eliminated, n);
    var scan := ScanOf(votes, eliminated);
    if scan.Least? && |scan.least| != n - |eliminated| {
      var least := scan.least;
      LeastWhileSeedActive(votes, eliminated);
      ScanBelow(votes, eliminated);
      assert least[0] in least;
      IncreasingMembersCard(least);
      PartOfRunning(eliminated, Members(least), n);
    }
  }

  /** Eliminating some but not all of the candidates in the running leaves a proper subset of the candidates. */
  lemma PartOfRunning(eliminated: set<nat>, more: set<nat>, n: nat)
    requires eliminated <= Range(n) && more <= Range(n) - eliminated
    requires |more| != n - |eliminated|
    ensures eliminated + more < Range(n)
  {
    var outside := Range(n) - eliminated;
    RangeCard(n);
    assert Range(n) == eliminated + outside;
    assert |outside| == n - |eliminated|;
    assert more != outside;
    assert outside - more != {};
    var y :| y in outside - more;
    assert y !in eliminated + more;
  }

  /** While candidate 0 is in the running, a round ends in a full tie exactly when nobody has a
      majority and every candidate in the running has the same count; the tie then lists all of
      them in index order. */
  lemma RoundTie(sorted: seq<seq<Preference>>, n: nat, eliminated: set<nat>)
    requires n > 0 && Bounded(sorted, n) && eliminated <= Range(n)
    requires 0 !in eliminated
    ensures Round(sorted, n, eliminated).Tie? <==>
              (forall c :: 0 <= c < n && c !in eliminated ==>
                 !IsMajority(VotesFor(sorted, eliminated, c), Cast(sorted, eliminated))) &&
              (forall c, d :: 0 <= c < n && c !in eliminated && 0 <= d < n && d !in eliminated ==>
                 VotesFor(sorted, eliminated, c) == VotesFor(sorted, eliminated, d))
    ensures Round(sorted, n, eliminated).Tie? ==> Round(sorted, n, eliminated).tied == Active(eliminated, 0, n)
  {
    var votes := Tally(sorted, eliminated, n);
    RoundVotes(sorted, n, eliminated);
    forall c | 0 <= c < n
      ensures ScanOf(votes, eliminated) == Majority(c) <==> c !in eliminated && votes[c] >= Threshold(votes)
    {
      ScanOfMajority(votes, eliminated, c);
    }
    var scan := ScanOf(votes, eliminated);
    var w := if scan.Majority? then scan.winner else 0;
    ScanOfMajority(votes, eliminated, w);
    var keys := ScanKeys(eliminated, n);
    ScanKeysWhileSeedActive(eliminated, n);
    ActiveMembers(eliminated, 0, n);
    ActiveCount(eliminated, n);
    var m := MinAmong(votes, keys);
    MinAmongIsLeast(votes, keys);
    WithVotesFull(votes, keys, m);
    AllEqualIffAtMin(votes, keys, m);
  }

  /** The keys all have count m, the least count, exactly when they all have the same count. */
  lemma AllEqualIffAtMin(votes: seq<nat>, keys: seq<nat>, m: nat)
    requires KeysBelow(keys, |votes|)
    requires exists x :: x in keys && votes[x] == m
    ensures (forall x :: x in keys ==> votes[x] == m) <==> (forall x, y :: x in keys && y in keys ==> votes[x] == votes[y])
  {
    var x0 :| x0 in keys && votes[x0] == m;
  }

  /** With one candidate left in the running, every vote cast is theirs. */
  lemma SingleActiveTakesAll(sorted: seq<seq<Preference>>, n: nat, eliminated: set<nat>)
    requires n > 0 && Bounded(sorted, n)
    ensures |Active(eliminated, 0, n)| == 1 ==>
              Active(eliminated, 0, n)[0] < n && Active(eliminated, 0, n)[0] !in eliminated &&
              Cast(sorted, eliminated) == VotesFor(sorted, eliminated, Active(eliminated, 0, n)[0])
  {
    var act := Active(eliminated, 0, n);
    if |act| == 1 {
      var c := act[0];
      ActiveMembers(eliminated, 0, n);
      assert act == [c];
      assert forall d :: 0 <= d < n && d !in eliminated ==> d == c;
      var votes := Tally(sorted, eliminated, n);
      RoundVotes(sorted, n, eliminated);
      forall d | 0 <= d < |votes| && d != c
        ensures votes[d] == 0
      {
        EliminatedGetNothing(sorted, eliminated, d);
      }
      SumOfSingle(votes, c, |votes|);
      SumTally(sorted, eliminated, n);
    }
  }

  /** The seeding defect: with candidate 0 eliminated, every candidate in the running holding a vote
      and nobody holding a majority, the least-voted list is just candidate 0, so the round
      eliminates nobody new and the loop repeats it for ever. */
  lemma SeedDefect(sorted: seq<seq<Preference>>, n: nat, eliminated: set<nat>)
    requires n > 0 && Bounded(sorted, n) && eliminated <= Range(n)
    requires 0 in eliminated
    requires forall c :: 0 <= c < n && c !in eliminated ==> VotesFor(sorted, eliminated, c) > 0
    requires forall c :: 0 <= c < n && c !in eliminated ==>
               !IsMajority(VotesFor(sorted, eliminated, c), Cast(sorted, eliminated))
    ensures Round(sorted, n, eliminated) == Continue(eliminated)
    ensures ElectionFrom(sorted, n, eliminated) == Stalled
    ensures forall fuel: nat :: Rounds(sorted, n, eliminated, fuel) == None
  {
    var votes := Tally(sorted, eliminated, n);
    RoundVotes(sorted, n, eliminated);
    EliminatedGetNothing(sorted, eliminated, 0);
    var scan := ScanOf(votes, eliminated);
    var w := if scan.Majority? then scan.winner else 0;
    ScanOfMajority(votes, eliminated, w);
    SeedStaysLeast(votes, eliminated);
    SingleActiveTakesAll(sorted, n, eliminated);
    ActiveCount(eliminated, n);
    assert Members([0]) == {0};
    assert eliminated + {0} == eliminated;
    forall fuel: nat
      ensures Rounds(sorted, n, eliminated, fuel) == None
    {
      RoundsStalled(sorted, n, eliminated, fuel);
    }
  }

  /** With no ballots every count is zero, so the first round is a full tie and every candidate is
      returned, in index order. */
  lemma NoBallots(candidates: seq<string>)
    requires |candidates| > 0
    ensures ElectionOf(candidates, []) == Elected(candidates)
  {
    var n := |candidates|;
    NoBallotsTie(n);
    ActiveNoneEliminated(n);
    ActiveMembers({}, 0, n);
    assert Names(candidates, Active({}, 0, n)) == candidates;
  }

  /** With no ballots and nobody eliminated, the round is a tie among all n candidates. */
  lemma NoBallotsTie(n: nat)
    requires n > 0
    ensures Round([], n, {}) == Tie(Active({}, 0, n))
  {
    var votes := seq(n, _ => 0);
    assert Tally([], {}, n) == votes;
    SumZeros(n, n);
    FirstMajorityFinds(votes, {}, 0);
    ScanKeysWhileSeedActive({}, n);
    AllZeroTie(votes, ScanKeys({}, n));
    assert ScanOf(votes, {}) == Least(Active({}, 0, n));
    ActiveNoneEliminated(n);
  }

  /** When every count is zero, the least-voted keys are all the keys. */
  lemma AllZeroTie(votes: seq<nat>, keys: seq<nat>)
    requires |keys| > 0 && KeysBelow(keys, |votes|)
    requires forall c :: 0 <= c < |votes| ==> votes[c] == 0
    ensures LeastAmong(votes, keys) == keys
  {
    MinAmongIsLeast(votes, keys);
    WithVotesFull(votes, keys, 0);
  }
}
