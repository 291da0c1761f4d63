/**
 * The per-round tally: every sorted ballot gives one vote to its first candidate
 * that is not eliminated, into a vote vector that starts at zero each round.
 */
module RoundTally {
  import opened Options
  import opened Preferences

  /** Every pair of every sorted ballot names one of the n candidates. */
  ghost predicate Bounded(sorted: seq<seq<Preference>>, n: nat)
  {
    forall k, m :: 0 <= k < |sorted| && 0 <= m < |sorted[k]| ==> sorted[k][m].candidate < n
  }

  /** Sorting ballots of length n yields lists that name only the n candidates. */
  lemma ArrangesAllBounded(sorted: seq<seq<Preference>>, ballots: seq<Ballot>, n: nat)
    requires ArrangesAll(sorted, ballots)
    requires forall k :: 0 <= k < |ballots| ==> |ballots[k]| == n
    ensures Bounded(sorted, n)
  {
    forall k, m | 0 <= k < |sorted| && 0 <= m < |sorted[k]|
      ensures sorted[k][m].candidate < n
    {
      ArrangedEntry(sorted[k], ballots[k], m);
    }
  }

  /** The position of the first pair from position i on whose candidate is not eliminated, or |prefs| if there is none. */
  function FirstActiveFrom(prefs: seq<Preference>, eliminated: set<nat>, i: nat): (k: nat)
    requires i <= |prefs|
    decreases |prefs| - i
    ensures i <= k <= |prefs|
    ensures forall m :: i <= m < k ==> prefs[m].candidate in eliminated
    ensures k < |prefs| ==> prefs[k].candidate !in eliminated
  {
    if i == |prefs| then i
    else if prefs[i].candidate !in eliminated then i
    else FirstActiveFrom(prefs, eliminated, i + 1)
  }

  /** The position of the first pair whose candidate is not eliminated, or |prefs| if there is none. */
  function FirstActiveAt(prefs: seq<Preference>, eliminated: set<nat>): (k: nat)
    ensures k <= |prefs|
    ensures forall m :: 0 <= m < k ==> prefs[m].candidate in eliminated
    ensures k < |prefs| ==> prefs[k].candidate !in eliminated
  {
    FirstActiveFrom(prefs, eliminated, 0)
  }

  /** The candidate a sorted ballot votes for this round; None for an exhausted ballot. */
  function FirstActive(prefs: seq<Preference>, eliminated: set<nat>): Option<nat>
  {
    var k := FirstActiveAt(prefs, eliminated);
    if k < |prefs| then Some(prefs[k].candidate) else None
  }

  /** A ballot votes for a most preferred candidate still in the running (lowest rank among
      those not eliminated), and is exhausted exactly when every candidate is eliminated. */
  lemma BallotVotesForFavourite(prefs: seq<Preference>, ballot: Ballot, eliminated: set<nat>)
    requires Arranges(prefs, ballot)
    ensures FirstActive(prefs, eliminated).Some? ==>
              var c := FirstActive(prefs, eliminated).value;
              c < |ballot| && c !in eliminated &&
              forall d :: 0 <= d < |ballot| && d !in eliminated ==> ballot[c] <= ballot[d]
    ensures FirstActive(prefs, eliminated).None? <==>
              forall d :: 0 <= d < |ballot| ==> d in eliminated
  {
    var k := FirstActiveAt(prefs, eliminated);
    forall d | 0 <= d < |ballot| && d !in eliminated
      ensures k < |prefs| && prefs[k].candidate < |ballot| && ballot[prefs[k].candidate] <= ballot[d]
    {
      var p := Preference(d, ballot[d]);
      PairsCount(ballot, p);
      assert p in multiset(prefs);
      var m :| 0 <= m < |prefs| && prefs[m] == p;
      assert k <= m;
      ArrangedEntry(prefs, ballot, k);
    }
    if k < |prefs| {
      ArrangedEntry(prefs, ballot, k);
    }
  }

  /** The vote vector after one more ballot votes for choice. */
  function Credit(votes: seq<nat>, choice: Option<nat>): seq<nat>
    requires choice.Some? ==> choice.value < |votes|
  {
    match choice
    case None => votes
    case Some(c) => votes[c := votes[c] + 1]
  }

  /** The vote vector for n candidates after the first k ballots: zero for everyone, then the
      ballots credited in order. */
  function TallyUpTo(sorted: seq<seq<Preference>>, eliminated: set<nat>, n: nat, k: nat): (votes: seq<nat>)
    requires Bounded(sorted, n) && k <= |sorted|
    ensures |votes| == n
  {
    if k == 0 then seq(n, _ => 0)
    else
      var prefs := sorted[k - 1];
      var j := FirstActiveAt(prefs, eliminated);
      assert j < |prefs| ==> prefs[j].candidate < n;
      Credit(TallyUpTo(sorted, eliminated, n, k - 1), FirstActive(prefs, eliminated))
  }

  /** The round's vote vector: every ballot credited. */
  function Tally(sorted: seq<seq<Preference>>, eliminated: set<nat>, n: nat): (votes: seq<nat>)
    requires Bounded(sorted, n)
    ensures |votes| == n
  {
    TallyUpTo(sorted, eliminated, n, |sorted|)
  }

  /** The number of ballots among the first k voting for candidate c this round. */
  function VotesUpTo(sorted: seq<seq<Preference>>, eliminated: set<nat>, c: nat, k: nat): nat
    requires k <= |sorted|
  {
    if k == 0 then 0
    else VotesUpTo(sorted, eliminated, c, k - 1) + (if FirstActive(sorted[k - 1], eliminated) == Some(c) then 1 else 0)
  }

  /** The number of ballots voting for candidate c this round. */
  function VotesFor(sorted: seq<seq<Preference>>, eliminated: set<nat>, c: nat): nat
  {
    VotesUpTo(sorted, eliminated, c, |sorted|)
  }

  /** The number of ballots among the first k that are not exhausted this round. */
  function CastUpTo(sorted: seq<seq<Preference>>, eliminated: set<nat>, k: nat): (cast: nat)
    requires k <= |sorted|
    ensures cast <= k
  {
    if k == 0 then 0
    else CastUpTo(sorted, eliminated, k - 1) + (if FirstActive(sorted[k - 1], eliminated).Some? then 1 else 0)
  }

  /** The number of ballots that are not exhausted this round. */
  function Cast(sorted: seq<seq<Preference>>, eliminated: set<nat>): (cast: nat)
    ensures cast <= |sorted|
  {
    CastUpTo(sorted, eliminated, |sorted|)
  }

  /** The sum of the first k counts. */
  function SumUpTo(votes: seq<nat>, k: nat): nat
    requires k <= |votes|
  {
    if k == 0 then 0 else SumUpTo(votes, k - 1) + votes[k - 1]
  }

  /** The sum of all counts, what std::accumulate computes. */
  function Sum(votes: seq<nat>): nat
  {
    SumUpTo(votes, |votes|)
  }

  /** Counts start at zero and each candidate's count is the number of ballots whose
      first candidate still in the running it is. */
  lemma {:induction false} TallyCounts(sorted: seq<seq<Preference>>, eliminated: set<nat>, n: nat, c: nat)
    requires Bounded(sorted, n)
    requires c < n
    ensures Tally(sorted, eliminated, n)[c] == VotesFor(sorted, eliminated, c)
  {
    TallyUpToCounts(sorted, eliminated, n, c, |sorted|);
  }

  lemma {:induction false} TallyUpToCounts(sorted: seq<seq<Preference>>, eliminated: set<nat>, n: nat, c: nat, k: nat)
    requires Bounded(sorted, n) && k <= |sorted|
    requires c < n
    ensures TallyUpTo(sorted, eliminated, n, k)[c] == VotesUpTo(sorted, eliminated, c, k)
  {
    if k > 0 {
      TallyUpToCounts(sorted, eliminated, n, c, k - 1);
    }
  }

  /** An eliminated candidate receives no vote. */
  lemma EliminatedGetNothing(sorted: seq<seq<Preference>>, eliminated: set<nat>, c: nat)
    requires c in eliminated
    ensures VotesFor(sorted, eliminated, c) == 0
  {
    EliminatedGetNothingUpTo(sorted, eliminated, c, |sorted|);
  }

  lemma {:induction false} EliminatedGetNothingUpTo(sorted: seq<seq<Preference>>, eliminated: set<nat>, c: nat, k: nat)
    requires c in eliminated && k <= |sorted|
    ensures VotesUpTo(sorted, eliminated, c, k) == 0
  {
    if k > 0 {
      EliminatedGetNothingUpTo(sorted, eliminated, c, k - 1);
      var prefs := sorted[k - 1];
      var j := FirstActiveAt(prefs, eliminated);
      assert j < |prefs| ==> prefs[j].candidate != c;
    }
  }

  /** Crediting one count raises the sum of every prefix that contains it by one. */
  lemma {:induction false} SumCredit(votes: seq<nat>, c: nat, k: nat)
    requires c < |votes| && k <= |votes|
    ensures SumUpTo(votes[c := votes[c] + 1], k) == SumUpTo(votes, k) + (if c < k then 1 else 0)
  {
    if k > 0 {
      SumCredit(votes, c, k - 1);
    }
  }

  lemma {:induction false} SumZeros(n: nat, k: nat)
    requires k <= n
    ensures SumUpTo(seq(n, _ => 0), k) == 0
  {
    if k > 0 {
      SumZeros(n, k - 1);
    }
  }

  /** The votes cast in a round are the ballots that are not exhausted, so at most one per ballot. */
  lemma SumTally(sorted: seq<seq<Preference>>, eliminated: set<nat>, n: nat)
    requires Bounded(sorted, n)
    ensures Sum(Tally(sorted, eliminated, n)) == Cast(sorted, eliminated) <= |sorted|
  {
    SumTallyUpTo(sorted, eliminated, n, |sorted|);
  }

  lemma {:induction false} SumTallyUpTo(sorted: seq<seq<Preference>>, eliminated: set<nat>, n: nat, k: nat)
    requires Bounded(sorted, n) && k <= |sorted|
    ensures Sum(TallyUpTo(sorted, eliminated, n, k)) == CastUpTo(sorted, eliminated, k)
  {
    if k == 0 {
      SumZeros(n, n);
    } else {
      SumTallyUpTo(sorted, eliminated, n, k - 1);
      var prefs := sorted[k - 1];
      var choice := FirstActive(prefs, eliminated);
      if choice.Some? {
        var j := FirstActiveAt(prefs, eliminated);
        assert prefs[j].candidate < n;
        SumCredit(TallyUpTo(sorted, eliminated, n, k - 1), choice.value, n);
      }
    }
  }

  /** A candidate's count is at most the round's total. */
  lemma {:induction false} SumBoundsEntry(votes: seq<nat>, c: nat, k: nat)
    requires c < k <= |votes|
    ensures votes[c] <= SumUpTo(votes, k)
  {
    if c < k - 1 {
      SumBoundsEntry(votes, c, k - 1);
    }
  }

  /** Two different candidates' counts together are at most the round's total. */
  lemma {:induction false} SumBoundsPair(votes: seq<nat>, a: nat, b: nat, k: nat)
    requires a < b < k <= |votes|
    ensures votes[a] + votes[b] <= SumUpTo(votes, k)
  {
    if b < k - 1 {
      SumBoundsPair(votes, a, b, k - 1);
    } else {
      SumBoundsEntry(votes, a, k - 1);
    }
  }

  /** When every count but c's is zero, the total is c's count. */
  lemma {:induction false} SumOfSingle(votes: seq<nat>, c: nat, k: nat)
    requires c < k <= |votes|
    requires forall d :: 0 <= d < |votes| && d != c ==> votes[d] == 0
    ensures SumUpTo(votes, k) == votes[c]
  {
    if c < k - 1 {
      SumOfSingle(votes, c, k - 1);
    } else {
      SumZerosOf(votes, k - 1);
    }
  }

  lemma {:induction false} SumZerosOf(votes: seq<nat>, k: nat)
    requires k <= |votes|
    requires forall d :: 0 <= d < k ==> votes[d] == 0
    ensures SumUpTo(votes, k) == 0
  {
    if k > 0 {
      SumZerosOf(votes, k - 1);
    }
  }

  /** One round's tally over the sorted ballots (nested loops over ballots and their pairs). */
  method TallyVotes(sorted: seq<seq<Preference>>, eliminated: set<nat>, n: nat) returns (votes: seq<nat>)
    requires Bounded(sorted, n)
    ensures votes == Tally(sorted, eliminated, n)
  {
    var counts := new nat[n](_ => 0);
    for k := 0 to |sorted|
      invariant counts[..] == TallyUpTo(sorted, eliminated, n, k)
    {
      var prefs := sorted[k];
      var j := 0;
      while j < |prefs| && prefs[j].candidate in eliminated
        invariant 0 <= j <= |prefs|
        invariant forall m :: 0 <= m < j ==> prefs[m].candidate in eliminated
      {
        j := j + 1;
      }
      assert j == FirstActiveAt(prefs, eliminated);
      if j < |prefs| {
        var c := prefs[j].candidate;
        counts[c] := counts[c] + 1;
      }
    }
    votes := counts[..];
  }
}
