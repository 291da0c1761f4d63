/** The optional value returned when a ballot has no candidate left, or no candidate has a majority. */
module Options {
  datatype Option<T> = None | Some(value: T)
}

/**
 * Ballot preprocessing of the instant-runoff tallier: every ballot, a sequence
 * giving the rank of each candidate (lower is preferred), becomes the list of its
 * (candidate, rank) pairs sorted by rank.
 */
module Preferences {

  /** The rank a ballot gives to each candidate, indexed by candidate. */
  type Ballot = seq<nat>

  /** A (candidate index, rank) pair. */
  datatype Preference = Preference(candidate: nat, rank: nat)

  /** The sorting comparator: a pair comes first when its rank is strictly lower; candidates are ignored. */
  predicate RankBefore(lhs: Preference, rhs: Preference)
  {
    lhs.rank < rhs.rank
  }

  /** The comparator is a strict weak order, which is what the sort relies on. */
  lemma RankBeforeIsStrictWeakOrder(a: Preference, b: Preference, c: Preference)
    ensures !RankBefore(a, a)
    ensures RankBefore(a, b) && RankBefore(b, c) ==> RankBefore(a, c)
    ensures !RankBefore(a, b) && !RankBefore(b, a) && !RankBefore(b, c) && !RankBefore(c, b)
            ==> !RankBefore(a, c) && !RankBefore(c, a)
  {
  }

  /** The pairs (i, ballot[i]) for i < n, in candidate order. */
  function PairsUpTo(ballot: Ballot, n: nat): seq<Preference>
    requires n <= |ballot|
  {
    if n == 0 then [] else PairsUpTo(ballot, n - 1) + [Preference(n - 1, ballot[n - 1])]
  }

  /** The unsorted pairs of a ballot: one (i, ballot[i]) per candidate i. */
  function Pairs(ballot: Ballot): seq<Preference>
  {
    PairsUpTo(ballot, |ballot|)
  }

  lemma {:induction false} PairsUpToCount(ballot: Ballot, n: nat, p: Preference)
    requires n <= |ballot|
    ensures multiset(PairsUpTo(ballot, n))[p] == if p.candidate < n && p.rank == ballot[p.candidate] then 1 else 0
  {
    if n > 0 {
      PairsUpToCount(ballot, n - 1, p);
    }
  }

  /** Pairs(ballot) holds each pair (i, ballot[i]) exactly once and nothing else. */
  lemma PairsCount(ballot: Ballot, p: Preference)
    ensures multiset(Pairs(ballot))[p] == if p.candidate < |ballot| && p.rank == ballot[p.candidate] then 1 else 0
  {
    PairsUpToCount(ballot, |ballot|, p);
  }

  ghost predicate SortedByRank(s: seq<Preference>)
  {
    forall k, l :: 0 <= k < l < |s| ==> s[k].rank <= s[l].rank
  }

  /** s is a possible outcome of sorting the pairs of ballot by rank (the sort is not stable). */
  ghost predicate Arranges(s: seq<Preference>, ballot: Ballot)
  {
    SortedByRank(s) && multiset(s) == multiset(Pairs(ballot))
  }

  ghost predicate ArrangesAll(sorted: seq<seq<Preference>>, ballots: seq<Ballot>)
  {
    |sorted| == |ballots| && forall k :: 0 <= k < |ballots| ==> Arranges(sorted[k], ballots[k])
  }

  /** No two candidates share a rank on this ballot. */
  ghost predicate DistinctRanks(ballot: Ballot)
  {
    forall i, j :: 0 <= i < j < |ballot| ==> ballot[i] != ballot[j]
  }

  /** Every entry of a sorted ballot is a pair (c, ballot[c]) of a real candidate c. */
  lemma ArrangedEntry(s: seq<Preference>, ballot: Ballot, k: nat)
    requires multiset(s) == multiset(Pairs(ballot))
    requires k < |s|
    ensures s[k].candidate < |ballot| && s[k].rank == ballot[s[k].candidate]
  {
    assert s[k] in multiset(s);
    PairsCount(ballot, s[k]);
  }

  /** A pair at each of two distinct positions occurs at least twice. */
  lemma RepeatedCount(s: seq<Preference>, k: nat, l: nat)
    requires k < l < |s|
    ensures s[k] == s[l] ==> multiset(s)[s[k]] >= 2
  {
    assert s == s[..l] + [s[l]] + s[l + 1..];
    assert s[..l][k] == s[k];
  }

  /** Sorting in place: the array ends sorted by rank and holds the same pairs. */
  method SortByRank(a: array<Preference>)
    modifies a
    ensures SortedByRank(a[..])
    ensures multiset(a[..]) == old(multiset(a[..]))
  {
    var i := 0;
    while i < a.Length
      invariant 0 <= i <= a.Length
      invariant forall k, l :: 0 <= k < l < i ==> a[k].rank <= a[l].rank
      invariant multiset(a[..]) == old(multiset(a[..]))
    {
      InsertDown(a, i);
      i := i + 1;
    }
  }

  /** One insertion step: a[i] moves down past the entries that rank after it, so that the first
      i + 1 entries end sorted. */
  method InsertDown(a: array<Preference>, i: nat)
    requires i < a.Length
    requires forall k, l :: 0 <= k < l < i ==> a[k].rank <= a[l].rank
    modifies a
    ensures forall k, l :: 0 <= k < l <= i ==> a[k].rank <= a[l].rank
    ensures forall k :: i < k < a.Length ==> a[k] == old(a[k])
    ensures multiset(a[..]) == old(multiset(a[..]))
  {
    var j := i;
    while 0 < j && RankBefore(a[j], a[j - 1])
      invariant 0 <= j <= i
      invariant a[i + 1..] == old(a[i + 1..])
      invariant forall k, l :: 0 <= k < l <= i && k != j && l != j ==> a[k].rank <= a[l].rank
      invariant forall l :: j < l <= i ==> a[j].rank < a[l].rank
      invariant multiset(a[..]) == old(multiset(a[..]))
    {
      a[j - 1], a[j] := a[j], a[j - 1];
      j := j - 1;
    }
  }

  /** One ballot: build its pairs in candidate order, then sort them by rank. */
  method SortBallot(ballot: Ballot) returns (prefs: seq<Preference>)
    ensures Arranges(prefs, ballot)
  {
    var a := new Preference[|ballot|];
    for i := 0 to |ballot|
      invariant a[..i] == PairsUpTo(ballot, i)
    {
      a[i] := Preference(i, ballot[i]);
      assert a[..i + 1] == a[..i] + [a[i]];
    }
    assert a[..] == a[..|ballot|];
    SortByRank(a);
    prefs := a[..];
  }

  /** All ballots, sorted once before the rounds begin. */
  method SortBallots(ballots: seq<Ballot>) returns (sorted: seq<seq<Preference>>)
    ensures ArrangesAll(sorted, ballots)
  {
    sorted := [];
    for k := 0 to |ballots|
      invariant |sorted| == k
      invariant forall m :: 0 <= m < k ==> Arranges(sorted[m], ballots[m])
    {
      var prefs := SortBallot(ballots[k]);
      sorted := sorted + [prefs];
    }
  }

  ghost predicate StrictlyRanked(s: seq<Preference>)
  {
    forall k, l :: 0 <= k < l < |s| ==> s[k].rank < s[l].rank
  }

  lemma {:induction false} StrictlyRankedUnique(s: seq<Preference>, t: seq<Preference>)
    requires StrictlyRanked(s) && SortedByRank(t)
    requires multiset(s) == multiset(t)
    ensures s == t
  {
    assert |s| == |multiset(s)| == |multiset(t)| == |t|;
    if |s| > 0 {
      LeastFirst(s, t);
      MultisetTail(s);
      MultisetTail(t);
      StrictlyRankedUnique(s[1..], t[1..]);
      assert s == [s[0]] + s[1..];
      assert t == [t[0]] + t[1..];
    }
  }

  /** Two sorted arrangements of the same pairs, the first strictly ranked, start alike. */
  lemma LeastFirst(s: seq<Preference>, t: seq<Preference>)
    requires StrictlyRanked(s) && SortedByRank(t)
    requires multiset(s) == multiset(t) && |s| > 0 && |t| > 0
    ensures s[0] == t[0]
  {
    assert s[0] in multiset(t);
    var j :| 0 <= j < |t| && t[j] == s[0];
    assert t[0] in multiset(s);
    var k :| 0 <= k < |s| && s[k] == t[0];
    assert t[0].rank <= t[j].rank;
    assert k == 0;
  }

  lemma MultisetTail(s: seq<Preference>)
    requires |s| > 0
    ensures multiset(s[1..]) == multiset(s) - multiset{s[0]}
  {
    assert s == [s[0]] + s[1..];
  }

  /** With distinct ranks, sorting a ballot has a single possible outcome. */
  lemma ArrangementUnique(s: seq<Preference>, t: seq<Preference>, ballot: Ballot)
    requires DistinctRanks(ballot)
    requires Arranges(s, ballot) && Arranges(t, ballot)
    ensures s == t
  {
    forall k, l | 0 <= k < l < |s|
      ensures s[k].rank < s[l].rank
    {
      ArrangedEntry(s, ballot, k);
      ArrangedEntry(s, ballot, l);
      RepeatedCount(s, k, l);
      PairsCount(ballot, s[k]);
    }
    StrictlyRankedUnique(s, t);
  }
}
