/**
 * The four elections of the repository's test driver, and a three-candidate election that shows
 * the seed defect, worked through round by round. Each ballot of these elections ranks every
 * candidate differently, so sorting it has a single outcome and the result does not depend on
 * the unspecified order of std::sort.
 */
module Scenarios {
  import opened Options
  import opened Preferences
  import opened RoundTally
  import opened Scan
  import opened Election
  import opened Corrected

  function TwoCandidates(): seq<string>
  {
    ["Donald Trump", "Hillary Clunsigned inton"]
  }

  function FourCandidates(): seq<string>
  {
    ["Justin Trudeau", "Andrew Scheer", "Jagmeet Singh", "Elizabeth May"]
  }

  function ThreeCandidates(): seq<string>
  {
    ["Ann", "Bob", "Cy"]
  }

  /** The round's vote vector, given every candidate's count. */
  lemma TallyIs(sorted: seq<seq<Preference>>, eliminated: set<nat>, n: nat, votes: seq<nat>)
    requires Bounded(sorted, n) && |votes| == n
    requires forall c :: 0 <= c < n ==> VotesFor(sorted, eliminated, c) == votes[c]
    ensures Tally(sorted, eliminated, n) == votes
  {
    forall c | 0 <= c < n
      ensures Tally(sorted, eliminated, n)[c] == votes[c]
    {
      TallyCounts(sorted, eliminated, n, c);
    }
  }

  /** The ranks of s strictly ascend from position i on. */
  predicate Ascending(s: seq<Preference>, i: nat)
    decreases |s| - i
  {
    i + 1 >= |s| || (s[i].rank < s[i + 1].rank && Ascending(s, i + 1))
  }

  /** Every entry of s from position i on is a candidate of the ballot with the rank it gives. */
  predicate Matches(s: seq<Preference>, ballot: Ballot, i: nat)
    decreases |s| - i
  {
    i >= |s| || (s[i].candidate < |ballot| && s[i].rank == ballot[s[i].candidate] && Matches(s, ballot, i + 1))
  }

  /** The first position from j on where s holds candidate c, or |s| when there is none. */
  function Position(s: seq<Preference>, c: nat, j: nat): (p: nat)
    decreases |s| - j
    ensures p < |s| ==> j <= p && s[p].candidate == c
  {
    if j >= |s| then |s| else if s[j].candidate == c then j else Position(s, c, j + 1)
  }

  /** Every candidate from c0 up to n occurs in s. */
  predicate Covers(s: seq<Preference>, n: nat, c0: nat)
    decreases n - c0
  {
    c0 >= n || (Position(s, c0, 0) < |s| && Covers(s, n, c0 + 1))
  }

  /** Every entry of s from position k0 on is the first occurrence of its candidate. */
  predicate Once(s: seq<Preference>, k0: nat)
    decreases |s| - k0
  {
    k0 >= |s| || (Position(s, s[k0].candidate, 0) == k0 && Once(s, k0 + 1))
  }

  /** s sorts the ballot, stated by recursive predicates that the verifier can evaluate on
      literals: the ranks of s strictly ascend, and s holds every candidate exactly once with the
      rank the ballot gives it. */
  predicate SortsTo(ballot: Ballot, s: seq<Preference>)
  {
    |s| == |ballot| && Ascending(s, 0) && Matches(s, ballot, 0) && Covers(s, |ballot|, 0) && Once(s, 0)
  }

  lemma {:induction false} AscendingRanks(s: seq<Preference>, i: nat)
    requires Ascending(s, i)
    ensures forall k, l :: i <= k < l < |s| ==> s[k].rank < s[l].rank
    decreases |s| - i
  {
    if i + 1 < |s| {
      AscendingRanks(s, i + 1);
    }
  }

  lemma {:induction false} MatchesAll(s: seq<Preference>, ballot: Ballot, i: nat)
    requires Matches(s, ballot, i)
    ensures forall k :: i <= k < |s| ==> s[k].candidate < |ballot| && s[k].rank == ballot[s[k].candidate]
    decreases |s| - i
  {
    if i < |s| {
      MatchesAll(s, ballot, i + 1);
    }
  }

  lemma {:induction false} CoversAll(s: seq<Preference>, n: nat, c0: nat)
    requires Covers(s, n, c0)
    ensures forall c :: c0 <= c < n ==> Position(s, c, 0) < |s|
    decreases n - c0
  {
    if c0 < n {
      CoversAll(s, n, c0 + 1);
    }
  }

  lemma {:induction false} OnceAll(s: seq<Preference>, k0: nat)
    requires Once(s, k0)
    ensures forall k :: k0 <= k < |s| ==> Position(s, s[k].candidate, 0) == k
    decreases |s| - k0
  {
    if k0 < |s| {
      OnceAll(s, k0 + 1);
    }
  }

  /** A list s with SortsTo(ballot, s) is the outcome of sorting the ballot, and the ballot ranks its
      candidates distinctly. */
  lemma SortsToArranges(ballot: Ballot, s: seq<Preference>)
    requires SortsTo(ballot, s)
    ensures Arranges(s, ballot) && DistinctRanks(ballot)
  {
    AscendingRanks(s, 0);
    MatchesAll(s, ballot, 0);
    CoversAll(s, |ballot|, 0);
    OnceAll(s, 0);
    forall p: Preference
      ensures multiset(s)[p] == multiset(Pairs(ballot))[p]
    {
      PairsCount(ballot, p);
      if p.candidate < |ballot| && p.rank == ballot[p.candidate] {
        var k := Position(s, p.candidate, 0);
        assert s[k] == p;
        OccursOnce(s, k);
      } else {
        assert p !in s;
      }
    }
    assert multiset(s) == multiset(Pairs(ballot));
    forall i, j | 0 <= i < j < |ballot|
      ensures ballot[i] != ballot[j]
    {
      var pi, pj := Position(s, i, 0), Position(s, j, 0);
      assert s[pi].rank == ballot[i] && s[pj].rank == ballot[j];
    }
  }

  /** An entry that is the first occurrence of its candidate, in a list where every entry is, occurs
      exactly once. */
  lemma OccursOnce(s: seq<Preference>, k: nat)
    requires k < |s|
    requires forall i :: 0 <= i < |s| ==> Position(s, s[i].candidate, 0) == i
    ensures multiset(s)[s[k]] == 1
  {
    var before, after := s[..k], s[k + 1..];
    assert s == before + [s[k]] + after;
    assert forall i :: 0 <= i < |before| ==> before[i].candidate != s[k].candidate by {
      forall i | 0 <= i < |before|
        ensures before[i].candidate != s[k].candidate
      {
        assert before[i] == s[i];
      }
    }
    assert forall i :: 0 <= i < |after| ==> after[i].candidate != s[k].candidate by {
      forall i | 0 <= i < |after|
        ensures after[i].candidate != s[k].candidate
      {
        assert after[i] == s[k + 1 + i];
      }
    }
    assert s[k] !in before && s[k] !in after;
  }

  /** SortsTo holds for every ballot from position i on and the matching entry of sorted. */
  predicate AllSortTo(ballots: seq<Ballot>, sorted: seq<seq<Preference>>, i: nat)
    requires |sorted| == |ballots|
    decreases |ballots| - i
  {
    i >= |ballots| || (SortsTo(ballots[i], sorted[i]) && AllSortTo(ballots, sorted, i + 1))
  }

  /** No ballot in the list gives two candidates the same rank. */
  ghost predicate AllDistinct(ballots: seq<Ballot>)
  {
    forall k :: 0 <= k < |ballots| ==> DistinctRanks(ballots[k])
  }

  lemma {:induction false} AllSortToArranges(ballots: seq<Ballot>, sorted: seq<seq<Preference>>, i: nat)
    requires |sorted| == |ballots| && AllSortTo(ballots, sorted, i)
    ensures forall k :: i <= k < |ballots| ==> Arranges(sorted[k], ballots[k]) && DistinctRanks(ballots[k])
    decreases |ballots| - i
  {
    if i < |ballots| {
      SortsToArranges(ballots[i], sorted[i]);
      AllSortToArranges(ballots, sorted, i + 1);
    }
  }

  /** When no ballot ties two candidates, sorting the ballots has exactly one outcome. */
  lemma SortedIs(sorted: seq<seq<Preference>>, ballots: seq<Ballot>, expected: seq<seq<Preference>>)
    requires ArrangesAll(sorted, ballots) && ArrangesAll(expected, ballots) && AllDistinct(ballots)
    ensures sorted == expected
  {
    forall k | 0 <= k < |ballots|
      ensures sorted[k] == expected[k]
    {
      ArrangementUnique(sorted[k], expected[k], ballots[k]);
    }
  }

  /** test1 of the driver: both voters put Donald Trump first, who wins the first round. */
  function Test1Ballots(): seq<Ballot>
  {
    [[1, 2], [1, 2]]
  }

  /** The ballots of Test1, each sorted by rank. */
  function Test1Sorted(): seq<seq<Preference>>
  {
    [[Preference(0, 1), Preference(1, 2)],
     [Preference(0, 1), Preference(1, 2)]]
  }

  /** The ballots of Test1 from position k on satisfy SortsTo against the matching entries of
      Test1Sorted. Each lemma evaluates SortsTo on one pair of literals and leaves the rest to the
      next lemma: one evaluation per proof keeps the verifier's work small. */
  lemma Test1Sorts1()
    ensures AllSortTo(Test1Ballots(), Test1Sorted(), 1)
  {
    assert SortsTo([1, 2], [Preference(0, 1), Preference(1, 2)]);
  }

  lemma Test1Sorts0()
    ensures AllSortTo(Test1Ballots(), Test1Sorted(), 0)
  {
    assert SortsTo([1, 2], [Preference(0, 1), Preference(1, 2)]);
    Test1Sorts1();
  }

  /** Sorting each ballot by rank gives the matching entry of Test1Sorted. */
  lemma Test1Arranged()
    ensures ArrangesAll(Test1Sorted(), Test1Ballots()) && AllDistinct(Test1Ballots())
  {
    Test1Sorts0();
    AllSortToArranges(Test1Ballots(), Test1Sorted(), 0);
  }

  /** Round 1: the candidate each ballot counts for. */
  lemma Test1Choices1()
    ensures FirstActive(Test1Sorted()[0], {}) == Some(0)
    ensures FirstActive(Test1Sorted()[1], {}) == Some(0)
  {
  }

  lemma Test1Votes1()
    ensures VotesUpTo(Test1Sorted(), {}, 0, 2) == 2
    ensures VotesUpTo(Test1Sorted(), {}, 1, 2) == 0
  {
    Test1Choices1();
  }

  lemma Test1Tally1()
    ensures Bounded(Test1Sorted(), 2) && Tally(Test1Sorted(), {}, 2) == [2, 0]
  {
    Test1Votes1();
    TallyIs(Test1Sorted(), {}, 2, [2, 0]);
  }

  lemma Test1Round1()
    ensures Bounded(Test1Sorted(), 2) && Round(Test1Sorted(), 2, {}) == Winner(0)
  {
    Test1Tally1();
    assert FirstMajority([2, 0], {}, 0) == Some(0);
  }

  lemma Test1From1()
    ensures Bounded(Test1Sorted(), 2) && {} <= Range(2) && ElectionFrom(Test1Sorted(), 2, {}) == Decided([0])
  {
    Test1Round1();
  }

  /** The election over the sorted ballots. */
  lemma Test1Outcome()
    ensures Bounded(Test1Sorted(), 2) && ElectionOf(TwoCandidates(), Test1Sorted()) == Elected(["Donald Trump"])
  {
    Test1From1();
    assert Names(TwoCandidates(), [0]) == ["Donald Trump"];
  }

  /** Whatever order the sort leaves equal ranks in, the election has this result. */
  lemma Test1Elects(sorted: seq<seq<Preference>>)
    requires ArrangesAll(sorted, Test1Ballots())
    ensures Bounded(sorted, 2) && ElectionOf(TwoCandidates(), sorted) == Elected(["Donald Trump"])
  {
    Test1Arranged();
    SortedIs(sorted, Test1Ballots(), Test1Sorted());
    Test1Outcome();
  }

  /** The driver's assertion: election(candidates, ballots) returns this result. */
  method Test1() returns (result: ElectionResult)
    ensures result == Elected(["Donald Trump"])
  {
    result := Election.Election(TwoCandidates(), Test1Ballots());
    ghost var sorted :| ArrangesAll(sorted, Test1Ballots()) && Bounded(sorted, 2) && result == ElectionOf(TwoCandidates(), sorted);
    Test1Elects(sorted);
  }

  /** test2 of the driver: one first preference each, so both candidates tie in the first round. */
  function Test2Ballots(): seq<Ballot>
  {
    [[1, 2], [2, 1]]
  }

  /** The ballots of Test2, each sorted by rank. */
  function Test2Sorted(): seq<seq<Preference>>
  {
    [[Preference(0, 1), Preference(1, 2)],
     [Preference(1, 1), Preference(0, 2)]]
  }

  /** The ballots of Test2 from position k on satisfy SortsTo against the matching entries of
      Test2Sorted. Each lemma evaluates SortsTo on one pair of literals and leaves the rest to the
      next lemma: one evaluation per proof keeps the verifier's work small. */
  lemma Test2Sorts1()
    ensures AllSortTo(Test2Ballots(), Test2Sorted(), 1)
  {
    assert SortsTo([2, 1], [Preference(1, 1), Preference(0, 2)]);
  }

  lemma Test2Sorts0()
    ensures AllSortTo(Test2Ballots(), Test2Sorted(), 0)
  {
    assert SortsTo([1, 2], [Preference(0, 1), Preference(1, 2)]);
    Test2Sorts1();
  }

  /** Sorting each ballot by rank gives the matching entry of Test2Sorted. */
  lemma Test2Arranged()
    ensures ArrangesAll(Test2Sorted(), Test2Ballots()) && AllDistinct(Test2Ballots())
  {
    Test2Sorts0();
    AllSortToArranges(Test2Ballots(), Test2Sorted(), 0);
  }

  /** Round 1: the candidate each ballot counts for. */
  lemma Test2Choices1()
    ensures FirstActive(Test2Sorted()[0], {}) == Some(0)
    ensures FirstActive(Test2Sorted()[1], {}) == Some(1)
  {
  }

  lemma Test2Votes1()
    ensures VotesUpTo(Test2Sorted(), {}, 0, 2) == 1
    ensures VotesUpTo(Test2Sorted(), {}, 1, 2) == 1
  {
    Test2Choices1();
  }

  lemma Test2Tally1()
    ensures Bounded(Test2Sorted(), 2) && Tally(Test2Sorted(), {}, 2) == [1, 1]
  {
    Test2Votes1();
    TallyIs(Test2Sorted(), {}, 2, [1, 1]);
  }

  lemma Test2Round1()
    ensures Bounded(Test2Sorted(), 2) && Round(Test2Sorted(), 2, {}) == Tie([0, 1])
  {
    Test2Tally1();
    assert FirstMajority([1, 1], {}, 0) == None;
    assert ScanKeys({}, 2) == [0, 1];
    assert MinAmong([1, 1], [0, 1]) == 1;
    assert LeastAmong([1, 1], [0, 1]) == [0, 1];
    assert Members([0, 1]) == {0, 1};
    assert ScanOf([1, 1], {}) == Least([0, 1]);
  }

  lemma Test2From1()
    ensures Bounded(Test2Sorted(), 2) && {} <= Range(2) && ElectionFrom(Test2Sorted(), 2, {}) == Decided([0, 1])
  {
    Test2Round1();
  }

  /** The election over the sorted ballots. */
  lemma Test2Outcome()
    ensures Bounded(Test2Sorted(), 2) && ElectionOf(TwoCandidates(), Test2Sorted()) == Elected(["Donald Trump", "Hillary Clunsigned inton"])
  {
    Test2From1();
    assert Names(TwoCandidates(), [0, 1]) == ["Donald Trump", "Hillary Clunsigned inton"];
  }

  /** Whatever order the sort leaves equal ranks in, the election has this result. */
  lemma Test2Elects(sorted: seq<seq<Preference>>)
    requires ArrangesAll(sorted, Test2Ballots())
    ensures Bounded(sorted, 2) && ElectionOf(TwoCandidates(), sorted) == Elected(["Donald Trump", "Hillary Clunsigned inton"])
  {
    Test2Arranged();
    SortedIs(sorted, Test2Ballots(), Test2Sorted());
    Test2Outcome();
  }

  /** The driver's assertion: election(candidates, ballots) returns this result. */
  method Test2() returns (result: ElectionResult)
    ensures result == Elected(["Donald Trump", "Hillary Clunsigned inton"])
  {
    result := Election.Election(TwoCandidates(), Test2Ballots());
    ghost var sorted :| ArrangesAll(sorted, Test2Ballots()) && Bounded(sorted, 2) && result == ElectionOf(TwoCandidates(), sorted);
    Test2Elects(sorted);
  }

  /** test3 of the driver: Singh goes out in round 1, Trudeau and May together in round 2, and Scheer wins round 3 with all seven votes. */
  function Test3Ballots(): seq<Ballot>
  {
    [[1, 2, 3, 4], [3, 2, 4, 1], [1, 3, 2, 4], [3, 2, 1, 4], [2, 3, 4, 1], [2, 1, 4, 3], [3, 1, 2, 4]]
  }

  /** The ballots of Test3, each sorted by rank. */
  function Test3Sorted(): seq<seq<Preference>>
  {
    [[Preference(0, 1), Preference(1, 2), Preference(2, 3), Preference(3, 4)],
     [Preference(3, 1), Preference(1, 2), Preference(0, 3), Preference(2, 4)],
     [Preference(0, 1), Preference(2, 2), Preference(1, 3), Preference(3, 4)],
     [Preference(2, 1), Preference(1, 2), Preference(0, 3), Preference(3, 4)],
     [Preference(3, 1), Preference(0, 2), Preference(1, 3), Preference(2, 4)],
     [Preference(1, 1), Preference(0, 2), Preference(3, 3), Preference(2, 4)],
     [Preference(1, 1), Preference(2, 2), Preference(0, 3), Preference(3, 4)]]
  }

  /** The ballots of Test3 from position k on satisfy SortsTo against the matching entries of
      Test3Sorted. Each lemma evaluates SortsTo on one pair of literals and leaves the rest to the
      next lemma: one evaluation per proof keeps the verifier's work small. */
  lemma Test3Sorts6()
    ensures AllSortTo(Test3Ballots(), Test3Sorted(), 6)
  {
    assert SortsTo([3, 1, 2, 4], [Preference(1, 1), Preference(2, 2), Preference(0, 3), Preference(3, 4)]);
  }

  lemma Test3Sorts5()
    ensures AllSortTo(Test3Ballots(), Test3Sorted(), 5)
  {
    assert SortsTo([2, 1, 4, 3], [Preference(1, 1), Preference(0, 2), Preference(3, 3), Preference(2, 4)]);
    Test3Sorts6();
  }

  lemma Test3Sorts4()
    ensures AllSortTo(Test3Ballots(), Test3Sorted(), 4)
  {
    assert SortsTo([2, 3, 4, 1], [Preference(3, 1), Preference(0, 2), Preference(1, 3), Preference(2, 4)]);
    Test3Sorts5();
  }

  lemma Test3Sorts3()
    ensures AllSortTo(Test3Ballots(), Test3Sorted(), 3)
  {
    assert SortsTo([3, 2, 1, 4], [Preference(2, 1), Preference(1, 2), Preference(0, 3), Preference(3, 4)]);
    Test3Sorts4();
  }

  lemma Test3Sorts2()
    ensures AllSortTo(Test3Ballots(), Test3Sorted(), 2)
  {
    assert SortsTo([1, 3, 2, 4], [Preference(0, 1), Preference(2, 2), Preference(1, 3), Preference(3, 4)]);
    Test3Sorts3();
  }

  lemma Test3Sorts1()
    ensures AllSortTo(Test3Ballots(), Test3Sorted(), 1)
  {
    assert SortsTo([3, 2, 4, 1], [Preference(3, 1), Preference(1, 2), Preference(0, 3), Preference(2, 4)]);
    Test3Sorts2();
  }

  lemma Test3Sorts0()
    ensures AllSortTo(Test3Ballots(), Test3Sorted(), 0)
  {
    assert SortsTo([1, 2, 3, 4], [Preference(0, 1), Preference(1, 2), Preference(2, 3), Preference(3, 4)]);
    Test3Sorts1();
  }

  /** Sorting each ballot by rank gives the matching entry of Test3Sorted. */
  lemma Test3Arranged()
    ensures ArrangesAll(Test3Sorted(), Test3Ballots()) && AllDistinct(Test3Ballots())
  {
    Test3Sorts0();
    AllSortToArranges(Test3Ballots(), Test3Sorted(), 0);
  }

  /** Round 1: the candidate each ballot counts for. */
  lemma Test3Choices1()
    ensures FirstActive(Test3Sorted()[0], {}) == Some(0)
    ensures FirstActive(Test3Sorted()[1], {}) == Some(3)
    ensures FirstActive(Test3Sorted()[2], {}) == Some(0)
    ensures FirstActive(Test3Sorted()[3], {}) == Some(2)
    ensures FirstActive(Test3Sorted()[4], {}) == Some(3)
    ensures FirstActive(Test3Sorted()[5], {}) == Some(1)
    ensures FirstActive(Test3Sorted()[6], {}) == Some(1)
  {
  }

  lemma Test3Votes1()
    ensures VotesUpTo(Test3Sorted(), {}, 0, 7) == 2
    ensures VotesUpTo(Test3Sorted(), {}, 1, 7) == 2
    ensures VotesUpTo(Test3Sorted(), {}, 2, 7) == 1
    ensures VotesUpTo(Test3Sorted(), {}, 3, 7) == 2
  {
    Test3Choices1();
  }

  lemma Test3Tally1()
    ensures Bounded(Test3Sorted(), 4) && Tally(Test3Sorted(), {}, 4) == [2, 2, 1, 2]
  {
    Test3Votes1();
    TallyIs(Test3Sorted(), {}, 4, [2, 2, 1, 2]);
  }

  lemma Test3Round1()
    ensures Bounded(Test3Sorted(), 4) && Round(Test3Sorted(), 4, {}) == Continue({2})
  {
    Test3Tally1();
    assert FirstMajority([2, 2, 1, 2], {}, 0) == None;
    assert ScanKeys({}, 4) == [0, 1, 2, 3];
    assert MinAmong([2, 2, 1, 2], [0, 1, 2, 3]) == 1;
    assert LeastAmong([2, 2, 1, 2], [0, 1, 2, 3]) == [2];
    assert Members([2]) == {2};
    assert ScanOf([2, 2, 1, 2], {}) == Least([2]);
    assert {} + {2} == {2};
  }

  /** Round 2: the candidate each ballot counts for. */
  lemma Test3Choices2()
    ensures FirstActive(Test3Sorted()[0], {2}) == Some(0)
    ensures FirstActive(Test3Sorted()[1], {2}) == Some(3)
    ensures FirstActive(Test3Sorted()[2], {2}) == Some(0)
    ensures FirstActive(Test3Sorted()[3], {2}) == Some(1)
    ensures FirstActive(Test3Sorted()[4], {2}) == Some(3)
    ensures FirstActive(Test3Sorted()[5], {2}) == Some(1)
    ensures FirstActive(Test3Sorted()[6], {2}) == Some(1)
  {
  }

  lemma Test3Votes2()
    ensures VotesUpTo(Test3Sorted(), {2}, 0, 7) == 2
    ensures VotesUpTo(Test3Sorted(), {2}, 1, 7) == 3
    ensures VotesUpTo(Test3Sorted(), {2}, 2, 7) == 0
    ensures VotesUpTo(Test3Sorted(), {2}, 3, 7) == 2
  {
    Test3Choices2();
  }

  lemma Test3Tally2()
    ensures Bounded(Test3Sorted(), 4) && Tally(Test3Sorted(), {2}, 4) == [2, 3, 0, 2]
  {
    Test3Votes2();
    TallyIs(Test3Sorted(), {2}, 4, [2, 3, 0, 2]);
  }

  lemma Test3Round2()
    ensures Bounded(Test3Sorted(), 4) && Round(Test3Sorted(), 4, {2}) == Continue({0, 2, 3})
  {
    Test3Tally2();
    assert FirstMajority([2, 3, 0, 2], {2}, 0) == None;
    assert ScanKeys({2}, 4) == [0, 1, 3];
    assert MinAmong([2, 3, 0, 2], [0, 1, 3]) == 2;
    assert LeastAmong([2, 3, 0, 2], [0, 1, 3]) == [0, 3];
    assert Members([0, 3]) == {0, 3};
    assert ScanOf([2, 3, 0, 2], {2}) == Least([0, 3]);
    assert |{2}| == 1;
    assert {2} + {0, 3} == {0, 2, 3};
  }

  /** Round 3: the candidate each ballot counts for. */
  lemma Test3Choices3()
    ensures FirstActive(Test3Sorted()[0], {0, 2, 3}) == Some(1)
    ensures FirstActive(Test3Sorted()[1], {0, 2, 3}) == Some(1)
    ensures FirstActive(Test3Sorted()[2], {0, 2, 3}) == Some(1)
    ensures FirstActive(Test3Sorted()[3], {0, 2, 3}) == Some(1)
    ensures FirstActive(Test3Sorted()[4], {0, 2, 3}) == Some(1)
    ensures FirstActive(Test3Sorted()[5], {0, 2, 3}) == Some(1)
    ensures FirstActive(Test3Sorted()[6], {0, 2, 3}) == Some(1)
  {
  }

  lemma Test3Votes3()
    ensures VotesUpTo(Test3Sorted(), {0, 2, 3}, 0, 7) == 0
    ensures VotesUpTo(Test3Sorted(), {0, 2, 3}, 1, 7) == 7
    ensures VotesUpTo(Test3Sorted(), {0, 2, 3}, 2, 7) == 0
    ensures VotesUpTo(Test3Sorted(), {0, 2, 3}, 3, 7) == 0
  {
    Test3Choices3();
  }

  lemma Test3Tally3()
    ensures Bounded(Test3Sorted(), 4) && Tally(Test3Sorted(), {0, 2, 3}, 4) == [0, 7, 0, 0]
  {
    Test3Votes3();
    TallyIs(Test3Sorted(), {0, 2, 3}, 4, [0, 7, 0, 0]);
  }

  lemma Test3Round3()
    ensures Bounded(Test3Sorted(), 4) && Round(Test3Sorted(), 4, {0, 2, 3}) == Winner(1)
  {
    Test3Tally3();
    assert FirstMajority([0, 7, 0, 0], {0, 2, 3}, 0) == Some(1);
  }

  lemma Test3From3()
    ensures Bounded(Test3Sorted(), 4) && {0, 2, 3} <= Range(4) && ElectionFrom(Test3Sorted(), 4, {0, 2, 3}) == Decided([1])
  {
    Test3Round3();
  }

  lemma Test3From2()
    ensures Bounded(Test3Sorted(), 4) && {2} <= Range(4) && ElectionFrom(Test3Sorted(), 4, {2}) == Decided([1])
  {
    Test3Round2();
    Test3From3();
  }

  lemma Test3From1()
    ensures Bounded(Test3Sorted(), 4) && {} <= Range(4) && ElectionFrom(Test3Sorted(), 4, {}) == Decided([1])
  {
    Test3Round1();
    Test3From2();
  }

  /** The election over the sorted ballots. */
  lemma Test3Outcome()
    ensures Bounded(Test3Sorted(), 4) && ElectionOf(FourCandidates(), Test3Sorted()) == Elected(["Andrew Scheer"])
  {
    Test3From1();
    assert Names(FourCandidates(), [1]) == ["Andrew Scheer"];
  }

  /** Whatever order the sort leaves equal ranks in, the election has this result. */
  lemma Test3Elects(sorted: seq<seq<Preference>>)
    requires ArrangesAll(sorted, Test3Ballots())
    ensures Bounded(sorted, 4) && ElectionOf(FourCandidates(), sorted) == Elected(["Andrew Scheer"])
  {
    Test3Arranged();
    SortedIs(sorted, Test3Ballots(), Test3Sorted());
    Test3Outcome();
  }

  /** The driver's assertion: election(candidates, ballots) returns this result. */
  method Test3() returns (result: ElectionResult)
    ensures result == Elected(["Andrew Scheer"])
  {
    result := Election.Election(FourCandidates(), Test3Ballots());
    ghost var sorted :| ArrangesAll(sorted, Test3Ballots()) && Bounded(sorted, 4) && result == ElectionOf(FourCandidates(), sorted);
    Test3Elects(sorted);
  }

  /** test4 of the driver: May goes out in round 1, Scheer in round 2, and Trudeau wins round 3 with six of eleven votes. */
  function Test4Ballots(): seq<Ballot>
  {
    [[1, 2, 3, 4], [2, 3, 4, 1], [2, 4, 1, 3], [2, 1, 4, 3], [2, 1, 3, 4], [1, 2, 3, 4], [4, 2, 1, 3], [4, 3, 2, 1], [1, 3, 4, 2], [4, 1, 3, 2], [3, 2, 1, 4]]
  }

  /** The ballots of Test4, each sorted by rank. */
  function Test4Sorted(): seq<seq<Preference>>
  {
    [[Preference(0, 1), Preference(1, 2), Preference(2, 3), Preference(3, 4)],
     [Preference(3, 1), Preference(0, 2), Preference(1, 3), Preference(2, 4)],
     [Preference(2, 1), Preference(0, 2), Preference(3, 3), Preference(1, 4)],
     [Preference(1, 1), Preference(0, 2), Preference(3, 3), Preference(2, 4)],
     [Preference(1, 1), Preference(0, 2), Preference(2, 3), Preference(3, 4)],
     [Preference(0, 1), Preference(1, 2), Preference(2, 3), Preference(3, 4)],
     [Preference(2, 1), Preference(1, 2), Preference(3, 3), Preference(0, 4)],
     [Preference(3, 1), Preference(2, 2), Preference(1, 3), Preference(0, 4)],
     [Preference(0, 1), Preference(3, 2), Preference(1, 3), Preference(2, 4)],
     [Preference(1, 1), Preference(3, 2), Preference(2, 3), Preference(0, 4)],
     [Preference(2, 1), Preference(1, 2), Preference(0, 3), Preference(3, 4)]]
  }

  /** The ballots of Test4 from position k on satisfy SortsTo against the matching entries of
      Test4Sorted. Each lemma evaluates SortsTo on one pair of literals and leaves the rest to the
      next lemma: one evaluation per proof keeps the verifier's work small. */
  lemma Test4Sorts10()
    ensures AllSortTo(Test4Ballots(), Test4Sorted(), 10)
  {
    assert SortsTo([3, 2, 1, 4], [Preference(2, 1), Preference(1, 2), Preference(0, 3), Preference(3, 4)]);
  }

  lemma Test4Sorts9()
    ensures AllSortTo(Test4Ballots(), Test4Sorted(), 9)
  {
    assert SortsTo([4, 1, 3, 2], [Preference(1, 1), Preference(3, 2), Preference(2, 3), Preference(0, 4)]);
    Test4Sorts10();
  }

  lemma Test4Sorts8()
    ensures AllSortTo(Test4Ballots(), Test4Sorted(), 8)
  {
    assert SortsTo([1, 3, 4, 2], [Preference(0, 1), Preference(3, 2), Preference(1, 3), Preference(2, 4)]);
    Test4Sorts9();
  }

  lemma Test4Sorts7()
    ensures AllSortTo(Test4Ballots(), Test4Sorted(), 7)
  {
    assert SortsTo([4, 3, 2, 1], [Preference(3, 1), Preference(2, 2), Preference(1, 3), Preference(0, 4)]);
    Test4Sorts8();
  }

  lemma Test4Sorts6()
    ensures AllSortTo(Test4Ballots(), Test4Sorted(), 6)
  {
    assert SortsTo([4, 2, 1, 3], [Preference(2, 1), Preference(1, 2), Preference(3, 3), Preference(0, 4)]);
    Test4Sorts7();
  }

  lemma Test4Sorts5()
    ensures AllSortTo(Test4Ballots(), Test4Sorted(), 5)
  {
    assert SortsTo([1, 2, 3, 4], [Preference(0, 1), Preference(1, 2), Preference(2, 3), Preference(3, 4)]);
    Test4Sorts6();
  }

  lemma Test4Sorts4()
    ensures AllSortTo(Test4Ballots(), Test4Sorted(), 4)
  {
    assert SortsTo([2, 1, 3, 4], [Preference(1, 1), Preference(0, 2), Preference(2, 3), Preference(3, 4)]);
    Test4Sorts5();
  }

  lemma Test4Sorts3()
    ensures AllSortTo(Test4Ballots(), Test4Sorted(), 3)
  {
    assert SortsTo([2, 1, 4, 3], [Preference(1, 1), Preference(0, 2), Preference(3, 3), Preference(2, 4)]);
    Test4Sorts4();
  }

  lemma Test4Sorts2()
    ensures AllSortTo(Test4Ballots(), Test4Sorted(), 2)
  {
    assert SortsTo([2, 4, 1, 3], [Preference(2, 1), Preference(0, 2), Preference(3, 3), Preference(1, 4)]);
    Test4Sorts3();
  }

  lemma Test4Sorts1()
    ensures AllSortTo(Test4Ballots(), Test4Sorted(), 1)
  {
    assert SortsTo([2, 3, 4, 1], [Preference(3, 1), Preference(0, 2), Preference(1, 3), Preference(2, 4)]);
    Test4Sorts2();
  }

  lemma Test4Sorts0()
    ensures AllSortTo(Test4Ballots(), Test4Sorted(), 0)
  {
    assert SortsTo([1, 2, 3, 4], [Preference(0, 1), Preference(1, 2), Preference(2, 3), Preference(3, 4)]);
    Test4Sorts1();
  }

  /** Sorting each ballot by rank gives the matching entry of Test4Sorted. */
  lemma Test4Arranged()
    ensures ArrangesAll(Test4Sorted(), Test4Ballots()) && AllDistinct(Test4Ballots())
  {
    Test4Sorts0();
    AllSortToArranges(Test4Ballots(), Test4Sorted(), 0);
  }

  /** Round 1: the candidate each ballot counts for. */
  lemma Test4Choices1()
    ensures FirstActive(Test4Sorted()[0], {}) == Some(0)
    ensures FirstActive(Test4Sorted()[1], {}) == Some(3)
    ensures FirstActive(Test4Sorted()[2], {}) == Some(2)
    ensures FirstActive(Test4Sorted()[3], {}) == Some(1)
    ensures FirstActive(Test4Sorted()[4], {}) == Some(1)
    ensures FirstActive(Test4Sorted()[5], {}) == Some(0)
    ensures FirstActive(Test4Sorted()[6], {}) == Some(2)
    ensures FirstActive(Test4Sorted()[7], {}) == Some(3)
    ensures FirstActive(Test4Sorted()[8], {}) == Some(0)
    ensures FirstActive(Test4Sorted()[9], {}) == Some(1)
    ensures FirstActive(Test4Sorted()[10], {}) == Some(2)
  {
  }

  lemma Test4Votes1()
    ensures VotesUpTo(Test4Sorted(), {}, 0, 11) == 3
    ensures VotesUpTo(Test4Sorted(), {}, 1, 11) == 3
    ensures VotesUpTo(Test4Sorted(), {}, 2, 11) == 3
    ensures VotesUpTo(Test4Sorted(), {}, 3, 11) == 2
  {
    Test4Choices1();
  }

  lemma Test4Tally1()
    ensures Bounded(Test4Sorted(), 4) && Tally(Test4Sorted(), {}, 4) == [3, 3, 3, 2]
  {
    Test4Votes1();
    TallyIs(Test4Sorted(), {}, 4, [3, 3, 3, 2]);
  }

  lemma Test4Round1()
    ensures Bounded(Test4Sorted(), 4) && Round(Test4Sorted(), 4, {}) == Continue({3})
  {
    Test4Tally1();
    assert FirstMajority([3, 3, 3, 2], {}, 0) == None;
    assert ScanKeys({}, 4) == [0, 1, 2, 3];
    assert MinAmong([3, 3, 3, 2], [0, 1, 2, 3]) == 2;
    assert LeastAmong([3, 3, 3, 2], [0, 1, 2, 3]) == [3];
    assert Members([3]) == {3};
    assert ScanOf([3, 3, 3, 2], {}) == Least([3]);
    assert {} + {3} == {3};
  }

  /** Round 2: the candidate each ballot counts for. */
  lemma Test4Choices2()
    ensures FirstActive(Test4Sorted()[0], {3}) == Some(0)
    ensures FirstActive(Test4Sorted()[1], {3}) == Some(0)
    ensures FirstActive(Test4Sorted()[2], {3}) == Some(2)
    ensures FirstActive(Test4Sorted()[3], {3}) == Some(1)
    ensures FirstActive(Test4Sorted()[4], {3}) == Some(1)
    ensures FirstActive(Test4Sorted()[5], {3}) == Some(0)
    ensures FirstActive(Test4Sorted()[6], {3}) == Some(2)
    ensures FirstActive(Test4Sorted()[7], {3}) == Some(2)
    ensures FirstActive(Test4Sorted()[8], {3}) == Some(0)
    ensures FirstActive(Test4Sorted()[9], {3}) == Some(1)
    ensures FirstActive(Test4Sorted()[10], {3}) == Some(2)
  {
  }

  lemma Test4Votes2()
    ensures VotesUpTo(Test4Sorted(), {3}, 0, 11) == 4
    ensures VotesUpTo(Test4Sorted(), {3}, 1, 11) == 3
    ensures VotesUpTo(Test4Sorted(), {3}, 2, 11) == 4
    ensures VotesUpTo(Test4Sorted(), {3}, 3, 11) == 0
  {
    Test4Choices2();
  }

  lemma Test4Tally2()
    ensures Bounded(Test4Sorted(), 4) && Tally(Test4Sorted(), {3}, 4) == [4, 3, 4, 0]
  {
    Test4Votes2();
    TallyIs(Test4Sorted(), {3}, 4, [4, 3, 4, 0]);
  }

  lemma Test4Round2()
    ensures Bounded(Test4Sorted(), 4) && Round(Test4Sorted(), 4, {3}) == Continue({1, 3})
  {
    Test4Tally2();
    assert FirstMajority([4, 3, 4, 0], {3}, 0) == None;
    assert ScanKeys({3}, 4) == [0, 1, 2];
    assert MinAmong([4, 3, 4, 0], [0, 1, 2]) == 3;
    assert LeastAmong([4, 3, 4, 0], [0, 1, 2]) == [1];
    assert Members([1]) == {1};
    assert ScanOf([4, 3, 4, 0], {3}) == Least([1]);
    assert |{3}| == 1;
    assert {3} + {1} == {1, 3};
  }

  /** Round 3: the candidate each ballot counts for. */
  lemma Test4Choices3()
    ensures FirstActive(Test4Sorted()[0], {1, 3}) == Some(0)
    ensures FirstActive(Test4Sorted()[1], {1, 3}) == Some(0)
    ensures FirstActive(Test4Sorted()[2], {1, 3}) == Some(2)
    ensures FirstActive(Test4Sorted()[3], {1, 3}) == Some(0)
    ensures FirstActive(Test4Sorted()[4], {1, 3}) == Some(0)
    ensures FirstActive(Test4Sorted()[5], {1, 3}) == Some(0)
    ensures FirstActive(Test4Sorted()[6], {1, 3}) == Some(2)
    ensures FirstActive(Test4Sorted()[7], {1, 3}) == Some(2)
    ensures FirstActive(Test4Sorted()[8], {1, 3}) == Some(0)
    ensures FirstActive(Test4Sorted()[9], {1, 3}) == Some(2)
    ensures FirstActive(Test4Sorted()[10], {1, 3}) == Some(2)
  {
  }

  lemma Test4Votes3()
    ensures VotesUpTo(Test4Sorted(), {1, 3}, 0, 11) == 6
    ensures VotesUpTo(Test4Sorted(), {1, 3}, 1, 11) == 0
    ensures VotesUpTo(Test4Sorted(), {1, 3}, 2, 11) == 5
    ensures VotesUpTo(Test4Sorted(), {1, 3}, 3, 11) == 0
  {
    Test4Choices3();
  }

  lemma Test4Tally3()
    ensures Bounded(Test4Sorted(), 4) && Tally(Test4Sorted(), {1, 3}, 4) == [6, 0, 5, 0]
  {
    Test4Votes3();
    TallyIs(Test4Sorted(), {1, 3}, 4, [6, 0, 5, 0]);
  }

  lemma Test4Round3()
    ensures Bounded(Test4Sorted(), 4) && Round(Test4Sorted(), 4, {1, 3}) == Winner(0)
  {
    Test4Tally3();
    assert FirstMajority([6, 0, 5, 0], {1, 3}, 0) == Some(0);
  }

  lemma Test4From3()
    ensures Bounded(Test4Sorted(), 4) && {1, 3} <= Range(4) && ElectionFrom(Test4Sorted(), 4, {1, 3}) == Decided([0])
  {
    Test4Round3();
  }

  lemma Test4From2()
    ensures Bounded(Test4Sorted(), 4) && {3} <= Range(4) && ElectionFrom(Test4Sorted(), 4, {3}) == Decided([0])
  {
    Test4Round2();
    Test4From3();
  }

  lemma Test4From1()
    ensures Bounded(Test4Sorted(), 4) && {} <= Range(4) && ElectionFrom(Test4Sorted(), 4, {}) == Decided([0])
  {
    Test4Round1();
    Test4From2();
  }

  /** The election over the sorted ballots. */
  lemma Test4Outcome()
    ensures Bounded(Test4Sorted(), 4) && ElectionOf(FourCandidates(), Test4Sorted()) == Elected(["Justin Trudeau"])
  {
    Test4From1();
    assert Names(FourCandidates(), [0]) == ["Justin Trudeau"];
  }

  /** Whatever order the sort leaves equal ranks in, the election has this result. */
  lemma Test4Elects(sorted: seq<seq<Preference>>)
    requires ArrangesAll(sorted, Test4Ballots())
    ensures Bounded(sorted, 4) && ElectionOf(FourCandidates(), sorted) == Elected(["Justin Trudeau"])
  {
    Test4Arranged();
    SortedIs(sorted, Test4Ballots(), Test4Sorted());
    Test4Outcome();
  }

  /** The driver's assertion: election(candidates, ballots) returns this result. */
  method Test4() returns (result: ElectionResult)
    ensures result == Elected(["Justin Trudeau"])
  {
    result := Election.Election(FourCandidates(), Test4Ballots());
    ghost var sorted :| ArrangesAll(sorted, Test4Ballots()) && Bounded(sorted, 4) && result == ElectionOf(FourCandidates(), sorted);
    Test4Elects(sorted);
  }

  /** Two voters who both rank Ann last: Ann goes out in round 1, but the least-voted list is still seeded with her, so round 2 eliminates her again and the loop never ends. */
  function StallBallots(): seq<Ballot>
  {
    [[3, 1, 2], [3, 2, 1]]
  }

  /** The ballots of Stall, each sorted by rank. */
  function StallSorted(): seq<seq<Preference>>
  {
    [[Preference(1, 1), Preference(2, 2), Preference(0, 3)],
     [Preference(2, 1), Preference(1, 2), Preference(0, 3)]]
  }

  /** The ballots of Stall from position k on satisfy SortsTo against the matching entries of
      StallSorted. Each lemma evaluates SortsTo on one pair of literals and leaves the rest to the
      next lemma: one evaluation per proof keeps the verifier's work small. */
  lemma StallSorts1()
    ensures AllSortTo(StallBallots(), StallSorted(), 1)
  {
    assert SortsTo([3, 2, 1], [Preference(2, 1), Preference(1, 2), Preference(0, 3)]);
  }

  lemma StallSorts0()
    ensures AllSortTo(StallBallots(), StallSorted(), 0)
  {
    assert SortsTo([3, 1, 2], [Preference(1, 1), Preference(2, 2), Preference(0, 3)]);
    StallSorts1();
  }

  /** Sorting each ballot by rank gives the matching entry of StallSorted. */
  lemma StallArranged()
    ensures ArrangesAll(StallSorted(), StallBallots()) && AllDistinct(StallBallots())
  {
    StallSorts0();
    AllSortToArranges(StallBallots(), StallSorted(), 0);
  }

  /** Round 1: the candidate each ballot counts for. */
  lemma StallChoices1()
    ensures FirstActive(StallSorted()[0], {}) == Some(1)
    ensures FirstActive(StallSorted()[1], {}) == Some(2)
  {
  }

  lemma StallVotes1()
    ensures VotesUpTo(StallSorted(), {}, 0, 2) == 0
    ensures VotesUpTo(StallSorted(), {}, 1, 2) == 1
    ensures VotesUpTo(StallSorted(), {}, 2, 2) == 1
  {
    StallChoices1();
  }

  lemma StallTally1()
    ensures Bounded(StallSorted(), 3) && Tally(StallSorted(), {}, 3) == [0, 1, 1]
  {
    StallVotes1();
    TallyIs(StallSorted(), {}, 3, [0, 1, 1]);
  }

  lemma StallRound1()
    ensures Bounded(StallSorted(), 3) && Round(StallSorted(), 3, {}) == Continue({0})
  {
    StallTally1();
    assert FirstMajority([0, 1, 1], {}, 0) == None;
    assert ScanKeys({}, 3) == [0, 1, 2];
    assert MinAmong([0, 1, 1], [0, 1, 2]) == 0;
    assert LeastAmong([0, 1, 1], [0, 1, 2]) == [0];
    assert Members([0]) == {0};
    assert ScanOf([0, 1, 1], {}) == Least([0]);
    assert {} + {0} == {0};
  }

  /** Round 2: the candidate each ballot counts for. */
  lemma StallChoices2()
    ensures FirstActive(StallSorted()[0], {0}) == Some(1)
    ensures FirstActive(StallSorted()[1], {0}) == Some(2)
  {
  }

  lemma StallVotes2()
    ensures VotesUpTo(StallSorted(), {0}, 0, 2) == 0
    ensures VotesUpTo(StallSorted(), {0}, 1, 2) == 1
    ensures VotesUpTo(StallSorted(), {0}, 2, 2) == 1
  {
    StallChoices2();
  }

  lemma StallTally2()
    ensures Bounded(StallSorted(), 3) && Tally(StallSorted(), {0}, 3) == [0, 1, 1]
  {
    StallVotes2();
    TallyIs(StallSorted(), {0}, 3, [0, 1, 1]);
  }

  lemma StallRound2()
    ensures Bounded(StallSorted(), 3) && Round(StallSorted(), 3, {0}) == Continue({0})
  {
    StallTally2();
    assert FirstMajority([0, 1, 1], {0}, 0) == None;
    assert ScanKeys({0}, 3) == [0, 1, 2];
    assert MinAmong([0, 1, 1], [0, 1, 2]) == 0;
    assert LeastAmong([0, 1, 1], [0, 1, 2]) == [0];
    assert Members([0]) == {0};
    assert ScanOf([0, 1, 1], {0}) == Least([0]);
    assert |{0}| == 1;
    assert {0} + {0} == {0};
  }

  lemma StallFrom2()
    ensures Bounded(StallSorted(), 3) && {0} <= Range(3) && ElectionFrom(StallSorted(), 3, {0}) == Stalled
  {
    StallRound2();
  }

  lemma StallFrom1()
    ensures Bounded(StallSorted(), 3) && {} <= Range(3) && ElectionFrom(StallSorted(), 3, {}) == Stalled
  {
    StallRound1();
    StallFrom2();
  }

  /** The election over the sorted ballots. */
  lemma StallOutcome()
    ensures Bounded(StallSorted(), 3) && ElectionOf(ThreeCandidates(), StallSorted()) == NoResult
  {
    StallFrom1();
  }

  /** Whatever order the sort leaves equal ranks in, the election has this result. */
  lemma StallElects(sorted: seq<seq<Preference>>)
    requires ArrangesAll(sorted, StallBallots())
    ensures Bounded(sorted, 3) && ElectionOf(ThreeCandidates(), sorted) == NoResult && CorrectedElectionOf(ThreeCandidates(), sorted) == ["Bob", "Cy"]
  {
    StallArranged();
    SortedIs(sorted, StallBallots(), StallSorted());
    StallOutcome();
    StallCorrectedOutcome();
  }

  /** The driver's assertion: election(candidates, ballots) returns this result. */
  method Stall() returns (result: ElectionResult)
    ensures result == NoResult
  {
    result := Election.Election(ThreeCandidates(), StallBallots());
    ghost var sorted :| ArrangesAll(sorted, StallBallots()) && Bounded(sorted, 3) && result == ElectionOf(ThreeCandidates(), sorted);
    StallElects(sorted);
  }

  /** With the corrected seed the second round of the stalled election scans only Bob and Cy,
      who tie. */
  lemma StallCorrectedRound2()
    ensures Bounded(StallSorted(), 3) && {0} < Range(3) && CorrectedRound(StallSorted(), 3, {0}) == Tie([1, 2])
  {
    StallTally2();
    assert 1 in Range(3) && 1 !in {0};
    assert FirstMajority([0, 1, 1], {0}, 0) == None;
    assert Active({0}, 0, 3) == [1, 2];
    assert MinAmong([0, 1, 1], [1, 2]) == 1;
    assert LeastAmong([0, 1, 1], [1, 2]) == [1, 2];
    assert LeastSoFar([0, 1, 1], {0}, 3) == [1, 2];
    assert |{0}| == 1;
  }

  lemma StallCorrectedFrom2()
    ensures Bounded(StallSorted(), 3) && {0} < Range(3) && CorrectedElectionFrom(StallSorted(), 3, {0}) == [1, 2]
  {
    StallCorrectedRound2();
  }

  lemma StallCorrectedFrom1()
    ensures Bounded(StallSorted(), 3) && {} < Range(3) && CorrectedElectionFrom(StallSorted(), 3, {}) == [1, 2]
  {
    StallRound1();
    assert 0 in Range(3);
    CorrectedRoundAgrees(StallSorted(), 3, {});
    StallCorrectedFrom2();
  }

  lemma StallCorrectedOutcome()
    ensures Bounded(StallSorted(), 3) && CorrectedElectionOf(ThreeCandidates(), StallSorted()) == ["Bob", "Cy"]
  {
    StallCorrectedFrom1();
    assert Names(ThreeCandidates(), [1, 2]) == ["Bob", "Cy"];
  }

  /** The as-written loop over the stalled election does not return within any number of rounds. */
  lemma StallNeverReturns()
    ensures Bounded(StallSorted(), 3) && forall fuel: nat :: Rounds(StallSorted(), 3, {}, fuel) == None
  {
    StallFrom1();
    forall fuel: nat
      ensures Rounds(StallSorted(), 3, {}, fuel) == None
    {
      RoundsStalled(StallSorted(), 3, {}, fuel);
    }
  }

  /** The corrected election returns the tie between Bob and Cy. */
  method CorrectedStall() returns (names: seq<string>)
    ensures names == ["Bob", "Cy"]
  {
    names := CorrectedElection(ThreeCandidates(), StallBallots());
    ghost var sorted :| ArrangesAll(sorted, StallBallots()) && Bounded(sorted, 3) &&
                        names == CorrectedElectionOf(ThreeCandidates(), sorted);
    StallElects(sorted);
  }
}
