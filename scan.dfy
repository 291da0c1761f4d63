/**
 * The scan that follows each tally: look for a candidate with a majority and, failing
 * that, collect the least-voted candidates. As in the source, the least-voted list is
 * seeded with candidate 0 whether or not candidate 0 is still in the running.
 */
module Scan {
  import opened Options
  import opened RoundTally

  ghost predicate Increasing(s: seq<nat>)
  {
    forall k, l :: 0 <= k < l < |s| ==> s[k] < s[l]
  }

  /** Votes needed to win the round outright: more than half of the votes cast. */
  function Threshold(votes: seq<nat>): (t: nat)
    ensures 2 * t > Sum(votes) && 2 * (t - 1) <= Sum(votes)
  {
    Sum(votes) / 2 + 1
  }

  /** The lowest-index candidate from i on that is not eliminated and reaches the threshold. */
  function FirstMajority(votes: seq<nat>, eliminated: set<nat>, i: nat): Option<nat>
    decreases |votes| - i
  {
    if i >= |votes| then None
    else if i !in eliminated && votes[i] >= Threshold(votes) then Some(i)
    else FirstMajority(votes, eliminated, i + 1)
  }

  /** FirstMajority finds the first candidate from i on in the running that reaches the threshold,
      and finds none exactly when no such candidate exists. */
  lemma {:induction false} FirstMajorityFinds(votes: seq<nat>, eliminated: set<nat>, i: nat)
    decreases |votes| - i
    ensures var w := FirstMajority(votes, eliminated, i);
            (w.Some? ==> i <= w.value < |votes| && w.value !in eliminated && votes[w.value] >= Threshold(votes)) &&
            (w.Some? ==> forall j :: i <= j < w.value && j !in eliminated ==> votes[j] < Threshold(votes)) &&
            (w.None? ==> forall j :: i <= j < |votes| && j !in eliminated ==> votes[j] < Threshold(votes))
  {
    if i < |votes| {
      FirstMajorityFinds(votes, eliminated, i + 1);
    }
  }

  /** Two different candidates cannot both reach the threshold. */
  lemma AtMostOneMajority(votes: seq<nat>, a: nat, b: nat)
    requires a < |votes| && b < |votes| && a != b
    ensures !(votes[a] >= Threshold(votes) && votes[b] >= Threshold(votes))
  {
    if a < b {
      SumBoundsPair(votes, a, b, |votes|);
    } else {
      SumBoundsPair(votes, b, a, |votes|);
    }
  }

  /** The candidates c with lo <= c < hi that are not eliminated, in index order. */
  function Active(eliminated: set<nat>, lo: nat, hi: nat): seq<nat>
    decreases hi
  {
    if hi <= lo then []
    else Active(eliminated, lo, hi - 1) + (if hi - 1 in eliminated then [] else [hi - 1])
  }

  /** Active lists exactly the candidates in [lo, hi) that are not eliminated. */
  lemma {:induction false} ActiveMembers(eliminated: set<nat>, lo: nat, hi: nat)
    decreases hi
    ensures forall c :: c in Active(eliminated, lo, hi) <==> lo <= c < hi && c !in eliminated
  {
    if lo < hi {
      ActiveMembers(eliminated, lo, hi - 1);
    }
  }

  /** Active lists only candidates below hi. */
  lemma ActiveBelow(eliminated: set<nat>, lo: nat, hi: nat, n: nat)
    requires hi <= n
    ensures KeysBelow(Active(eliminated, lo, hi), n)
  {
    ActiveMembers(eliminated, lo, hi);
    BelowByMembers(Active(eliminated, lo, hi), n);
  }

  /** Active lists the candidates in increasing order, so each at most once. */
  lemma {:induction false} ActiveIncreasing(eliminated: set<nat>, lo: nat, hi: nat)
    decreases hi
    ensures Increasing(Active(eliminated, lo, hi))
  {
    if lo < hi {
      var init := Active(eliminated, lo, hi - 1);
      ActiveIncreasing(eliminated, lo, hi - 1);
      ActiveMembers(eliminated, lo, hi - 1);
      assert forall k :: 0 <= k < |init| ==> init[k] in init;
    }
  }

  /** The candidates the scan compares: the seed 0, then every candidate after 0 still in the running. */
  function ScanKeys(eliminated: set<nat>, n: nat): (keys: seq<nat>)
    ensures |keys| > 0 && keys[0] == 0
    ensures n > 0 ==> KeysBelow(keys, n)
  {
    ActiveMembers(eliminated, 1, n);
    BelowByMembers(Active(eliminated, 1, n), n);
    [0] + Active(eliminated, 1, n)
  }

  /** The compared candidates come in increasing index order. */
  lemma ScanKeysIncreasing(eliminated: set<nat>, n: nat)
    ensures Increasing(ScanKeys(eliminated, n))
  {
    var act := Active(eliminated, 1, n);
    ActiveIncreasing(eliminated, 1, n);
    ActiveMembers(eliminated, 1, n);
    assert forall k :: 0 <= k < |act| ==> act[k] in act;
  }

  /** While candidate 0 is in the running, the scan compares exactly the candidates in the running. */
  lemma ScanKeysWhileSeedActive(eliminated: set<nat>, n: nat)
    requires n > 0 && 0 !in eliminated
    ensures ScanKeys(eliminated, n) == Active(eliminated, 0, n)
  {
    ActiveFront(eliminated, n);
  }

  lemma {:induction false} ActiveFront(eliminated: set<nat>, n: nat)
    requires n > 0 && 0 !in eliminated
    ensures Active(eliminated, 0, n) == [0] + Active(eliminated, 1, n)
  {
    if n > 1 {
      ActiveFront(eliminated, n - 1);
    }
  }

  /** Of n candidates, n - |eliminated| are still in the running. */
  lemma {:induction false} ActiveCount(eliminated: set<nat>, n: nat)
    requires forall c :: c in eliminated ==> c < n
    ensures |Active(eliminated, 0, n)| == n - |eliminated|
  {
    if n > 0 {
      var below := eliminated - {n - 1};
      ActiveCount(below, n - 1);
      ActiveAgree(eliminated, below, 0, n - 1);
      if n - 1 in eliminated {
        assert eliminated == below + {n - 1};
      } else {
        assert eliminated == below;
      }
    } else {
      assert eliminated == {};
    }
  }

  lemma {:induction false} ActiveAgree(e1: set<nat>, e2: set<nat>, lo: nat, hi: nat)
    requires forall c :: lo <= c < hi ==> (c in e1 <==> c in e2)
    ensures Active(e1, lo, hi) == Active(e2, lo, hi)
  {
    if lo < hi {
      ActiveAgree(e1, e2, lo, hi - 1);
      assert (hi - 1 in e1) == (hi - 1 in e2);
    }
  }

  /** With nobody eliminated, the candidates in the running are 0, 1, ..., n - 1. */
  lemma {:induction false} ActiveNoneEliminated(n: nat)
    ensures |Active({}, 0, n)| == n
    ensures forall i :: 0 <= i < n ==> Active({}, 0, n)[i] == i
  {
    if n > 0 {
      ActiveNoneEliminated(n - 1);
    }
  }

  /** Every key names one of the first n candidates. */
  ghost predicate KeysBelow(keys: seq<nat>, n: nat)
  {
    forall k :: 0 <= k < |keys| ==> keys[k] < n
  }

  /** Keys are below n when every listed key is. */
  lemma BelowByMembers(keys: seq<nat>, n: nat)
    requires forall x :: x in keys ==> x < n
    ensures KeysBelow(keys, n)
  {
    assert forall k :: 0 <= k < |keys| ==> keys[k] in keys;
  }

  /** The smallest count among the first k keys. */
  function MinUpTo(votes: seq<nat>, keys: seq<nat>, k: nat): nat
    requires 0 < k <= |keys| && KeysBelow(keys, |votes|)
  {
    var m := votes[keys[k - 1]];
    if k == 1 then m
    else
      var rest := MinUpTo(votes, keys, k - 1);
      if m < rest then m else rest
  }

  /** The smallest count among the keys. */
  function MinAmong(votes: seq<nat>, keys: seq<nat>): nat
    requires |keys| > 0 && KeysBelow(keys, |votes|)
  {
    MinUpTo(votes, keys, |keys|)
  }

  lemma {:induction false} MinUpToIsLeast(votes: seq<nat>, keys: seq<nat>, k: nat)
    requires 0 < k <= |keys| && KeysBelow(keys, |votes|)
    ensures exists j :: 0 <= j < k && votes[keys[j]] == MinUpTo(votes, keys, k)
    ensures forall j :: 0 <= j < k ==> MinUpTo(votes, keys, k) <= votes[keys[j]]
  {
    if k == 1 {
      assert votes[keys[0]] == MinUpTo(votes, keys, k);
    } else {
      MinUpToIsLeast(votes, keys, k - 1);
      var j :| 0 <= j < k - 1 && votes[keys[j]] == MinUpTo(votes, keys, k - 1);
      assert votes[keys[j]] == MinUpTo(votes, keys, k) || votes[keys[k - 1]] == MinUpTo(votes, keys, k);
    }
  }

  /** MinAmong is the count of some key and no key has a smaller count. */
  lemma MinAmongIsLeast(votes: seq<nat>, keys: seq<nat>)
    requires |keys| > 0 && KeysBelow(keys, |votes|)
    ensures exists x :: x in keys && votes[x] == MinAmong(votes, keys)
    ensures forall x :: x in keys ==> MinAmong(votes, keys) <= votes[x]
  {
    MinUpToIsLeast(votes, keys, |keys|);
    var j :| 0 <= j < |keys| && votes[keys[j]] == MinAmong(votes, keys);
    assert keys[j] in keys;
  }

  /** The first k keys whose count is m, in key order. */
  function WithVotesUpTo(votes: seq<nat>, keys: seq<nat>, m: nat, k: nat): (r: seq<nat>)
    requires k <= |keys| && KeysBelow(keys, |votes|)
    ensures |r| <= k
  {
    if k == 0 then []
    else WithVotesUpTo(votes, keys, m, k - 1) + (if votes[keys[k - 1]] == m then [keys[k - 1]] else [])
  }

  /** The keys whose count is m, in key order. */
  function WithVotes(votes: seq<nat>, keys: seq<nat>, m: nat): (r: seq<nat>)
    requires KeysBelow(keys, |votes|)
    ensures |r| <= |keys|
  {
    WithVotesUpTo(votes, keys, m, |keys|)
  }

  lemma {:induction false} WithVotesUpToMembers(votes: seq<nat>, keys: seq<nat>, m: nat, k: nat)
    requires k <= |keys| && KeysBelow(keys, |votes|)
    ensures forall x :: x in WithVotesUpTo(votes, keys, m, k) <==> x in keys[..k] && votes[x] == m
  {
    if k > 0 {
      WithVotesUpToMembers(votes, keys, m, k - 1);
      assert keys[..k] == keys[..k - 1] + [keys[k - 1]];
    }
  }

  /** WithVotes keeps exactly the keys whose count is m. */
  lemma WithVotesMembers(votes: seq<nat>, keys: seq<nat>, m: nat)
    requires KeysBelow(keys, |votes|)
    ensures forall x :: x in WithVotes(votes, keys, m) <==> x in keys && votes[x] == m
  {
    WithVotesUpToMembers(votes, keys, m, |keys|);
    assert keys[..|keys|] == keys;
  }

  lemma {:induction false} WithVotesUpToNone(votes: seq<nat>, keys: seq<nat>, m: nat, k: nat)
    requires k <= |keys| && KeysBelow(keys, |votes|)
    requires forall j :: 0 <= j < k ==> votes[keys[j]] != m
    ensures WithVotesUpTo(votes, keys, m, k) == []
  {
    if k > 0 {
      WithVotesUpToNone(votes, keys, m, k - 1);
    }
  }

  /** When no key has count m, nothing is kept. */
  lemma WithVotesNone(votes: seq<nat>, keys: seq<nat>, m: nat)
    requires KeysBelow(keys, |votes|)
    requires forall x :: x in keys ==> votes[x] != m
    ensures WithVotes(votes, keys, m) == []
  {
    assert forall j :: 0 <= j < |keys| ==> keys[j] in keys;
    WithVotesUpToNone(votes, keys, m, |keys|);
  }

  lemma {:induction false} WithVotesUpToIncreasing(votes: seq<nat>, keys: seq<nat>, m: nat, k: nat)
    requires k <= |keys| && KeysBelow(keys, |votes|) && Increasing(keys)
    ensures Increasing(WithVotesUpTo(votes, keys, m, k))
    ensures forall x :: x in WithVotesUpTo(votes, keys, m, k) ==> x in keys[..k]
  {
    if k > 0 {
      WithVotesUpToIncreasing(votes, keys, m, k - 1);
      var r := WithVotesUpTo(votes, keys, m, k - 1);
      assert forall j :: 0 <= j < |r| ==> r[j] in r;
      var prefix := keys[..k - 1];
      assert forall j :: 0 <= j < |prefix| ==> prefix[j] < keys[k - 1];
      assert keys[..k] == keys[..k - 1] + [keys[k - 1]];
    }
  }

  /** Filtering keeps the keys in order. */
  lemma WithVotesIncreasing(votes: seq<nat>, keys: seq<nat>, m: nat)
    requires KeysBelow(keys, |votes|) && Increasing(keys)
    ensures Increasing(WithVotes(votes, keys, m))
  {
    WithVotesUpToIncreasing(votes, keys, m, |keys|);
  }

  lemma {:induction false} WithVotesUpToFull(votes: seq<nat>, keys: seq<nat>, m: nat, k: nat)
    requires k <= |keys| && KeysBelow(keys, |votes|)
    ensures |WithVotesUpTo(votes, keys, m, k)| == k <==> WithVotesUpTo(votes, keys, m, k) == keys[..k]
    ensures |WithVotesUpTo(votes, keys, m, k)| == k <==> forall j :: 0 <= j < k ==> votes[keys[j]] == m
  {
    if k > 0 {
      WithVotesUpToFull(votes, keys, m, k - 1);
      assert keys[..k] == keys[..k - 1] + [keys[k - 1]];
    }
  }

  /** Keeping as many keys as there are means keeping them all. */
  lemma WithVotesFull(votes: seq<nat>, keys: seq<nat>, m: nat)
    requires KeysBelow(keys, |votes|)
    ensures |WithVotes(votes, keys, m)| == |keys| <==> WithVotes(votes, keys, m) == keys
    ensures |WithVotes(votes, keys, m)| == |keys| <==> forall x :: x in keys ==> votes[x] == m
  {
    WithVotesUpToFull(votes, keys, m, |keys|);
    assert keys[..|keys|] == keys;
    assert forall j :: 0 <= j < |keys| ==> keys[j] in keys;
  }

  /** The keys with the least count, in key order. */
  function LeastAmong(votes: seq<nat>, keys: seq<nat>): seq<nat>
    requires |keys| > 0 && KeysBelow(keys, |votes|)
  {
    WithVotes(votes, keys, MinAmong(votes, keys))
  }

  /** The least-voted keys are exactly the keys whose count no key undercuts; there is at least
      one, and they are kept in key order. */
  lemma LeastAmongMembers(votes: seq<nat>, keys: seq<nat>)
    requires |keys| > 0 && KeysBelow(keys, |votes|)
    ensures forall x :: x in LeastAmong(votes, keys) <==>
              x in keys && forall y :: y in keys ==> votes[x] <= votes[y]
    ensures forall x :: x in LeastAmong(votes, keys) ==> votes[x] == MinAmong(votes, keys)
    ensures |LeastAmong(votes, keys)| > 0
    ensures Increasing(keys) ==> Increasing(LeastAmong(votes, keys))
  {
    var m := MinAmong(votes, keys);
    MinAmongIsLeast(votes, keys);
    WithVotesMembers(votes, keys, m);
    var x :| x in keys && votes[x] == m;
    assert x in LeastAmong(votes, keys);
    if Increasing(keys) {
      WithVotesIncreasing(votes, keys, m);
    }
  }

  /** Keys that agree on a prefix give the same minimum and the same filter on it. */
  lemma {:induction false} UpToAgree(votes: seq<nat>, a: seq<nat>, b: seq<nat>, m: nat, k: nat)
    requires k <= |a| && k <= |b| && KeysBelow(a, |votes|) && KeysBelow(b, |votes|)
    requires forall j :: 0 <= j < k ==> a[j] == b[j]
    ensures WithVotesUpTo(votes, a, m, k) == WithVotesUpTo(votes, b, m, k)
    ensures k > 0 ==> MinUpTo(votes, a, k) == MinUpTo(votes, b, k)
  {
    if k > 0 {
      UpToAgree(votes, a, b, m, k - 1);
    }
  }

  /** How the least-voted list changes when the scan meets one more key x. */
  lemma LeastAmongAppend(votes: seq<nat>, keys: seq<nat>, x: nat)
    requires |keys| > 0 && KeysBelow(keys, |votes|) && x < |votes|
    ensures KeysBelow(keys + [x], |votes|)
    ensures var m := MinAmong(votes, keys);
            LeastAmong(votes, keys + [x]) ==
              if votes[x] < m then [x]
              else if votes[x] == m then LeastAmong(votes, keys) + [x]
              else LeastAmong(votes, keys)
  {
    var keys' := keys + [x];
    assert KeysBelow(keys', |votes|);
    var m := MinAmong(votes, keys);
    var m' := if votes[x] < m then votes[x] else m;
    UpToAgree(votes, keys, keys', m', |keys|);
    assert MinAmong(votes, keys') == m';
    assert WithVotes(votes, keys', m') == WithVotes(votes, keys, m') + (if votes[x] == m' then [x] else []);
    if votes[x] < m {
      MinAmongIsLeast(votes, keys);
      WithVotesNone(votes, keys, votes[x]);
    }
  }

  /** The outcome of the scan: a winner, or the least-voted list. */
  datatype ScanResult = Majority(winner: nat) | Least(least: seq<nat>)

  /** The scan of one round, given the round's vote vector. */
  function ScanOf(votes: seq<nat>, eliminated: set<nat>): ScanResult
    requires |votes| > 0
  {
    match FirstMajority(votes, eliminated, 0)
    case Some(w) => Majority(w)
    case None => Least(LeastAmong(votes, ScanKeys(eliminated, |votes|)))
  }

  /** The scan reports a majority exactly when some candidate in the running reaches the
      threshold, and then it reports the only such candidate. */
  lemma ScanOfMajority(votes: seq<nat>, eliminated: set<nat>, c: nat)
    requires |votes| > 0
    ensures ScanOf(votes, eliminated) == Majority(c) <==>
              c < |votes| && c !in eliminated && votes[c] >= Threshold(votes)
  {
    var w := FirstMajority(votes, eliminated, 0);
    FirstMajorityFinds(votes, eliminated, 0);
    if w.Some? && w.value != c && c < |votes| {
      AtMostOneMajority(votes, w.value, c);
    }
  }

  /** The scan reports a candidate not eliminated as the winner, and otherwise a non-empty
      list of compared candidates. */
  lemma ScanBelow(votes: seq<nat>, eliminated: set<nat>)
    requires |votes| > 0
    ensures ScanOf(votes, eliminated).Majority? ==>
              ScanOf(votes, eliminated).winner < |votes| && ScanOf(votes, eliminated).winner !in eliminated
    ensures ScanOf(votes, eliminated).Least? ==>
              |ScanOf(votes, eliminated).least| > 0 && KeysBelow(ScanOf(votes, eliminated).least, |votes|)
  {
    FirstMajorityFinds(votes, eliminated, 0);
    var keys := ScanKeys(eliminated, |votes|);
    LeastAmongMembers(votes, keys);
    assert forall x :: x in keys ==> x < |votes|;
    BelowByMembers(LeastAmong(votes, keys), |votes|);
  }

  /** The scan as the source writes it: one pass over the candidates in index order. */
  method ScanCandidates(votes: seq<nat>, eliminated: set<nat>) returns (result: ScanResult)
    requires |votes| > 0
    ensures result == ScanOf(votes, eliminated)
  {
    var majority := Threshold(votes);
    var least := [0];
    for i := 0 to |votes|
      invariant least == LeastAmong(votes, ScanKeys(eliminated, i))
      invariant FirstMajority(votes, eliminated, 0) == FirstMajority(votes, eliminated, i)
    {
      ScanStep(votes, eliminated, i, least);
      if i !in eliminated {
        if votes[i] >= majority {
          return Majority(i);
        }
        if votes[i] < votes[least[0]] {
          least := [i];
        } else if votes[i] == votes[least[0]] && i != 0 {
          least := least + [i];
        }
      }
    }
    return Least(least);
  }

  /** One step of the scan at candidate i keeps the list equal to the least-voted keys so far. */
  lemma ScanStep(votes: seq<nat>, eliminated: set<nat>, i: nat, least: seq<nat>)
    requires i < |votes|
    requires least == LeastAmong(votes, ScanKeys(eliminated, i))
    ensures |least| > 0 && least[0] < |votes|
    ensures i in eliminated ==> LeastAmong(votes, ScanKeys(eliminated, i + 1)) == least
    ensures i !in eliminated ==>
              LeastAmong(votes, ScanKeys(eliminated, i + 1)) ==
                if votes[i] < votes[least[0]] then [i]
                else if votes[i] == votes[least[0]] && i != 0 then least + [i]
                else least
  {
    var keys := ScanKeys(eliminated, i);
    assert KeysBelow(keys, |votes|);
    LeastAmongMembers(votes, keys);
    assert least[0] in least;
    assert least[0] < |votes| && votes[least[0]] == MinAmong(votes, keys);
    if 0 < i && i !in eliminated {
      assert ScanKeys(eliminated, i + 1) == keys + [i];
      LeastAmongAppend(votes, keys, i);
    } else {
      assert ScanKeys(eliminated, i + 1) == keys;
    }
  }

  /** While candidate 0 is in the running, the least-voted list is exactly the candidates in
      the running whose count no other candidate in the running undercuts, in increasing index order. */
  lemma LeastWhileSeedActive(votes: seq<nat>, eliminated: set<nat>)
    requires |votes| > 0 && 0 !in eliminated
    ensures var least := LeastAmong(votes, ScanKeys(eliminated, |votes|));
            Increasing(least) &&
            forall c: nat :: c in least <==>
              (c < |votes| && c !in eliminated &&
               forall d :: 0 <= d < |votes| && d !in eliminated ==> votes[c] <= votes[d])
  {
    var keys := ScanKeys(eliminated, |votes|);
    ScanKeysWhileSeedActive(eliminated, |votes|);
    ActiveMembers(eliminated, 0, |votes|);
    ScanKeysIncreasing(eliminated, |votes|);
    LeastAmongMembers(votes, keys);
  }

  /** The seeding defect: once candidate 0 is eliminated its count (zero after the tally) stays
      the reference, so when every candidate in the running has a vote the list is just [0]. */
  lemma SeedStaysLeast(votes: seq<nat>, eliminated: set<nat>)
    requires |votes| > 0 && 0 in eliminated && votes[0] == 0
    requires forall c :: 0 <= c < |votes| && c !in eliminated ==> votes[c] > 0
    ensures LeastAmong(votes, ScanKeys(eliminated, |votes|)) == [0]
  {
    var keys := ScanKeys(eliminated, |votes|);
    var rest := Active(eliminated, 1, |votes|);
    assert keys == [0] + rest;
    ActiveMembers(eliminated, 1, |votes|);
    MinAmongIsLeast(votes, keys);
    assert MinAmong(votes, keys) == 0 by {
      assert 0 in keys;
    }
    assert forall x :: x in rest ==> votes[x] != 0;
    BelowByMembers(rest, |votes|);
    WithVotesNone(votes, rest, 0);
    WithVotesPrepend(votes, 0, rest, 0);
  }

  /** Filtering a key followed by more keys filters the first key, then the rest. */
  lemma WithVotesPrepend(votes: seq<nat>, x: nat, keys: seq<nat>, m: nat)
    requires x < |votes| && KeysBelow(keys, |votes|)
    ensures KeysBelow([x] + keys, |votes|)
    ensures WithVotes(votes, [x] + keys, m) == (if votes[x] == m then [x] else []) + WithVotes(votes, keys, m)
  {
    assert KeysBelow([x] + keys, |votes|);
    WithVotesUpToPrepend(votes, x, keys, m, |keys|);
  }

  lemma {:induction false} WithVotesUpToPrepend(votes: seq<nat>, x: nat, keys: seq<nat>, m: nat, k: nat)
    requires x < |votes| && KeysBelow(keys, |votes|) && k <= |keys|
    requires KeysBelow([x] + keys, |votes|)
    ensures WithVotesUpTo(votes, [x] + keys, m, k + 1) == (if votes[x] == m then [x] else []) + WithVotesUpTo(votes, keys, m, k)
  {
    if k > 0 {
      WithVotesUpToPrepend(votes, x, keys, m, k - 1);
      assert ([x] + keys)[k] == keys[k - 1];
    }
  }
}
