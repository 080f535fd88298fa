/**
 * The order in which `load_into_shared` considers the requested variables when
 * usage estimates are given:
 * `sorted(enumerate(variables), key=estimate, reverse=True)`. Python's sort is
 * stable, also with `reverse=True`, so positions with equal estimates keep
 * their original relative order.
 */
module UsageRanking {

  /** Position i is considered before position j. */
  predicate Precedes(est: seq<int>, i: nat, j: nat)
    requires i < |est| && j < |est|
  {
    est[i] > est[j] || (est[i] == est[j] && i < j)
  }

  predicate Ranked(est: seq<int>, r: seq<nat>)
    requires forall k :: 0 <= k < |r| ==> r[k] < |est|
  {
    forall p, q :: 0 <= p < q < |r| ==> Precedes(est, r[p], r[q])
  }

  function Range(n: nat): (r: seq<nat>)
    ensures |r| == n && forall k :: 0 <= k < n ==> r[k] == k
  {
    seq(n, k => k)
  }

  /** Inserts position i after every position whose estimate is at least est[i]. */
  function Insert(est: seq<int>, i: nat, r: seq<nat>): (r': seq<nat>)
    requires i < |est| && forall k :: 0 <= k < |r| ==> r[k] < |est|
    ensures |r'| == |r| + 1
    ensures multiset(r') == multiset(r) + multiset{i}
    ensures forall k :: 0 <= k < |r'| ==> r'[k] == i || r'[k] in r
  {
    if r == [] then [i]
    else if est[r[0]] < est[i] then [i] + r
    else
      assert r == [r[0]] + r[1..];
      [r[0]] + Insert(est, i, r[1..])
  }

  /** The positions 0 .. n-1 in the order the sort produces. */
  function RankOrder(est: seq<int>, n: nat): (r: seq<nat>)
    requires n <= |est|
    ensures |r| == n
    ensures forall k :: 0 <= k < |r| ==> r[k] < n
  {
    if n == 0 then []
    else
      var prev := RankOrder(est, n - 1);
      Insert(est, n - 1, prev)
  }

  lemma {:induction false} InsertRanked(est: seq<int>, i: nat, r: seq<nat>)
    requires i < |est| && forall k :: 0 <= k < |r| ==> r[k] < i
    requires Ranked(est, r)
    ensures Ranked(est, Insert(est, i, r))
  {
    var r' := Insert(est, i, r);
    if r == [] {
    } else if est[r[0]] < est[i] {
      forall q | 0 < q < |r'|
        ensures Precedes(est, r'[0], r'[q])
      {
        if q > 1 { assert Precedes(est, r[0], r[q - 1]); }
      }
    } else {
      var tail := r[1..];
      InsertRanked(est, i, tail);
      var t' := Insert(est, i, tail);
      assert r' == [r[0]] + t';
      forall q | 0 < q < |r'|
        ensures Precedes(est, r'[0], r'[q])
      {
        var x := t'[q - 1];
        if x != i {
          var m :| 0 <= m < |tail| && tail[m] == x;
          assert Precedes(est, r[0], r[m + 1]);
        }
      }
    }
  }

  lemma RangeSnoc(n: nat)
    requires n > 0
    ensures Range(n) == Range(n - 1) + [n - 1]
  {
  }

  /** The sort's output is a permutation of the positions 0 .. n-1. */
  lemma {:induction false} RankOrderPermutes(est: seq<int>, n: nat)
    requires n <= |est|
    ensures multiset(RankOrder(est, n)) == multiset(Range(n))
  {
    if n > 0 {
      var last: nat := n - 1;
      var prev := RankOrder(est, last);
      RankOrderPermutes(est, last);
      assert multiset(RankOrder(est, n)) == multiset(prev) + multiset{last};
      RangeSnoc(n);
      assert multiset(Range(last) + [last]) == multiset(Range(last)) + multiset{last};
    }
  }

  /** The sort's output is descending by estimate, ties in ascending position. */
  lemma {:induction false} RankOrderRanked(est: seq<int>, n: nat)
    requires n <= |est|
    ensures Ranked(est, RankOrder(est, n))
  {
    if n > 0 {
      var prev := RankOrder(est, n - 1);
      RankOrderRanked(est, n - 1);
      InsertRanked(est, n - 1, prev);
      assert RankOrder(est, n) == Insert(est, n - 1, prev);
    }
  }

  /** Every position appears exactly once in the sort's output. */
  lemma RankOrderCovers(est: seq<int>, n: nat)
    requires n <= |est|
    ensures |RankOrder(est, n)| == n
    ensures forall k :: 0 <= k < n ==> k in RankOrder(est, n)
  {
    RankOrderPermutes(est, n);
    var r := RankOrder(est, n);
    assert |r| == |multiset(r)| == |multiset(Range(n))| == n;
    forall k | 0 <= k < n
      ensures k in r
    {
      assert Range(n)[k] == k;
      assert k in multiset(Range(n));
    }
  }
}
