/** Rank-based k-winners-take-all inhibition.  A node's rank is the number of
    OTHER nodes whose activation is at least its own (ties count on both
    sides); the node fires (state 1) iff its rank is below activeRatio * H,
    where H is the number of nodes. */
module Inhibition {
  import opened Counting

  /** Number of nodes j < n, j != i, with acts[j] >= acts[i]: the value of the
      source's `inhibition` counter after its inner loop has seen n nodes. */
  function CountAtLeast(acts: seq<real>, i: nat, n: nat): (count: nat)
    requires i < |acts| && n <= |acts|
    ensures count + (if i < n then 1 else 0) <= n
  {
    if n == 0 then 0
    else CountAtLeast(acts, i, n - 1) + (if n - 1 != i && acts[n - 1] >= acts[i] then 1 else 0)
  }

  /** The final value of the counter: a node never counts itself, so its
      rank is below H. */
  function Rank(acts: seq<real>, i: nat): (rank: nat)
    requires i < |acts|
    ensures rank < |acts|
  {
    CountAtLeast(acts, i, |acts|)
  }

  /** The node's new state: 1 iff its rank is below activeRatio * H. */
  function State(acts: seq<real>, ratio: real, i: nat): (s: real)
    requires i < |acts|
    ensures s == 0.0 || s == 1.0
  {
    if Wins(Rank(acts, i), ratio, |acts|) then 1.0 else 0.0
  }

  /** The other nodes whose activation is at least that of node i. */
  ghost function Above(acts: seq<real>, i: nat): set<int>
    requires i < |acts|
  {
    set j | 0 <= j < |acts| && j != i && acts[j] >= acts[i]
  }

  /** The indices of the winning (firing) nodes. */
  ghost function Winners(acts: seq<real>, ratio: real): set<int>
  {
    set i | 0 <= i < |acts| && State(acts, ratio, i) == 1.0
  }

  /** The nodes whose rank is below m. */
  ghost function RankBelow(acts: seq<real>, m: int): set<int>
  {
    set i | 0 <= i < |acts| && Rank(acts, i) < m
  }

  /** #{ r in [0, h) : r < ratio * h }, the number of ranks that can win. */
  ghost function Quota(ratio: real, h: nat): nat
  {
    |set r | 0 <= r < h && Wins(r, ratio, h)|
  }

  /** rank < activeRatio * H: the comparison that decides whether a node fires. */
  predicate Wins(rank: int, ratio: real, h: nat)
  {
    (rank as real) < ratio * (h as real)
  }

  predicate Distinct(acts: seq<real>)
  {
    forall i, j :: 0 <= i < j < |acts| ==> acts[i] != acts[j]
  }

  /** The nodes j < n, j != i, with acts[j] >= acts[i]. */
  ghost function AboveUpTo(acts: seq<real>, i: nat, n: nat): set<int>
    requires i < |acts| && n <= |acts|
  {
    set j | 0 <= j < n && j != i && acts[j] >= acts[i]
  }

  lemma {:induction false} CountAtLeastIsSize(acts: seq<real>, i: nat, n: nat)
    requires i < |acts| && n <= |acts|
    ensures CountAtLeast(acts, i, n) == |AboveUpTo(acts, i, n)|
  {
    if n > 0 {
      CountAtLeastIsSize(acts, i, n - 1);
      var before := AboveUpTo(acts, i, n - 1);
      assert n - 1 !in before;
      if n - 1 != i && acts[n - 1] >= acts[i] {
        assert AboveUpTo(acts, i, n) == before + {n - 1};
      } else {
        assert AboveUpTo(acts, i, n) == before;
      }
    }
  }

  lemma RankIsSize(acts: seq<real>, i: nat)
    requires i < |acts|
    ensures Rank(acts, i) == |Above(acts, i)|
  {
    CountAtLeastIsSize(acts, i, |acts|);
    assert AboveUpTo(acts, i, |acts|) == Above(acts, i);
  }

  /** Winners are closed upward: a node more active than a winner wins too. */
  lemma WinnersUpwardClosed(acts: seq<real>, ratio: real, i: nat, k: nat)
    requires i < |acts| && k < |acts|
    requires State(acts, ratio, i) == 1.0 && acts[k] > acts[i]
    ensures State(acts, ratio, k) == 1.0
  {
    RankIsSize(acts, i);
    RankIsSize(acts, k);
    assert k in Above(acts, i);
    assert Above(acts, k) <= Above(acts, i) - {k};
    SubsetSize(Above(acts, k), Above(acts, i) - {k});
  }

  /** Two nodes with equal activation have equal rank, hence equal state. */
  lemma TiedNodesAgree(acts: seq<real>, ratio: real, i: nat, k: nat)
    requires i < |acts| && k < |acts| && acts[i] == acts[k]
    ensures Rank(acts, i) == Rank(acts, k)
    ensures State(acts, ratio, i) == State(acts, ratio, k)
  {
    if i != k {
      RankIsSize(acts, i);
      RankIsSize(acts, k);
      var common := Above(acts, i) - {k};
      assert common == Above(acts, k) - {i};
      assert Above(acts, i) == common + {k};
      assert Above(acts, k) == common + {i};
    }
  }

  /** The least active member of s among the first n nodes, or -1 if s has
      none of them. */
  lemma {:induction false} LeastAmong(acts: seq<real>, s: set<int>, n: nat) returns (m: int)
    requires n <= |acts|
    ensures -1 <= m < n
    ensures 0 <= m ==> m in s && forall j :: 0 <= j < n && j in s ==> acts[m] <= acts[j]
    ensures m == -1 ==> forall j :: 0 <= j < n ==> j !in s
  {
    if n == 0 {
      m := -1;
    } else {
      var k := LeastAmong(acts, s, n - 1);
      m := if n - 1 in s && (k == -1 || acts[n - 1] < acts[k]) then n - 1 else k;
    }
  }

  /** The most active member of s among the first n nodes, or -1 if s has
      none of them. */
  lemma {:induction false} GreatestAmong(acts: seq<real>, s: set<int>, n: nat) returns (m: int)
    requires n <= |acts|
    ensures -1 <= m < n
    ensures 0 <= m ==> m in s && forall j :: 0 <= j < n && j in s ==> acts[j] <= acts[m]
    ensures m == -1 ==> forall j :: 0 <= j < n ==> j !in s
  {
    if n == 0 {
      m := -1;
    } else {
      var k := GreatestAmong(acts, s, n - 1);
      m := if n - 1 in s && (k == -1 || acts[k] < acts[n - 1]) then n - 1 else k;
    }
  }

  /** At most m nodes have rank below m: the least active of them would
      otherwise see all the others above it. */
  lemma RankBelowAtMost(acts: seq<real>, m: nat)
    ensures |RankBelow(acts, m)| <= m
  {
    var s := RankBelow(acts, m);
    var i := LeastAmong(acts, s, |acts|);
    if i == -1 {
      assert s == {};
    } else {
      RankIsSize(acts, i);
      assert s - {i} <= Above(acts, i);
      SubsetSize(s - {i}, Above(acts, i));
    }
  }

  /** With distinct activations, at least m nodes have rank below m (m <= H):
      the most active node of rank >= m sees only lower-ranked nodes above it. */
  lemma RankBelowAtLeast(acts: seq<real>, m: nat)
    requires Distinct(acts) && m <= |acts|
    ensures |RankBelow(acts, m)| >= m
  {
    var s := RankBelow(acts, m);
    var t := set i | 0 <= i < |acts| && Rank(acts, i) >= m;
    var i := GreatestAmong(acts, t, |acts|);
    if i == -1 {
      forall j | j in Interval(|acts|)
        ensures j in s
      {
        assert j !in t;
      }
      SubsetSize(Interval(|acts|), s);
    } else {
      RankIsSize(acts, i);
      forall j | j in Above(acts, i)
        ensures j in s
      {
        assert acts[j] != acts[i] by {
          if j < i {
            assert acts[j] != acts[i];
          } else {
            assert acts[i] != acts[j];
          }
        }
      }
      SubsetSize(Above(acts, i), s);
    }
  }

  /** A rank r < h wins iff r < Quota: the winning ranks are a prefix of [0, h). */
  lemma QuotaPrefix(ratio: real, h: nat, r: nat)
    requires r < h
    ensures Wins(r, ratio, h) <==> r < Quota(ratio, h)
  {
    var q := set r' | 0 <= r' < h && Wins(r', ratio, h);
    if Wins(r, ratio, h) {
      assert Interval(r + 1) <= q;
      SubsetSize(Interval(r + 1), q);
    } else {
      assert q <= Interval(r);
      SubsetSize(q, Interval(r));
    }
  }

  lemma QuotaAtMost(ratio: real, h: nat)
    ensures Quota(ratio, h) <= h
  {
    var q := set r | 0 <= r < h && Wins(r, ratio, h);
    assert q <= Interval(h);
    SubsetSize(q, Interval(h));
  }

  lemma WinnersAreRankBelowQuota(acts: seq<real>, ratio: real)
    ensures Winners(acts, ratio) == RankBelow(acts, Quota(ratio, |acts|))
  {
    forall i | 0 <= i < |acts|
      ensures State(acts, ratio, i) == 1.0 <==> Rank(acts, i) < Quota(ratio, |acts|)
    {
      QuotaPrefix(ratio, |acts|, Rank(acts, i));
    }
  }

  /** The number of winners never exceeds #{ r in [0, H) : r < activeRatio * H }. */
  lemma WinnerCountBound(acts: seq<real>, ratio: real)
    ensures |Winners(acts, ratio)| <= Quota(ratio, |acts|)
  {
    WinnersAreRankBelowQuota(acts, ratio);
    RankBelowAtMost(acts, Quota(ratio, |acts|));
  }

  /** Without ties the number of winners is exactly that quota. */
  lemma WinnerCountExact(acts: seq<real>, ratio: real)
    requires Distinct(acts)
    ensures |Winners(acts, ratio)| == Quota(ratio, |acts|)
  {
    WinnersAreRankBelowQuota(acts, ratio);
    QuotaAtMost(ratio, |acts|);
    RankBelowAtMost(acts, Quota(ratio, |acts|));
    RankBelowAtLeast(acts, Quota(ratio, |acts|));
  }

  /** activeRatio 0.5 over ten distinct activations selects exactly five nodes. */
  lemma HalfOfTen(acts: seq<real>)
    requires |acts| == 10 && Distinct(acts)
    ensures |Winners(acts, 0.5)| == 5
  {
    WinnerCountExact(acts, 0.5);
    assert (set r | 0 <= r < 10 && Wins(r, 0.5, 10)) == Interval(5);
  }
}
