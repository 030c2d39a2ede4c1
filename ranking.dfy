/** The three ranking rules of the copies: pandas' dense rank with the
    highest score first, numpy's argsort-of-argsort positional rank, and
    the browser page's sort by score followed by numbering. */
module Ranking {

  // ---------------------------------------------------------------
  // Dense rank: `score.rank(ascending=False, method="dense")`
  // ---------------------------------------------------------------

  /** The distinct scores. */
  function Values(scores: seq<real>): set<real>
  {
    set k | 0 <= k < |scores| :: scores[k]
  }

  /** The distinct scores strictly above `x`. */
  function Above(scores: seq<real>, x: real): set<real>
  {
    set k | 0 <= k < |scores| && scores[k] > x :: scores[k]
  }

  /** Rank of each score: one more than the number of distinct scores above
      it, so equal scores share a rank and no rank is skipped. */
  function DenseRank(scores: seq<real>): (ranks: seq<nat>)
    ensures |ranks| == |scores|
    ensures forall i :: 0 <= i < |scores| ==> ranks[i] >= 1
  {
    seq(|scores|, i requires 0 <= i < |scores| => |Above(scores, scores[i])| + 1)
  }

  lemma SubsetCard(a: set<real>, b: set<real>)
    requires a <= b
    ensures |a| <= |b|
  {
    assert b == a + (b - a);
  }

  /** Rank 1 goes exactly to the scores that no other score exceeds. */
  lemma DenseRankOneIffMax(scores: seq<real>, i: nat)
    requires i < |scores|
    ensures DenseRank(scores)[i] == 1 <==> forall k :: 0 <= k < |scores| ==> scores[k] <= scores[i]
  {
    if exists k :: 0 <= k < |scores| && scores[k] > scores[i] {
      var k :| 0 <= k < |scores| && scores[k] > scores[i];
      assert scores[k] in Above(scores, scores[i]);
    }
  }

  /** A strictly higher score gets a strictly smaller rank. */
  lemma DenseRankStrict(scores: seq<real>, i: nat, k: nat)
    requires i < |scores| && k < |scores| && scores[i] > scores[k]
    ensures DenseRank(scores)[i] < DenseRank(scores)[k]
  {
    var hi := Above(scores, scores[i]);
    var lo := Above(scores, scores[k]);
    assert scores[i] in lo && scores[i] !in hi;
    SubsetCard(hi + {scores[i]}, lo);
  }

  /** Two scores are equal exactly when their ranks are. */
  lemma DenseRankEqualIff(scores: seq<real>, i: nat, k: nat)
    requires i < |scores| && k < |scores|
    ensures scores[i] == scores[k] <==> DenseRank(scores)[i] == DenseRank(scores)[k]
  {
    if scores[i] > scores[k] {
      DenseRankStrict(scores, i, k);
    } else if scores[i] < scores[k] {
      DenseRankStrict(scores, k, i);
    }
  }

  /** Index of a smallest score. */
  function MinIndex(scores: seq<real>): (m: nat)
    requires |scores| > 0
    ensures m < |scores| && forall k :: 0 <= k < |scores| ==> scores[m] <= scores[k]
  {
    if |scores| == 1 then 0
    else
      var t := MinIndex(scores[1..]);
      assert forall k :: 1 <= k < |scores| ==> scores[1..][k - 1] == scores[k];
      if scores[0] <= scores[t + 1] then 0 else t + 1
  }

  /** Index of a smallest score among those above `x`. */
  function MinAboveIndex(scores: seq<real>, x: real): (m: nat)
    requires exists k :: 0 <= k < |scores| && scores[k] > x
    ensures m < |scores| && scores[m] > x
    ensures forall k :: 0 <= k < |scores| && scores[k] > x ==> scores[m] <= scores[k]
  {
    if scores[0] > x && forall k :: 1 <= k < |scores| && scores[k] > x ==> scores[0] <= scores[k] then 0
    else if !exists k :: 1 <= k < |scores| && scores[k] > x then 0
    else
      var tail := scores[1..];
      assert forall k :: 1 <= k < |scores| ==> tail[k - 1] == scores[k];
      assert exists k :: 0 <= k < |tail| && tail[k] > x by {
        var k :| 1 <= k < |scores| && scores[k] > x;
        assert tail[k - 1] > x;
      }
      var t := MinAboveIndex(tail, x);
      t + 1
  }

  /** Every rank is at most the number of distinct scores. */
  lemma DenseRankBounded(scores: seq<real>, i: nat)
    requires i < |scores|
    ensures DenseRank(scores)[i] <= |Values(scores)|
  {
    var x := scores[i];
    assert x in Values(scores) && x !in Above(scores, x);
    SubsetCard(Above(scores, x) + {x}, Values(scores));
  }

  /** Above a smallest score lie all the other distinct scores. */
  lemma AboveMinimum(scores: seq<real>, m: nat)
    requires m < |scores| && forall k :: 0 <= k < |scores| ==> scores[m] <= scores[k]
    ensures Above(scores, scores[m]) == Values(scores) - {scores[m]}
  {
    var x := scores[m];
    forall y | y in Values(scores) - {x} ensures y in Above(scores, x) {
      var k :| 0 <= k < |scores| && scores[k] == y;
      assert scores[m] <= scores[k] && scores[k] != x;
    }
  }

  /** The smallest score takes the largest rank, the number of distinct
      scores. */
  lemma MinTakesLastRank(scores: seq<real>)
    requires |scores| > 0
    ensures DenseRank(scores)[MinIndex(scores)] == |Values(scores)|
  {
    var m := MinIndex(scores);
    AboveMinimum(scores, m);
    assert scores[m] in Values(scores);
  }

  /** Below every rank above 1 there is its predecessor: the next larger
      score has exactly one fewer distinct score above it. */
  lemma PredecessorRank(scores: seq<real>, i: nat) returns (j: nat)
    requires i < |scores| && DenseRank(scores)[i] > 1
    ensures j < |scores| && DenseRank(scores)[j] == DenseRank(scores)[i] - 1
  {
    var x := scores[i];
    assert Above(scores, x) != {};
    var y :| y in Above(scores, x);
    assert exists k :: 0 <= k < |scores| && scores[k] > x;
    j := MinAboveIndex(scores, x);
    var m := scores[j];
    forall y | y in Above(scores, x) - {m} ensures y in Above(scores, m) {
      var k :| 0 <= k < |scores| && scores[k] > x && scores[k] == y;
      assert scores[k] > m;
    }
    assert Above(scores, m) == Above(scores, x) - {m};
    assert m in Above(scores, x);
  }

  /** Some entry of `ranks` is `r`. */
  predicate Taken(ranks: seq<nat>, r: nat)
  {
    exists i :: 0 <= i < |ranks| && ranks[i] == r
  }

  /** Every rank from `r` up to the number of distinct scores is taken. */
  lemma {:induction false} RankTaken(scores: seq<real>, r: nat)
    requires 1 <= r <= |Values(scores)|
    ensures Taken(DenseRank(scores), r)
    decreases |Values(scores)| - r
  {
    if r == |Values(scores)| {
      MinTakesLastRank(scores);
    } else {
      RankTaken(scores, r + 1);
      var i :| 0 <= i < |scores| && DenseRank(scores)[i] == r + 1;
      var j := PredecessorRank(scores, i);
    }
  }

  /** The dense ranks are exactly 1 .. k, k the number of distinct scores. */
  lemma DenseRanksAreOneToK(scores: seq<real>)
    ensures forall i :: 0 <= i < |scores| ==> 1 <= DenseRank(scores)[i] <= |Values(scores)|
    ensures forall r :: 1 <= r <= |Values(scores)| ==> Taken(DenseRank(scores), r)
  {
    forall i | 0 <= i < |scores| ensures DenseRank(scores)[i] <= |Values(scores)| {
      DenseRankBounded(scores, i);
    }
    forall r | 1 <= r <= |Values(scores)| ensures Taken(DenseRank(scores), r) {
      RankTaken(scores, r);
    }
  }

  // ---------------------------------------------------------------
  // Positional rank: `scores.argsort()[::-1].argsort() + 1`
  // ---------------------------------------------------------------

  /** `p` lists each of `0 .. n-1` exactly once. */
  predicate IsPermutation(p: seq<nat>, n: nat)
  {
    && |p| == n
    && (forall t :: 0 <= t < n ==> p[t] < n)
    && (forall t, u :: 0 <= t < u < n ==> p[t] != p[u])
    && (forall i :: 0 <= i < n ==> i in p)
  }

  /** `p` is an ascending argsort of `scores`: a permutation of the indices
      along which the scores never decrease. Ties may come in any order. */
  predicate IsAscendingArgsort(scores: seq<real>, p: seq<nat>)
  {
    && IsPermutation(p, |scores|)
    && forall t, u :: 0 <= t < u < |p| ==> scores[p[t]] <= scores[p[u]]
  }

  /** `p[::-1]` */
  function Reverse(p: seq<nat>): (q: seq<nat>)
    ensures |q| == |p| && forall t :: 0 <= t < |p| ==> q[t] == p[|p| - 1 - t]
  {
    seq(|p|, t requires 0 <= t < |p| => p[|p| - 1 - t])
  }

  /** Position of `i` in `p`. */
  function IndexOf(p: seq<nat>, i: nat): (t: nat)
    requires i in p
    ensures t < |p| && p[t] == i && i !in p[..t]
  {
    if p[0] == i then 0
    else
      var t := IndexOf(p[1..], i);
      assert p[..t + 1] == [p[0]] + p[1..][..t];
      t + 1
  }

  /** The argsort of a permutation is its inverse: position `i` of the
      result holds the index where `i` sits. */
  function Inverse(q: seq<nat>): (inv: seq<nat>)
    requires IsPermutation(q, |q|)
    ensures IsPermutation(inv, |q|)
    ensures forall i :: 0 <= i < |q| ==> q[inv[i]] == i
    ensures forall t :: 0 <= t < |q| ==> inv[q[t]] == t
  {
    var n := |q|;
    var inv := seq(n, i requires 0 <= i < n => IndexOf(q, i));
    forall t | 0 <= t < n ensures inv[q[t]] == t {
      var u := inv[q[t]];
      assert q[u] == q[t];
    }
    forall t | 0 <= t < n ensures t in inv {
      assert inv[q[t]] == t;
    }
    forall t, u | 0 <= t < u < n ensures inv[t] != inv[u] {
      assert q[inv[t]] == t && q[inv[u]] == u;
    }
    inv
  }

  /** Reversing keeps a permutation. */
  lemma ReversePermutation(p: seq<nat>, n: nat)
    requires IsPermutation(p, n)
    ensures IsPermutation(Reverse(p), n)
  {
    var q := Reverse(p);
    forall t, u | 0 <= t < u < n ensures q[t] != q[u] {
      assert p[n - 1 - u] != p[n - 1 - t];
    }
    forall i | 0 <= i < n ensures i in q {
      var t := IndexOf(p, i);
      assert q[n - 1 - t] == i;
    }
  }

  /** The rank of each index: one more than its position in the descending
      order `p[::-1]`. */
  function PositionalRank(scores: seq<real>, p: seq<nat>): (ranks: seq<nat>)
    requires IsAscendingArgsort(scores, p)
    ensures |ranks| == |scores|
  {
    ReversePermutation(p, |scores|);
    var inv := Inverse(Reverse(p));
    seq(|scores|, i requires 0 <= i < |scores| => inv[i] + 1)
  }

  /** The positional ranks are a permutation of 1 .. n. */
  lemma PositionalRankPermutation(scores: seq<real>, p: seq<nat>)
    requires IsAscendingArgsort(scores, p)
    ensures forall i :: 0 <= i < |scores| ==> 1 <= PositionalRank(scores, p)[i] <= |scores|
    ensures forall i, k :: 0 <= i < k < |scores| ==> PositionalRank(scores, p)[i] != PositionalRank(scores, p)[k]
    ensures forall r :: 1 <= r <= |scores| ==> Taken(PositionalRank(scores, p), r)
  {
    ReversePermutation(p, |scores|);
    var q := Reverse(p);
    var inv := Inverse(q);
    var ranks := PositionalRank(scores, p);
    forall r | 1 <= r <= |scores| ensures Taken(ranks, r) {
      assert inv[q[r - 1]] == r - 1;
      assert ranks[q[r - 1]] == r;
    }
  }

  /** A strictly higher score gets a strictly smaller positional rank,
      whatever order the argsort gives to ties. */
  lemma PositionalRankStrict(scores: seq<real>, p: seq<nat>, i: nat, k: nat)
    requires IsAscendingArgsort(scores, p) && i < |scores| && k < |scores|
    requires scores[i] > scores[k]
    ensures PositionalRank(scores, p)[i] < PositionalRank(scores, p)[k]
  {
    var n := |scores|;
    ReversePermutation(p, n);
    var q := Reverse(p);
    var inv := Inverse(q);
    var ti, tk := inv[i], inv[k];
    assert q[ti] == i && q[tk] == k;
    assert p[n - 1 - ti] == i && p[n - 1 - tk] == k;
  }

  /** Rank 1 goes to a highest score. */
  lemma PositionalRankOneIsMax(scores: seq<real>, p: seq<nat>, i: nat)
    requires IsAscendingArgsort(scores, p) && i < |scores|
    requires PositionalRank(scores, p)[i] == 1
    ensures forall k :: 0 <= k < |scores| ==> scores[k] <= scores[i]
  {
    forall k | 0 <= k < |scores| ensures scores[k] <= scores[i] {
      if scores[k] > scores[i] {
        PositionalRankStrict(scores, p, k, i);
      }
    }
  }

  /** The scores never decrease along the indices `p`. */
  predicate Ascending(scores: seq<real>, p: seq<nat>)
    requires forall t :: 0 <= t < |p| ==> p[t] < |scores|
  {
    forall t, u :: 0 <= t < u < |p| ==> scores[p[t]] <= scores[p[u]]
  }

  /** No index appears twice. */
  predicate Distinct(p: seq<nat>)
  {
    forall t, u :: 0 <= t < u < |p| ==> p[t] != p[u]
  }

  /** Inserts index `i` after every index whose score is not larger: a step
      of a stable ascending argsort. */
  function InsertIndex(scores: seq<real>, sorted: seq<nat>, i: nat): (r: seq<nat>)
    requires i < |scores| && forall t :: 0 <= t < |sorted| ==> sorted[t] < |scores|
    ensures |r| == |sorted| + 1
    ensures forall x :: x in r <==> x in sorted || x == i
    ensures forall t :: 0 <= t < |r| ==> r[t] < |scores|
    ensures r[0] == i || (sorted != [] && r[0] == sorted[0])
  {
    if sorted == [] then [i]
    else if scores[sorted[0]] > scores[i] then
      [i] + sorted
    else
      var rest := InsertIndex(scores, sorted[1..], i);
      assert sorted == [sorted[0]] + sorted[1..];
      var r := [sorted[0]] + rest;
      assert forall t :: 1 <= t < |r| ==> r[t] == rest[t - 1];
      r
  }

  lemma {:induction false} InsertIndexAscending(scores: seq<real>, sorted: seq<nat>, i: nat)
    requires i < |scores| && forall t :: 0 <= t < |sorted| ==> sorted[t] < |scores|
    requires Ascending(scores, sorted)
    ensures Ascending(scores, InsertIndex(scores, sorted, i))
  {
    if sorted != [] && scores[sorted[0]] <= scores[i] {
      var tail := sorted[1..];
      assert forall t :: 1 <= t < |sorted| ==> tail[t - 1] == sorted[t];
      InsertIndexAscending(scores, tail, i);
      var rest := InsertIndex(scores, tail, i);
      var r := InsertIndex(scores, sorted, i);
      assert r == [sorted[0]] + rest;
      assert scores[sorted[0]] <= scores[rest[0]];
      forall t, u | 0 <= t < u < |r| ensures scores[r[t]] <= scores[r[u]] {
        if t == 0 {
          assert r[u] == rest[u - 1];
          if u > 1 {
            assert scores[rest[0]] <= scores[rest[u - 1]];
          }
        } else {
          assert r[t] == rest[t - 1] && r[u] == rest[u - 1];
        }
      }
    }
  }

  lemma {:induction false} InsertIndexDistinct(scores: seq<real>, sorted: seq<nat>, i: nat)
    requires i < |scores| && forall t :: 0 <= t < |sorted| ==> sorted[t] < |scores|
    requires Distinct(sorted) && i !in sorted
    ensures Distinct(InsertIndex(scores, sorted, i))
  {
    if sorted != [] && scores[sorted[0]] <= scores[i] {
      var tail := sorted[1..];
      assert forall t :: 1 <= t < |sorted| ==> tail[t - 1] == sorted[t];
      assert sorted[0] !in tail;
      InsertIndexDistinct(scores, tail, i);
      var rest := InsertIndex(scores, tail, i);
      var r := InsertIndex(scores, sorted, i);
      assert r == [sorted[0]] + rest;
      forall t, u | 0 <= t < u < |r| ensures r[t] != r[u] {
        if t == 0 {
          assert r[u] == rest[u - 1];
          assert r[u] in rest;
        } else {
          assert r[t] == rest[t - 1] && r[u] == rest[u - 1];
        }
      }
    }
  }

  /** The indices `0 .. k-1` inserted in order. */
  function ArgsortPrefix(scores: seq<real>, k: nat): (p: seq<nat>)
    requires k <= |scores|
    ensures |p| == k
    ensures forall x: int :: x in p <==> 0 <= x < k
    ensures forall t :: 0 <= t < k ==> p[t] < |scores|
    ensures Ascending(scores, p) && Distinct(p)
  {
    if k == 0 then []
    else
      var prev := ArgsortPrefix(scores, k - 1);
      InsertIndexAscending(scores, prev, k - 1);
      InsertIndexDistinct(scores, prev, k - 1);
      InsertIndex(scores, prev, k - 1)
  }

  /** A concrete ascending argsort, so that positional ranks always exist. */
  function Argsort(scores: seq<real>): (p: seq<nat>)
    ensures IsAscendingArgsort(scores, p)
  {
    ArgsortPrefix(scores, |scores|)
  }

  // ---------------------------------------------------------------
  // The browser page: sort by score, then `Rank = position + 1`
  // ---------------------------------------------------------------

  /** The scores never increase along `xs`. */
  predicate NonIncreasing<T>(xs: seq<T>, key: T -> real)
  {
    forall t, u :: 0 <= t < u < |xs| ==> key(xs[t]) >= key(xs[u])
  }

  /** The elements of `xs` whose key is `v`, in their order in `xs`. */
  function WithKey<T>(xs: seq<T>, key: T -> real, v: real): seq<T>
    decreases |xs|
  {
    if xs == [] then [] else (if key(xs[0]) == v then [xs[0]] else []) + WithKey(xs[1..], key, v)
  }

  /** Inserts `x` before the first element whose key is not larger. */
  function InsertDesc<T>(xs: seq<T>, x: T, key: T -> real): (r: seq<T>)
    ensures multiset(r) == multiset(xs) + multiset{x}
    ensures r[0] == x || (xs != [] && r[0] == xs[0])
  {
    if xs == [] then [x]
    else if key(xs[0]) <= key(x) then [x] + xs
    else
      assert xs == [xs[0]] + xs[1..];
      [xs[0]] + InsertDesc(xs[1..], x, key)
  }

  /** `WithKey` of a sequence with a given first element. */
  lemma WithKeyCons<T>(y: T, ys: seq<T>, key: T -> real, v: real)
    ensures WithKey([y] + ys, key, v) == (if key(y) == v then [y] else []) + WithKey(ys, key, v)
  {
    assert ([y] + ys)[1..] == ys;
  }

  /** Insertion puts `x` ahead of every element with the same key. */
  lemma {:induction false} InsertDescWithKey<T>(xs: seq<T>, x: T, key: T -> real, v: real)
    ensures WithKey(InsertDesc(xs, x, key), key, v) == (if key(x) == v then [x] else []) + WithKey(xs, key, v)
    decreases |xs|
  {
    if xs == [] {
      WithKeyCons(x, [], key, v);
      assert [x] + [] == [x];
    } else if key(xs[0]) <= key(x) {
      WithKeyCons(x, xs, key, v);
    } else {
      InsertDescWithKey(xs[1..], x, key, v);
      InsertDescWithKeyPast(xs, x, key, v);
    }
  }

  /** The step of `InsertDescWithKey` where `x` goes past the first element. */
  lemma InsertDescWithKeyPast<T>(xs: seq<T>, x: T, key: T -> real, v: real)
    requires xs != [] && key(xs[0]) > key(x)
    requires WithKey(InsertDesc(xs[1..], x, key), key, v) == (if key(x) == v then [x] else []) + WithKey(xs[1..], key, v)
    ensures WithKey(InsertDesc(xs, x, key), key, v) == (if key(x) == v then [x] else []) + WithKey(xs, key, v)
  {
    var rest := InsertDesc(xs[1..], x, key);
    var tail := WithKey(xs[1..], key, v);
    assert InsertDesc(xs, x, key) == [xs[0]] + rest;
    WithKeyCons(xs[0], rest, key, v);
    assert xs == [xs[0]] + xs[1..];
    WithKeyCons(xs[0], xs[1..], key, v);
    if key(x) == v {
      // `xs[0]` has a larger key, so it is not kept
      assert WithKey(xs, key, v) == tail;
    } else {
      assert WithKey(rest, key, v) == tail;
    }
  }

  lemma {:induction false} InsertDescSorted<T>(xs: seq<T>, x: T, key: T -> real)
    requires NonIncreasing(xs, key)
    ensures NonIncreasing(InsertDesc(xs, x, key), key)
  {
    if xs != [] && key(xs[0]) > key(x) {
      var tail := xs[1..];
      assert forall t :: 1 <= t < |xs| ==> tail[t - 1] == xs[t];
      InsertDescSorted(tail, x, key);
      var rest := InsertDesc(tail, x, key);
      var r := InsertDesc(xs, x, key);
      assert r == [xs[0]] + rest;
      assert key(xs[0]) >= key(rest[0]);
      forall t, u | 0 <= t < u < |r| ensures key(r[t]) >= key(r[u]) {
        if t == 0 {
          assert r[u] == rest[u - 1];
          if u > 1 {
            assert key(rest[0]) >= key(rest[u - 1]);
          }
        } else {
          assert r[t] == rest[t - 1] && r[u] == rest[u - 1];
        }
      }
    }
  }

  /** `[...rows].sort((a, b) => b.score - a.score)`, a stable sort: the
      same rows with the scores non-increasing, and the rows sharing a
      score in their input order. */
  function SortDesc<T>(xs: seq<T>, key: T -> real): (r: seq<T>)
    ensures multiset(r) == multiset(xs)
    ensures NonIncreasing(r, key)
    ensures forall v :: WithKey(r, key, v) == WithKey(xs, key, v)
    decreases |xs|
  {
    if xs == [] then []
    else
      assert xs == [xs[0]] + xs[1..];
      var sorted := SortDesc(xs[1..], key);
      InsertDescSorted(sorted, xs[0], key);
      SortDescKeepsTies(xs, sorted, key);
      InsertDesc(sorted, xs[0], key)
  }

  /** Inserting the head into the sorted tail keeps each score's rows in
      input order. */
  lemma SortDescKeepsTies<T>(xs: seq<T>, sorted: seq<T>, key: T -> real)
    requires xs != []
    requires forall v :: WithKey(sorted, key, v) == WithKey(xs[1..], key, v)
    ensures forall v :: WithKey(InsertDesc(sorted, xs[0], key), key, v) == WithKey(xs, key, v)
  {
    forall v ensures WithKey(InsertDesc(sorted, xs[0], key), key, v) == WithKey(xs, key, v) {
      InsertDescWithKey(sorted, xs[0], key, v);
    }
  }
}
