/** Sorting and nearest-rank percentiles over finite samples. */
module NearestRank {
  import opened Wrappers

  predicate Ordered(s: seq<nat>) {
    forall i, j :: 0 <= i <= j < |s| ==> s[i] <= s[j]
  }

  lemma ConsOrdered(head: nat, tail: seq<nat>)
    requires Ordered(tail) && (tail == [] || head <= tail[0])
    ensures Ordered([head] + tail)
  {
  }

  lemma InsertedBehind(x: nat, s: seq<nat>, tail: seq<nat>)
    requires s != [] && multiset(tail) == multiset(s[1..]) + multiset{x}
    ensures multiset([s[0]] + tail) == multiset(s) + multiset{x}
  {
    assert s == [s[0]] + s[1..];
  }

  function Inserted(x: nat, s: seq<nat>): (r: seq<nat>)
    requires Ordered(s)
    ensures Ordered(r) && multiset(r) == multiset(s) + multiset{x}
    ensures |r| == |s| + 1 && (r[0] == x || (s != [] && r[0] == s[0]))
  {
    if s == [] || x <= s[0] then
      ConsOrdered(x, s);
      [x] + s
    else
      var tail := Inserted(x, s[1..]);
      ConsOrdered(s[0], tail);
      InsertedBehind(x, s, tail);
      [s[0]] + tail
  }

  /** The ordered arrangement of the samples (`sort_unstable` on plain integers). */
  function Sorted(s: seq<nat>): (r: seq<nat>)
    ensures Ordered(r) && multiset(r) == multiset(s) && |r| == |s|
  {
    if s == [] then []
    else
      assert s == s[..|s| - 1] + [s[|s| - 1]];
      Inserted(s[|s| - 1], Sorted(s[..|s| - 1]))
  }

  lemma HeadIsLeast(a: seq<nat>, b: seq<nat>)
    requires Ordered(b) && multiset(a) == multiset(b) && a != []
    ensures b != [] && b[0] <= a[0]
  {
    assert a[0] in multiset(b);
    var i :| 0 <= i < |b| && b[i] == a[0];
  }

  lemma TailMultiset(a: seq<nat>)
    requires a != []
    ensures multiset(a[1..]) == multiset(a) - multiset{a[0]}
  {
    assert a == [a[0]] + a[1..];
  }

  /** There is only one ordered arrangement of a multiset. */
  lemma {:induction false} OrderedIsUnique(a: seq<nat>, b: seq<nat>)
    requires Ordered(a) && Ordered(b) && multiset(a) == multiset(b)
    ensures a == b
  {
    if a == [] {
      assert |multiset(b)| == 0;
    } else {
      HeadIsLeast(a, b);
      HeadIsLeast(b, a);
      TailMultiset(a);
      TailMultiset(b);
      OrderedIsUnique(a[1..], b[1..]);
      assert a == [a[0]] + a[1..] && b == [b[0]] + b[1..];
    }
  }

  /** Zero-based nearest rank, in the saturating spelling of the source. */
  function RankIndex(length: nat, percentile: nat): nat
    requires length > 0
  {
    Min(Max((length * percentile + 99) / 100 - 1, 0), length - 1)
  }

  function PercentileOf(sorted: seq<nat>, percentile: nat): nat
    requires sorted != []
  {
    sorted[RankIndex(|sorted|, percentile)]
  }

  function CountAtMost(s: seq<nat>, x: nat): nat {
    if s == [] then 0 else CountAtMost(s[..|s| - 1], x) + if s[|s| - 1] <= x then 1 else 0
  }

  function CountBelow(s: seq<nat>, x: nat): nat {
    if s == [] then 0 else CountBelow(s[..|s| - 1], x) + if s[|s| - 1] < x then 1 else 0
  }

  lemma {:induction false} CountsConcat(a: seq<nat>, b: seq<nat>, x: nat)
    ensures CountAtMost(a + b, x) == CountAtMost(a, x) + CountAtMost(b, x)
    ensures CountBelow(a + b, x) == CountBelow(a, x) + CountBelow(b, x)
  {
    if b == [] {
      assert a + b == a;
    } else {
      assert (a + b)[..|a + b| - 1] == a + b[..|b| - 1];
      CountsConcat(a, b[..|b| - 1], x);
    }
  }

  /** Counting depends on the samples only, not on their arrangement. */
  lemma {:induction false} CountsOfPermutation(a: seq<nat>, b: seq<nat>, x: nat)
    requires multiset(a) == multiset(b)
    ensures CountAtMost(a, x) == CountAtMost(b, x) && CountBelow(a, x) == CountBelow(b, x)
  {
    if a == [] {
      assert |b| == |multiset(b)| == 0;
    } else {
      var i := LastIsSomewhere(a, b);
      CountsOfPermutation(a[..|a| - 1], b[..i] + b[i + 1..], x);
      CountsWithout(b, i, x);
    }
  }

  /** Where a permutation keeps the last element, and that the others are a permutation too. */
  lemma LastIsSomewhere(a: seq<nat>, b: seq<nat>) returns (i: nat)
    requires multiset(a) == multiset(b) && a != []
    ensures i < |b| && b[i] == a[|a| - 1]
    ensures multiset(a[..|a| - 1]) == multiset(b[..i] + b[i + 1..])
  {
    var y := a[|a| - 1];
    WithoutAt(a, |a| - 1);
    assert a[|a| - 1 + 1..] == [] && a[..|a| - 1] + [] == a[..|a| - 1];
    assert y in multiset(b);
    i :| 0 <= i < |b| && b[i] == y;
    WithoutAt(b, i);
  }

  /** Taking one element out of a list takes it out of its multiset. */
  lemma WithoutAt(s: seq<nat>, i: nat)
    requires i < |s|
    ensures multiset(s[..i] + s[i + 1..]) == multiset(s) - multiset{s[i]}
  {
    assert s == s[..i] + [s[i]] + s[i + 1..];
    assert multiset(s) == multiset(s[..i]) + multiset{s[i]} + multiset(s[i + 1..]);
  }

  lemma CountsWithout(b: seq<nat>, i: nat, x: nat)
    requires i < |b|
    ensures CountAtMost(b, x) == CountAtMost(b[..i] + b[i + 1..], x) + if b[i] <= x then 1 else 0
    ensures CountBelow(b, x) == CountBelow(b[..i] + b[i + 1..], x) + if b[i] < x then 1 else 0
  {
    hide CountAtMost, CountBelow;
    var y := b[i];
    assert b == b[..i] + [y] + b[i + 1..];
    CountsConcat(b[..i], b[i + 1..], x);
    CountsConcat(b[..i], [y], x);
    CountsConcat(b[..i] + [y], b[i + 1..], x);
    CountsOfOne(y, x);
  }

  lemma CountsOfOne(y: nat, x: nat)
    ensures CountAtMost([y], x) == (if y <= x then 1 else 0) && CountBelow([y], x) == (if y < x then 1 else 0)
  {
    assert [y][..0] == [];
  }

  lemma {:induction false} AtMostCountsAPrefix(s: seq<nat>, m: nat, x: nat)
    requires m <= |s| && forall i :: 0 <= i < m ==> s[i] <= x
    ensures CountAtMost(s, x) >= m
  {
    if s != [] {
      AtMostCountsAPrefix(s[..|s| - 1], if m < |s| then m else m - 1, x);
    }
  }

  lemma {:induction false} BelowCountsOnlyAPrefix(s: seq<nat>, m: nat, x: nat)
    requires m <= |s| && forall i :: m <= i < |s| ==> s[i] >= x
    ensures CountBelow(s, x) <= m
  {
    if s != [] {
      BelowCountsOnlyAPrefix(s[..|s| - 1], if m < |s| then m else m - 1, x);
    }
  }

  lemma RankArithmetic(n: nat, p: nat)
    requires 0 < n && 0 < p <= 100
    ensures var k := RankIndex(n, p);
            k < n && 100 * (k + 1) >= p * n && 100 * k < p * n
  {
    assert 0 < n * p <= 100 * n;
  }

  /**
   Nearest rank: at least p% of the samples lie at or below the reported value and fewer
   than p% lie strictly below it, and the value is one of the samples.
   */
  lemma PercentileIsNearestRank(samples: seq<nat>, p: nat)
    requires samples != [] && 0 < p <= 100
    ensures var v := PercentileOf(Sorted(samples), p);
            && v in samples
            && 100 * CountAtMost(samples, v) >= p * |samples|
            && 100 * CountBelow(samples, v) < p * |samples|
  {
    var sorted := Sorted(samples);
    var n := |samples|;
    var k := RankIndex(n, p);
    RankArithmetic(n, p);
    AtMostCountsAPrefix(sorted, k + 1, sorted[k]);
    BelowCountsOnlyAPrefix(sorted, k, sorted[k]);
    CountsOfPermutation(sorted, samples, sorted[k]);
    assert sorted[k] in multiset(samples);
  }

  lemma RankIsMonotone(n: nat, p: nat, q: nat)
    requires 0 < n && p <= q
    ensures 0 <= RankIndex(n, p) <= RankIndex(n, q) < n
  {
    ProductIsMonotone(n, p, q);
    var a, b := n * p, n * q;
    assert (a + 99) / 100 <= (b + 99) / 100;
  }

  lemma ProductIsMonotone(n: nat, p: nat, q: nat)
    requires p <= q
    ensures n * p <= n * q
  {
    assert n * q == n * p + n * (q - p);
  }

  lemma PercentilesAreMonotone(sorted: seq<nat>, p: nat, q: nat)
    requires sorted != [] && Ordered(sorted) && p <= q
    ensures sorted[0] <= PercentileOf(sorted, p) <= PercentileOf(sorted, q) <= sorted[|sorted| - 1]
  {
    RankIsMonotone(|sorted|, p, q);
  }
}
