/** Nearest-rank percentiles: sorting, the rank index, and what a percentile
    says about how many samples reach a value. */
module Percentile {
  import opened Rounding

  predicate Ascending(s: seq<real>) {
    forall i, j :: 0 <= i < j < |s| ==> s[i] <= s[j]
  }

  function Insert(x: real, s: seq<real>): (r: seq<real>)
    requires Ascending(s)
    ensures Ascending(r) && multiset(r) == multiset(s) + multiset{x}
    ensures |r| > 0 && (r[0] == x || (s != [] && r[0] == s[0]))
  {
    if s == [] || x <= s[0] then [x] + s
    else
      assert s == [s[0]] + s[1..];
      var rest := Insert(x, s[1..]);
      FrontAscends(s[0], rest);
      [s[0]] + rest
  }

  lemma FrontAscends(h: real, t: seq<real>)
    requires Ascending(t) && t != [] && h <= t[0]
    ensures Ascending([h] + t)
  {
  }

  /** sort.Float64s: ascending and a permutation of its input. */
  function Sort(s: seq<real>): (r: seq<real>)
    ensures Ascending(r) && multiset(r) == multiset(s) && |r| == |s|
  {
    if s == [] then []
    else
      assert s == [s[0]] + s[1..];
      var r := Insert(s[0], Sort(s[1..]));
      assert |multiset(r)| == |multiset(s)|;
      r
  }

  function RankPoint(p: int, n: int): real {
    Times(p as real / 100.0, (n - 1) as real)
  }

  /** round(p/100 * (n-1)), clamped to a legal index. */
  function PercentileIndex(p: int, n: int): int {
    var idx := RoundHalfAway(RankPoint(p, n));
    var lower := if idx < 0 then 0 else idx;
    if lower >= n then n - 1 else lower
  }

  /** The rank of a percentile is the nearest to p hundredths of the way. */
  lemma IndexIsNearestRank(p: int, n: int)
    requires n > 0 && 0 <= p <= 100
    ensures -50 <= 100 * PercentileIndex(p, n) - p * (n - 1) <= 50
  {
    var x := RankPoint(p, n);
    RankScaled(p, n);
    ShareOfRange(p, n - 1);
    assert x - 0.5 <= RoundHalfAway(x) as real <= x + 0.5;
  }

  lemma RankScaled(p: int, n: int)
    ensures 100.0 * RankPoint(p, n) == (p * (n - 1)) as real
  {
    assert (p * (n - 1)) as real == p as real * (n - 1) as real;
  }

  lemma ShareOfRange(p: int, k: int)
    requires 0 <= p <= 100 && k >= 0
    ensures 0 <= p * k <= 100 * k
  {
  }

  lemma IndexInRange(p: int, n: int)
    requires n > 0
    ensures 0 <= PercentileIndex(p, n) < n
  {
  }

  function PercentileOf(s: seq<real>, p: int): real
    requires s != []
  {
    IndexInRange(p, |s|);
    Sort(s)[PercentileIndex(p, |s|)]
  }

  /** How many samples reach `v`. */
  function CountAtLeast(s: seq<real>, v: real): nat {
    if s == [] then 0 else CountAtLeast(s[1..], v) + if s[0] >= v then 1 else 0
  }

  lemma {:induction false} CountOfInsert(x: real, s: seq<real>, v: real)
    requires Ascending(s)
    ensures CountAtLeast(Insert(x, s), v) == CountAtLeast(s, v) + if x >= v then 1 else 0
  {
    if s == [] || x <= s[0] {
      assert ([x] + s)[1..] == s;
    } else {
      CountOfInsert(x, s[1..], v);
      assert ([s[0]] + Insert(x, s[1..]))[1..] == Insert(x, s[1..]);
    }
  }

  lemma {:induction false} CountOfSort(s: seq<real>, v: real)
    ensures CountAtLeast(Sort(s), v) == CountAtLeast(s, v)
  {
    if s != [] {
      CountOfSort(s[1..], v);
      CountOfInsert(s[0], Sort(s[1..]), v);
    }
  }

  lemma {:induction false} CountBounded(s: seq<real>, v: real)
    ensures CountAtLeast(s, v) <= |s|
    ensures CountAtLeast(s, v) == |s| <==> forall i :: 0 <= i < |s| ==> s[i] >= v
  {
    if s != [] {
      CountBounded(s[1..], v);
      assert forall i :: 0 < i < |s| ==> s[i] == s[1..][i - 1];
      assert forall i :: 0 <= i < |s| - 1 ==> s[1..][i] == s[i + 1];
    }
  }

  /** In a sorted sequence, rank decides. */
  lemma {:induction false} RankInSorted(s: seq<real>, i: nat, v: real)
    requires Ascending(s) && i < |s|
    ensures s[i] >= v <==> CountAtLeast(s, v) >= |s| - i
  {
    CountBounded(s, v);
    if i > 0 {
      RankInSorted(s[1..], i - 1, v);
      CountBounded(s[1..], v);
    } else if s[0] >= v {
      assert forall j :: 0 <= j < |s| ==> s[j] >= v;
    }
  }

  /** A percentile reaches `v` exactly when enough samples do, whatever the
      other samples are. */
  lemma PercentileByRank(s: seq<real>, p: int, v: real)
    requires s != []
    ensures PercentileOf(s, p) >= v <==> CountAtLeast(s, v) >= |s| - PercentileIndex(p, |s|)
  {
    IndexInRange(p, |s|);
    RankInSorted(Sort(s), PercentileIndex(p, |s|), v);
    CountOfSort(s, v);
  }

  lemma IndexMonotone(p: int, q: int, n: int)
    requires p <= q && n > 0
    ensures PercentileIndex(p, n) <= PercentileIndex(q, n)
  {
    hide RoundHalfAway, RankPoint;
    RankPointMonotone(p, q, n);
    RoundHalfAwayMonotone(RankPoint(p, n), RankPoint(q, n));
  }

  lemma RankPointMonotone(p: int, q: int, n: int)
    requires p <= q && n > 0
    ensures RankPoint(p, n) <= RankPoint(q, n)
  {
    hide Times;
    ScaleMonotone(p as real / 100.0, q as real / 100.0, (n - 1) as real);
  }

  lemma ScaleMonotone(x: real, y: real, k: real)
    requires x <= y && k >= 0.0
    ensures Times(x, k) <= Times(y, k)
  {
  }

  /** Percentiles are ordered. */
  lemma PercentileMonotone(s: seq<real>, p: int, q: int)
    requires s != [] && p <= q
    ensures PercentileOf(s, p) <= PercentileOf(s, q)
  {
    IndexInRange(p, |s|);
    IndexInRange(q, |s|);
    IndexMonotone(p, q, |s|);
  }

  /** The number of samples that pin a p90 is strictly more than a tenth of the
      window, and less than a tenth plus one and a half. */
  lemma NinetyNeedsMoreThanATenth(n: int)
    requires n > 0
    ensures n < 10 * (n - PercentileIndex(90, n)) < n + 15
  {
    var x := RankPoint(90, n);
    assert 10.0 * x == 9.0 * n as real - 9.0;
    assert x - 0.5 <= RoundHalfAway(x) as real <= x + 0.5;
  }

  /** A percentile is one of the samples. */
  lemma PercentileIsASample(s: seq<real>, p: int) returns (i: nat)
    requires s != []
    ensures i < |s| && s[i] == PercentileOf(s, p)
  {
    IndexInRange(p, |s|);
    var r := Sort(s)[PercentileIndex(p, |s|)];
    assert r in multiset(Sort(s));
    assert r in s;
    i :| 0 <= i < |s| && s[i] == r;
  }

  /** Every percentile of a constant window is the constant. */
  lemma PercentileOfConstant(s: seq<real>, p: int, v: real)
    requires s != [] && forall i :: 0 <= i < |s| ==> s[i] == v
    ensures PercentileOf(s, p) == v
  {
    var _ := PercentileIsASample(s, p);
  }
}
