/** `calculate_stats`: the mean and the sample variance of a series of scores,
    in exact arithmetic. The reported standard deviation is the square root of
    `variance`. */
module Stats {
  import opened Wrappers

  datatype Summary = Summary(mean: real, variance: real)

  function Sum(xs: seq<int>): int {
    if |xs| == 0 then 0 else xs[0] + Sum(xs[1..])
  }

  /** The squared distance of `x` from `m`. */
  function Deviation(x: int, m: real): (r: real)
    ensures r >= 0.0
  {
    (x as real - m) * (x as real - m)
  }

  /** The sum of squared distances of the values from `m`. */
  function SquaredDeviations(xs: seq<int>, m: real): (r: real)
    ensures r >= 0.0
  {
    if |xs| == 0 then 0.0 else Deviation(xs[0], m) + SquaredDeviations(xs[1..], m)
  }

  /** `calculate_stats(values)`: nothing for an empty series; otherwise the
      mean, and the unbiased sample variance, taken as 0 for one value. */
  function CalculateStats(xs: seq<int>): (r: Option<Summary>)
    ensures r.None? <==> |xs| == 0
    ensures r.Some? ==> r.value.mean * |xs| as real == Sum(xs) as real
    ensures r.Some? ==> r.value.variance >= 0.0
    ensures |xs| == 1 ==> r == Some(Summary(xs[0] as real, 0.0))
    ensures |xs| > 1 ==> r.value.variance * (|xs| - 1) as real == SquaredDeviations(xs, r.value.mean)
  {
    if |xs| == 0 then None
    else
      var n := |xs| as real;
      var mean := Sum(xs) as real / n;
      var variance := if |xs| > 1 then SquaredDeviations(xs, mean) / (n - 1.0) else 0.0;
      Some(Summary(mean, variance))
  }

  lemma {:induction false} SumAppend(a: seq<int>, b: seq<int>)
    ensures Sum(a + b) == Sum(a) + Sum(b)
    decreases |a|
  {
    if |a| == 0 {
      assert a + b == b;
    } else {
      assert (a + b)[1..] == a[1..] + b;
      SumAppend(a[1..], b);
    }
  }

  lemma {:induction false} SquaredDeviationsAppend(a: seq<int>, b: seq<int>, m: real)
    ensures SquaredDeviations(a + b, m) == SquaredDeviations(a, m) + SquaredDeviations(b, m)
    decreases |a|
  {
    if |a| == 0 {
      assert a + b == b;
    } else {
      assert (a + b)[1..] == a[1..] + b;
      SquaredDeviationsAppend(a[1..], b, m);
    }
  }

  /** The statistics do not depend on the order in which series are joined,
      hence not on the order in which files are processed. */
  lemma StatsOrderInvariant(a: seq<int>, b: seq<int>)
    ensures CalculateStats(a + b) == CalculateStats(b + a)
  {
    StatsPermutationInvariant(a + b, b + a);
  }

  /** The series without its entry at `i`. */
  function Without(b: seq<int>, i: nat): (r: seq<int>)
    requires i < |b|
    ensures multiset(r) == multiset(b) - multiset{b[i]}
  {
    assert b == b[..i] + [b[i]] + b[i + 1..];
    b[..i] + b[i + 1..]
  }

  /** An entry of `b` whose value occurs first in `a`, when they hold the
      same values. */
  lemma FindFirst(a: seq<int>, b: seq<int>) returns (i: nat)
    requires |a| > 0 && multiset(a) == multiset(b)
    ensures i < |b| && b[i] == a[0]
    ensures multiset(Without(b, i)) == multiset(a[1..])
  {
    assert a == [a[0]] + a[1..];
    assert a[0] in multiset(b);
    i :| 0 <= i < |b| && b[i] == a[0];
  }

  lemma SumWithout(b: seq<int>, i: nat)
    requires i < |b|
    ensures Sum(b) == b[i] + Sum(Without(b, i))
  {
    var front, x, back := b[..i], b[i], b[i + 1..];
    Split(b, i);
    SumSplit(front, x, back);
  }

  /** A series is its part before `i`, its entry at `i` and the rest. */
  lemma Split(b: seq<int>, i: nat)
    requires i < |b|
    ensures b == b[..i] + ([b[i]] + b[i + 1..])
    ensures Without(b, i) == b[..i] + b[i + 1..]
  {
    assert b[i..] == [b[i]] + b[i + 1..];
    assert b == b[..i] + b[i..];
  }

  lemma SumSplit(front: seq<int>, x: int, back: seq<int>)
    ensures Sum(front + ([x] + back)) == x + Sum(front + back)
  {
    SumAppend(front, [x] + back);
    assert ([x] + back)[1..] == back;
    SumAppend(front, back);
  }

  lemma SquaredDeviationsWithout(b: seq<int>, i: nat, m: real)
    requires i < |b|
    ensures SquaredDeviations(b, m) == Deviation(b[i], m) + SquaredDeviations(Without(b, i), m)
  {
    var front, x, back := b[..i], b[i], b[i + 1..];
    Split(b, i);
    SquaredDeviationsSplit(front, x, back, m);
  }

  lemma SquaredDeviationsSplit(front: seq<int>, x: int, back: seq<int>, m: real)
    ensures SquaredDeviations(front + ([x] + back), m)
            == Deviation(x, m) + SquaredDeviations(front + back, m)
  {
    SquaredDeviationsAppend(front, [x] + back, m);
    assert ([x] + back)[1..] == back;
    SquaredDeviationsAppend(front, back, m);
  }

  /** Series holding the same values have the same sum. */
  lemma {:induction false} SumPermutation(a: seq<int>, b: seq<int>)
    requires multiset(a) == multiset(b)
    ensures Sum(a) == Sum(b)
    decreases |a|
  {
    if |a| > 0 {
      var i := FindFirst(a, b);
      SumPermutation(a[1..], Without(b, i));
      SumWithout(b, i);
    } else {
      assert |multiset(b)| == 0;
    }
  }

  /** Series holding the same values have the same squared deviations. */
  lemma {:induction false} SquaredDeviationsPermutation(a: seq<int>, b: seq<int>, m: real)
    requires multiset(a) == multiset(b)
    ensures SquaredDeviations(a, m) == SquaredDeviations(b, m)
    decreases |a|
  {
    if |a| > 0 {
      var i := FindFirst(a, b);
      SquaredDeviationsPermutation(a[1..], Without(b, i), m);
      SquaredDeviationsWithout(b, i, m);
    } else {
      assert |multiset(b)| == 0;
    }
  }

  /** The statistics depend only on the values of the series, not on their
      order: any reordering, in particular any order in which the files'
      series are joined, gives the same mean and variance. */
  lemma StatsPermutationInvariant(a: seq<int>, b: seq<int>)
    requires multiset(a) == multiset(b)
    ensures CalculateStats(a) == CalculateStats(b)
  {
    assert |a| == |multiset(a)| == |multiset(b)| == |b|;
    SumPermutation(a, b);
    if |a| > 0 {
      SquaredDeviationsPermutation(a, b, Sum(a) as real / |a| as real);
    }
  }

  lemma {:induction false} SumBounds(xs: seq<int>, lo: int, hi: int)
    requires forall i :: 0 <= i < |xs| ==> lo <= xs[i] <= hi
    ensures lo * |xs| <= Sum(xs) <= hi * |xs|
    decreases |xs|
  {
    if |xs| > 0 {
      SumBounds(xs[1..], lo, hi);
    }
  }

  /** The mean of values in `[lo, hi]` lies in `[lo, hi]`; for scores, in
      [1,5]. */
  lemma MeanWithinBounds(xs: seq<int>, lo: int, hi: int)
    requires |xs| > 0
    requires forall i :: 0 <= i < |xs| ==> lo <= xs[i] <= hi
    ensures lo as real <= CalculateStats(xs).value.mean <= hi as real
  {
    MeanOfBoundedValues(CalculateStats(xs).value.mean, xs, lo, hi);
  }

  /** Any `mean` with `mean * |xs| == Sum(xs)` lies between the bounds of
      the values. */
  lemma MeanOfBoundedValues(mean: real, xs: seq<int>, lo: int, hi: int)
    requires |xs| > 0
    requires forall i :: 0 <= i < |xs| ==> lo <= xs[i] <= hi
    requires mean * |xs| as real == Sum(xs) as real
    ensures lo as real <= mean <= hi as real
  {
    var n, total := |xs|, Sum(xs);
    assert lo * n <= total <= hi * n by {
      SumBounds(xs, lo, hi);
    }
    BoundsToReal(lo, hi, n, total);
    MeanBetween(mean, n as real, total as real, lo as real, hi as real);
  }

  lemma BoundsToReal(lo: int, hi: int, n: int, total: int)
    requires lo * n <= total <= hi * n
    ensures lo as real * n as real <= total as real <= hi as real * n as real
  {
    ScaleToReal(lo, n);
    ScaleToReal(hi, n);
  }

  lemma ScaleToReal(a: int, n: int)
    ensures (a * n) as real == a as real * n as real
  {
  }

  lemma MeanBetween(mean: real, n: real, total: real, lo: real, hi: real)
    requires n > 0.0 && mean * n == total && lo * n <= total <= hi * n
    ensures lo <= mean <= hi
  {
  }

  lemma {:induction false} ConstantSum(k: int, n: nat)
    ensures Sum(seq(n, _ => k)) == n * k
  {
    if n > 0 {
      assert seq(n, _ => k)[1..] == seq(n - 1, _ => k);
      ConstantSum(k, n - 1);
    }
  }

  lemma {:induction false} ConstantDeviations(k: int, n: nat)
    ensures SquaredDeviations(seq(n, _ => k), k as real) == 0.0
  {
    if n > 0 {
      assert seq(n, _ => k)[1..] == seq(n - 1, _ => k);
      ConstantDeviations(k, n - 1);
    }
  }

  /** A constant series `[k, ..., k]` has mean `k` and variance 0. */
  lemma ConstantSeries(k: int, n: nat)
    requires n > 0
    ensures CalculateStats(seq(n, _ => k)) == Some(Summary(k as real, 0.0))
  {
    ConstantSum(k, n);
    ConstantDeviations(k, n);
    var s := CalculateStats(seq(n, _ => k)).value;
    assert s.mean * n as real == (n * k) as real;
    assert s.mean == k as real;
  }

  /** Three effectiveness answers scored 5, 3, 5: mean 13/3, variance 4/3
      (standard deviation about 1.15). */
  lemma ExampleThreeScores()
    ensures CalculateStats([5, 3, 5]) == Some(Summary(13.0 / 3.0, 4.0 / 3.0))
  {
    assert Sum([5, 3, 5]) == 13 by {
      assert [5, 3, 5][1..] == [3, 5];
      assert [3, 5][1..] == [5];
    }
    var m := 13.0 / 3.0;
    assert SquaredDeviations([5, 3, 5], m) == 8.0 / 3.0 by {
      assert [5, 3, 5][1..] == [3, 5];
      assert [3, 5][1..] == [5];
      assert [5][1..] == [];
    }
  }
}
