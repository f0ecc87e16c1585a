/**
 * The per-column statistics of the data preview: minimum, maximum and mean
 * for numeric columns; distinct count and most common value for the others;
 * null count and null percentage for every column.
 */
module ColumnProfile {
  import opened Wrappers
  import opened DataFrames

  const NotAvailableLabel := "N/A"
  const TooManyLabel := "Too many to display"

  /** A numeric statistic, or 'N/A'. */
  datatype Stat = NotAvailable | Value(v: real)

  /** The most common value, or 'Too many to display'. */
  datatype MostCommon = TooMany | Common(value: string)

  /** The null percentage before rounding; NaN for a table without rows (numpy's 0/0). */
  datatype Percentage = NotANumber | Percent(p: real)

  /** The statistics of one column, by kind. */
  datatype ColumnStats =
    | NumericStats(name: string, dtype: string, min: Stat, max: Stat, mean: Stat,
                   nullCount: nat, nullPercentage: Percentage)
    | TextStats(name: string, dtype: string, uniqueValues: nat, mostCommon: MostCommon,
                nullCount: nat, nullPercentage: Percentage)

  /** The least element of a non-empty sequence. */
  function MinOf(s: seq<real>): (m: real)
    requires |s| > 0
    ensures m in s
    ensures forall x :: x in s ==> m <= x
  {
    if |s| == 1 then s[0]
    else
      var rest := MinOf(s[1..]);
      assert forall x :: x in s ==> x == s[0] || x in s[1..];
      if s[0] <= rest then s[0] else rest
  }

  /** The greatest element of a non-empty sequence. */
  function MaxOf(s: seq<real>): (m: real)
    requires |s| > 0
    ensures m in s
    ensures forall x :: x in s ==> x <= m
  {
    if |s| == 1 then s[0]
    else
      var rest := MaxOf(s[1..]);
      assert forall x :: x in s ==> x == s[0] || x in s[1..];
      if s[0] >= rest then s[0] else rest
  }

  function Sum(s: seq<real>): real {
    if s == [] then 0.0 else s[0] + Sum(s[1..])
  }

  /** The arithmetic mean (exact; pandas computes it in floating point). It lies between the minimum and the maximum. */
  function Mean(s: seq<real>): (r: real)
    requires |s| > 0
    ensures MinOf(s) <= r <= MaxOf(s)
  {
    SumBounds(s, MinOf(s), MaxOf(s));
    DivBetween(Sum(s), |s| as real, MinOf(s), MaxOf(s));
    Sum(s) / (|s| as real)
  }

  /** A sum of values between `lo` and `hi` lies between `lo` and `hi` times their number. */
  lemma SumBounds(s: seq<real>, lo: real, hi: real)
    requires forall x :: x in s ==> lo <= x <= hi
    ensures lo * (|s| as real) <= Sum(s) <= hi * (|s| as real)
  {
    assert forall i :: 0 <= i < |s| ==> s[i] in s;
    SumBoundsAt(s, lo, hi);
  }

  /** The same, with the bounds given per index. */
  lemma {:induction false} SumBoundsAt(s: seq<real>, lo: real, hi: real)
    requires forall i :: 0 <= i < |s| ==> lo <= s[i] <= hi
    ensures lo * (|s| as real) <= Sum(s) <= hi * (|s| as real)
  {
    if s != [] {
      var t := s[1..];
      assert forall i :: 0 <= i < |t| ==> t[i] == s[i + 1];
      SumBoundsAt(t, lo, hi);
      StepBounds(s[0], Sum(t), lo, hi, (|t| as real));
    }
  }

  /** One more value between `lo` and `hi` moves both bounds by one step. */
  lemma StepBounds(x: real, rest: real, lo: real, hi: real, m: real)
    requires lo <= x <= hi
    requires lo * m <= rest <= hi * m
    ensures lo * (m + 1.0) <= x + rest <= hi * (m + 1.0)
  {
    assert lo * (m + 1.0) == lo * m + lo;
    assert hi * (m + 1.0) == hi * m + hi;
  }

  lemma DivBetween(a: real, n: real, lo: real, hi: real)
    requires n > 0.0
    requires lo * n <= a <= hi * n
    ensures lo <= a / n <= hi
  {
  }

  lemma DivTimes(a: real, n: real)
    requires n > 0.0
    ensures (a / n) * n == a
  {
  }

  /** The mean of values between `lo` and `hi` lies between them too. */
  lemma MeanBetween(s: seq<real>, lo: real, hi: real)
    requires |s| > 0
    requires forall x :: x in s ==> lo <= x <= hi
    ensures lo <= Mean(s) <= hi
  {
    SumBounds(s, lo, hi);
    DivBetween(Sum(s), |s| as real, lo, hi);
  }

  lemma PercentBounds(nulls: nat, n: nat)
    requires nulls <= n && n > 0
    ensures 0.0 <= (nulls as real) / (n as real) * 100.0 <= 100.0
    ensures (nulls as real) / (n as real) * 100.0 == 0.0 <==> nulls == 0
    ensures (nulls as real) / (n as real) * 100.0 == 100.0 <==> nulls == n
  {
    var a, m := nulls as real, n as real;
    DivBetween(a, m, 0.0, 1.0);
    DivExact(a, m, 0.0);
    DivExact(a, m, 1.0);
  }

  /** `a / n` is `q` exactly when `a` is `q * n`. */
  lemma DivExact(a: real, n: real, q: real)
    requires n > 0.0
    ensures a / n == q <==> a == q * n
  {
    DivTimes(a, n);
    if a == q * n {
      assert (a / n - q) * n == 0.0;
    }
  }

  /** A share of `nulls` out of `n`, as a percentage. */
  function PercentOf(nulls: nat, n: nat): (p: real)
    requires nulls <= n && n > 0
    ensures 0.0 <= p <= 100.0
    ensures p == 0.0 <==> nulls == 0
    ensures p == 100.0 <==> nulls == n
  {
    PercentBounds(nulls, n);
    (nulls as real) / (n as real) * 100.0
  }

  /** `round(isna().sum() / len(df) * 100, 2)` without the rounding. */
  function NullPercentage(c: Cells): (r: Percentage)
    ensures r.NotANumber? <==> c.Length() == 0
    ensures r.Percent? ==> 0.0 <= r.p <= 100.0
    ensures r.Percent? ==> (r.p == 0.0 <==> c.NullCount() == 0)
    ensures r.Percent? ==> (r.p == 100.0 <==> c.NullCount() == c.Length())
  {
    if c.Length() == 0 then NotANumber else Percent(PercentOf(c.NullCount(), c.Length()))
  }

  /** The distinct values of `s` (`nunique()` counts them). */
  function Distinct(s: seq<string>): (r: set<string>)
    ensures forall i :: 0 <= i < |s| ==> s[i] in r
    ensures forall x :: x in r ==> x in s
  {
    set x | x in s
  }

  lemma {:induction false} DistinctCard(s: seq<string>)
    ensures |Distinct(s)| <= |s|
    ensures |Distinct(s)| == 0 <==> s == []
  {
    if s != [] {
      DistinctCard(s[1..]);
      assert Distinct(s) == Distinct(s[1..]) + {s[0]};
      assert s[0] in Distinct(s);
    }
  }

  /**
   * Among `candidates`, the first value `vs` holds most often. `value_counts()`
   * sorts by falling count; this picks the first-seen value among equal counts.
   */
  function ArgMaxCount(vs: seq<string>, candidates: seq<string>): (r: string)
    requires |candidates| > 0
    ensures r in candidates
    ensures forall w :: w in candidates ==> CountOf(vs, w) <= CountOf(vs, r)
  {
    if |candidates| == 1 then candidates[0]
    else
      var best := ArgMaxCount(vs, candidates[1..]);
      assert forall w :: w in candidates ==> w == candidates[0] || w in candidates[1..];
      if CountOf(vs, candidates[0]) >= CountOf(vs, best) then candidates[0] else best
  }

  /** `value_counts().index[0]`. */
  function MostFrequent(vs: seq<string>): (r: string)
    requires |vs| > 0
    ensures r in vs
    ensures forall w :: w in vs ==> CountOf(vs, w) <= CountOf(vs, r)
  {
    ArgMaxCount(vs, vs)
  }

  /** Counting a value among the present values counts its cells. */
  lemma {:induction false} CountNonNull(s: seq<Option<string>>, w: string)
    ensures CountOf(NonNull(s), w) == CountOf(s, Some(w))
  {
    if s != [] {
      var init := s[..|s| - 1];
      CountNonNull(init, w);
      var tail := if s[|s| - 1].Some? then [s[|s| - 1].value] else [];
      CountAppend(NonNull(init), tail, w);
    }
  }

  lemma {:induction false} CountAppend(a: seq<string>, b: seq<string>, w: string)
    ensures CountOf(a + b, w) == CountOf(a, w) + CountOf(b, w)
  {
    if b == [] {
      assert a + b == a;
    } else {
      var b' := b[..|b| - 1];
      assert (a + b)[..|a + b| - 1] == a + b';
      assert (a + b)[|a + b| - 1] == b[|b| - 1];
      CountAppend(a, b', w);
    }
  }

  /** The statistics of one column; `len(df)` is the column's length. */
  function StatsOf(c: Column): (r: ColumnStats)
    ensures r.name == c.name && r.dtype == c.dtype
    ensures r.NumericStats? <==> c.cells.Numeric?
    ensures r.nullCount == c.cells.NullCount()
    ensures r.nullPercentage == NullPercentage(c.cells)
  {
    match c.cells
    case Numeric(nums) =>
      var vals := NonNull(nums);
      AllNullIff(nums);
      NumericStats(c.name, c.dtype,
        if AllNull(nums) then NotAvailable else Value(MinOf(vals)),
        if AllNull(nums) then NotAvailable else Value(MaxOf(vals)),
        if AllNull(nums) then NotAvailable else Value(Mean(vals)),
        c.cells.NullCount(), NullPercentage(c.cells))
    case NonNumeric(texts) =>
      var vals := NonNull(texts);
      var unique := |Distinct(vals)|;
      DistinctCard(vals);
      TextStats(c.name, c.dtype, unique,
        if unique > 0 && unique as real < (|texts| as real) / 2.0 then Common(MostFrequent(vals)) else TooMany,
        c.cells.NullCount(), NullPercentage(c.cells))
  }

  /**
   * A numeric column's minimum, maximum and mean are 'N/A' exactly when every
   * cell is missing; otherwise they are the least, greatest and mean present
   * value, and the mean lies between the other two.
   */
  lemma NumericStatsSound(c: Column)
    requires c.cells.Numeric?
    ensures var r := StatsOf(c);
      var vals := NonNull(c.cells.nums);
      && (r.min.NotAvailable? <==> AllNull(c.cells.nums))
      && (r.max.NotAvailable? <==> AllNull(c.cells.nums))
      && (r.mean.NotAvailable? <==> AllNull(c.cells.nums))
      && (r.min.Value? ==>
           && r.min.v in vals && (forall x :: x in vals ==> r.min.v <= x)
           && r.max.v in vals && (forall x :: x in vals ==> x <= r.max.v)
           && r.mean.v == Mean(vals)
           && r.min.v <= r.mean.v <= r.max.v)
  {
    var r := StatsOf(c);
    var vals := NonNull(c.cells.nums);
    AllNullIff(c.cells.nums);
    if AllNull(c.cells.nums) {
      assert r.min == NotAvailable && r.max == NotAvailable && r.mean == NotAvailable;
    } else {
      assert r.min == Value(MinOf(vals)) && r.max == Value(MaxOf(vals)) && r.mean == Value(Mean(vals));
    }
  }

  /** The present values of a column are the values of its non-missing cells. */
  lemma PresentValues(s: seq<Option<string>>, w: string)
    ensures w in NonNull(s) <==> Some(w) in s
  {
    CountNonNull(s, w);
  }

  /**
   * A text column's distinct count is the number of different present values,
   * at most the number of non-missing cells and zero exactly when all are
   * missing. The most common value is reported exactly when
   * `0 < unique_values < n / 2`; it is then a value of the column that no
   * other value outnumbers.
   */
  lemma TextStatsSound(c: Column)
    requires c.cells.NonNumeric?
    ensures var r := StatsOf(c);
      var texts := c.cells.texts;
      && r.uniqueValues == |Distinct(NonNull(texts))|
      && (forall w :: w in Distinct(NonNull(texts)) <==> Some(w) in texts)
      && r.uniqueValues <= |texts| - r.nullCount
      && (r.uniqueValues == 0 <==> AllNull(texts))
      && (r.mostCommon.Common? <==> 0 < r.uniqueValues && 2 * r.uniqueValues < |texts|)
      && (r.mostCommon.Common? ==>
           && Some(r.mostCommon.value) in texts
           && forall w :: CountOf(texts, Some(w)) <= CountOf(texts, Some(r.mostCommon.value)))
  {
    var texts := c.cells.texts;
    var vals := NonNull(texts);
    DistinctCard(vals);
    AllNullIff(texts);
    forall w ensures w in Distinct(vals) <==> Some(w) in texts {
      PresentValues(texts, w);
    }
    var r := StatsOf(c);
    if r.mostCommon.Common? {
      var m := r.mostCommon.value;
      assert m == MostFrequent(vals);
      PresentValues(texts, m);
      forall w ensures CountOf(texts, Some(w)) <= CountOf(texts, Some(m)) {
        CountNonNull(texts, w);
        CountNonNull(texts, m);
      }
    }
  }

  /**
   * Every column's null count is its number of missing cells; its null
   * percentage is NaN for a table without rows and otherwise lies in
   * [0, 100], being 0 exactly without missing cells and 100 exactly when all
   * are missing.
   */
  lemma NullStatsSound(c: Column)
    ensures var r := StatsOf(c);
      && r.nullCount <= c.cells.Length()
      && (c.cells.Numeric? ==> r.nullCount == CountOf(c.cells.nums, None))
      && (c.cells.NonNumeric? ==> r.nullCount == CountOf(c.cells.texts, None))
      && (r.nullPercentage.NotANumber? <==> c.cells.Length() == 0)
      && (r.nullPercentage.Percent? ==>
           && 0.0 <= r.nullPercentage.p <= 100.0
           && (r.nullPercentage.p == 0.0 <==> r.nullCount == 0)
           && (r.nullPercentage.p == 100.0 <==> r.nullCount == c.cells.Length()))
  {
    var r := StatsOf(c);
  }
}
