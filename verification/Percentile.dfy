/** Type-7 linear percentiles of the benchmark's successful samples, over the reals. */
module Percentile {
  import opened Options

  datatype Sample = Finite(value: real) | NotFinite

  function FiniteValues(samples: seq<Sample>): seq<real> {
    if samples == [] then []
    else (if samples[0].Finite? then [samples[0].value] else []) + FiniteValues(samples[1..])
  }

  // ---------------------------------------------------------------- sorting

  function Insert(x: real, ordered: seq<real>): seq<real> {
    if ordered == [] || x <= ordered[0] then [x] + ordered else [ordered[0]] + Insert(x, ordered[1..])
  }

  function Sort(values: seq<real>): seq<real> {
    if values == [] then [] else Insert(values[0], Sort(values[1..]))
  }

  ghost predicate Ordered(s: seq<real>) {
    forall i, j :: 0 <= i < j < |s| ==> s[i] <= s[j]
  }

  lemma {:induction false} InsertAdds(x: real, ordered: seq<real>)
    ensures multiset(Insert(x, ordered)) == multiset(ordered) + multiset{x}
  {
    if ordered != [] && x > ordered[0] {
      InsertAdds(x, ordered[1..]);
      assert ordered == [ordered[0]] + ordered[1..];
    }
  }

  lemma {:induction false} InsertKeepsOrder(x: real, ordered: seq<real>)
    requires Ordered(ordered)
    ensures Ordered(Insert(x, ordered))
  {
    if ordered != [] && x > ordered[0] {
      var rest := ordered[1..];
      var inserted := Insert(x, rest);
      InsertKeepsOrder(x, rest);
      InsertAdds(x, rest);
      forall i | 0 <= i < |inserted|
        ensures ordered[0] <= inserted[i]
      {
        assert inserted[i] in multiset(inserted);
        assert inserted[i] == x || inserted[i] in rest;
      }
    }
  }

  lemma {:induction false} SortSorts(values: seq<real>)
    ensures Ordered(Sort(values)) && multiset(Sort(values)) == multiset(values) && |Sort(values)| == |values|
  {
    if values != [] {
      SortSorts(values[1..]);
      InsertKeepsOrder(values[0], Sort(values[1..]));
      InsertAdds(values[0], Sort(values[1..]));
      assert values == [values[0]] + values[1..];
      assert |multiset(Sort(values))| == |Sort(values)| && |multiset(values)| == |values|;
    }
  }

  lemma FirstIsLeast(s: seq<real>, v: real)
    requires Ordered(s) && v in multiset(s)
    ensures s != [] && s[0] <= v
  {
    var i :| 0 <= i < |s| && s[i] == v;
  }

  /** There is one ordered arrangement of a collection. */
  lemma {:induction false} OrderedUnique(a: seq<real>, b: seq<real>)
    requires Ordered(a) && Ordered(b) && multiset(a) == multiset(b)
    ensures a == b
  {
    hide Ordered;
    EmptyTogether(a, b);
    if a != [] {
      FirstIn(a);
      FirstIn(b);
      FirstIsLeast(a, b[0]);
      FirstIsLeast(b, a[0]);
      TailOrdered(a);
      TailOrdered(b);
      OrderedUnique(a[1..], b[1..]);
      SameHeadAndTail(a, b);
    }
  }

  lemma SameHeadAndTail(a: seq<real>, b: seq<real>)
    requires a != [] && b != [] && a[0] == b[0] && a[1..] == b[1..]
    ensures a == b
  {
    assert a == [a[0]] + a[1..] && b == [b[0]] + b[1..];
  }

  lemma FirstIn(s: seq<real>)
    requires s != []
    ensures s[0] in multiset(s)
  {
  }

  lemma EmptyTogether(a: seq<real>, b: seq<real>)
    requires multiset(a) == multiset(b)
    ensures a == [] <==> b == []
  {
    if a != [] { assert a[0] in multiset(a); }
    if b != [] { assert b[0] in multiset(b); }
  }

  lemma TailOrdered(s: seq<real>)
    requires Ordered(s) && s != []
    ensures Ordered(s[1..]) && multiset(s[1..]) == multiset(s) - multiset{s[0]}
  {
    assert s == [s[0]] + s[1..];
  }

  // ---------------------------------------------------------------- interpolation

  function Ceiling(x: real): int {
    -((-x).Floor)
  }

  function Mixed(a: real, b: real, fraction: real): real {
    a * (1.0 - fraction) + b * fraction
  }

  /** The value at a fractional position of an ordered list. */
  function At(ordered: seq<real>, position: real): real
    requires ordered != [] && 0.0 <= position <= (|ordered| - 1) as real
  {
    var lower, upper := position.Floor, Ceiling(position);
    if lower == upper then ordered[lower]
    else Mixed(ordered[lower], ordered[upper], position - lower as real)
  }

  function Position(count: nat, percent: real): (position: real)
    requires count > 0 && 0.0 <= percent <= 100.0
    ensures 0.0 <= position <= (count - 1) as real
  {
    PositionInRange((count - 1) as real, percent);
    (count - 1) as real * percent / 100.0
  }

  lemma PositionInRange(last: real, percent: real)
    requires last >= 0.0 && 0.0 <= percent <= 100.0
    ensures 0.0 <= last * percent / 100.0 <= last
  {
    SlopeOrder(last, 0.0, percent);
    SlopeOrder(last, percent, 100.0);
    Hundredths(0.0, last * percent);
    Hundredths(last * percent, last * 100.0);
  }

  lemma PositionMonotone(count: nat, low: real, high: real)
    requires count > 0 && 0.0 <= low <= high <= 100.0
    ensures Position(count, low) <= Position(count, high)
  {
    var last := (count - 1) as real;
    SlopeOrder(last, low, high);
    Hundredths(last * low, last * high);
  }

  lemma Hundredths(a: real, b: real)
    requires a <= b
    ensures a / 100.0 <= b / 100.0
  {
  }

  function PercentileOf(samples: seq<Sample>, percent: real): Option<real>
    requires 0.0 <= percent <= 100.0
  {
    var ordered := Sort(FiniteValues(samples));
    if ordered == [] then None
    else if |ordered| == 1 then Some(ordered[0])
    else Some(At(ordered, Position(|ordered|, percent)))
  }

  /** At and between two neighbours the value is their mixture, so it lies between them. */
  lemma Segment(ordered: seq<real>, position: real)
    requires Ordered(ordered) && ordered != [] && 0.0 <= position <= (|ordered| - 1) as real
    ensures var lower := position.Floor;
            0 <= lower < |ordered| && ordered[lower] <= At(ordered, position) &&
            (lower + 1 < |ordered| ==>
              At(ordered, position) == Mixed(ordered[lower], ordered[lower + 1], position - lower as real) &&
              At(ordered, position) <= ordered[lower + 1]) &&
            (lower + 1 == |ordered| ==> At(ordered, position) == ordered[lower])
  {
    hide Mixed;
    var lower, upper := position.Floor, Ceiling(position);
    var fraction := position - lower as real;
    assert upper == (if fraction == 0.0 then lower else lower + 1);
    if lower + 1 < |ordered| { MixedBetween(ordered[lower], ordered[lower + 1], fraction); }
  }

  lemma MixedBetween(a: real, b: real, fraction: real)
    requires a <= b && 0.0 <= fraction <= 1.0
    ensures a <= Mixed(a, b, fraction) <= b
    ensures fraction == 0.0 ==> Mixed(a, b, fraction) == a
  {
    ProductSign(b - a, fraction);
    ProductSign(b - a, 1.0 - fraction);
  }

  lemma MixedMonotone(a: real, b: real, low: real, high: real)
    requires a <= b && low <= high
    ensures Mixed(a, b, low) <= Mixed(a, b, high)
  {
    ProductSign(b - a, high - low);
  }

  lemma ProductSign(x: real, y: real)
    requires x >= 0.0 && y >= 0.0
    ensures x * y >= 0.0
  {
  }

  lemma SlopeOrder(slope: real, x: real, y: real)
    requires slope >= 0.0 && x <= y
    ensures slope * x <= slope * y
  {
    ProductSign(slope, y - x);
  }

  lemma AtMonotone(ordered: seq<real>, low: real, high: real)
    requires Ordered(ordered) && ordered != [] && 0.0 <= low <= high <= (|ordered| - 1) as real
    ensures At(ordered, low) <= At(ordered, high)
  {
    hide At, Mixed;
    Segment(ordered, low);
    Segment(ordered, high);
    var l, h := low.Floor, high.Floor;
    if l == h {
      if l + 1 < |ordered| { MixedMonotone(ordered[l], ordered[l + 1], low - l as real, high - l as real); }
    } else {
      assert l + 1 <= h;
      assert ordered[l + 1] <= ordered[h];
    }
  }

  // ---------------------------------------------------------------- what callers rely on

  /** The order of the samples, and samples that are not finite, do not matter. */
  lemma PercentileIgnoresOrder(a: seq<Sample>, b: seq<Sample>, percent: real)
    requires 0.0 <= percent <= 100.0 && multiset(FiniteValues(a)) == multiset(FiniteValues(b))
    ensures PercentileOf(a, percent) == PercentileOf(b, percent)
  {
    SortSorts(FiniteValues(a));
    SortSorts(FiniteValues(b));
    OrderedUnique(Sort(FiniteValues(a)), Sort(FiniteValues(b)));
  }

  /** A percentile exists exactly when there is a finite sample. */
  lemma PercentileExists(samples: seq<Sample>, percent: real)
    requires 0.0 <= percent <= 100.0
    ensures PercentileOf(samples, percent) == None <==> FiniteValues(samples) == []
  {
    SortSorts(FiniteValues(samples));
  }

  /**
   The percentile is the type-7 one: with n finite samples the k-th smallest, counted from 0, stands at
   100k/(n-1) percent, and between two of them the value moves linearly.
   */
  lemma PercentileInterpolates(samples: seq<Sample>, percent: real, k: nat, fraction: real)
    requires 0.0 <= percent <= 100.0 && 0.0 <= fraction <= 1.0 && k + 1 < |FiniteValues(samples)|
    requires (|FiniteValues(samples)| - 1) as real * percent == 100.0 * (k as real + fraction)
    ensures var ordered := Sort(FiniteValues(samples));
            Ordered(ordered) && multiset(ordered) == multiset(FiniteValues(samples)) && k + 1 < |ordered| &&
            PercentileOf(samples, percent) == Some(Mixed(ordered[k], ordered[k + 1], fraction))
  {
    hide At, Sort, FiniteValues, Ordered, Position, Mixed;
    var ordered := Sort(FiniteValues(samples));
    SortSorts(FiniteValues(samples));
    PositionAt(|ordered|, percent, k as real + fraction);
    AtFraction(ordered, k, fraction);
  }

  lemma PositionAt(count: nat, percent: real, rank: real)
    requires count > 0 && 0.0 <= percent <= 100.0 && (count - 1) as real * percent == 100.0 * rank
    ensures Position(count, percent) == rank
  {
  }

  lemma AtFraction(ordered: seq<real>, k: nat, fraction: real)
    requires k + 1 < |ordered| && 0.0 <= fraction <= 1.0
    ensures At(ordered, k as real + fraction) == Mixed(ordered[k], ordered[k + 1], fraction)
  {
    var position := k as real + fraction;
    if fraction == 1.0 {
      assert position == (k + 1) as real && position.Floor == k + 1 && Ceiling(position) == k + 1;
    } else if fraction == 0.0 {
      assert position.Floor == k && Ceiling(position) == k;
    } else {
      assert position.Floor == k && Ceiling(position) == k + 1;
      assert position - k as real == fraction;
    }
  }

  ghost predicate IsLeast(values: seq<real>, least: real) {
    least in values && forall v :: v in values ==> least <= v
  }

  ghost predicate IsGreatest(values: seq<real>, greatest: real) {
    greatest in values && forall v :: v in values ==> v <= greatest
  }

  lemma Extremes(values: seq<real>)
    requires values != []
    ensures var ordered := Sort(values);
            ordered != [] && IsLeast(values, ordered[0]) && IsGreatest(values, ordered[|ordered| - 1])
  {
    SortSorts(values);
    var ordered := Sort(values);
    var last := |ordered| - 1;
    forall v
      ensures v in values <==> v in ordered
    {
      assert v in values <==> v in multiset(values);
      assert v in ordered <==> v in multiset(ordered);
    }
    assert ordered[0] in ordered && ordered[last] in ordered;
    forall v | v in ordered
      ensures ordered[0] <= v <= ordered[last]
    {
      var i :| 0 <= i < |ordered| && ordered[i] == v;
    }
  }

  /** The percentile lies between the least and the greatest sample, and reaches them at 0 and 100. */
  lemma PercentileBetweenExtremes(samples: seq<Sample>, percent: real, least: real, greatest: real)
    requires 0.0 <= percent <= 100.0
    requires IsLeast(FiniteValues(samples), least) && IsGreatest(FiniteValues(samples), greatest)
    ensures PercentileOf(samples, percent).Some? && least <= PercentileOf(samples, percent).value <= greatest
    ensures PercentileOf(samples, 0.0) == Some(least) && PercentileOf(samples, 100.0) == Some(greatest)
  {
    hide At, IsLeast, IsGreatest;
    var values := FiniteValues(samples);
    var ordered := Sort(values);
    assert values != [] by { LeastIsSample(values, least); }
    SortSorts(values);
    Extremes(values);
    LeastUnique(values, least, ordered[0]);
    GreatestUnique(values, greatest, ordered[|ordered| - 1]);
    var last := (|ordered| - 1) as real;
    AtEnds(ordered);
    if |ordered| > 1 {
      AtMonotone(ordered, 0.0, Position(|ordered|, percent));
      AtMonotone(ordered, Position(|ordered|, percent), last);
      assert Position(|ordered|, 0.0) == 0.0 && Position(|ordered|, 100.0) == last;
    }
  }

  lemma LeastIsSample(values: seq<real>, least: real)
    requires IsLeast(values, least)
    ensures values != []
  {
  }

  lemma LeastUnique(values: seq<real>, a: real, b: real)
    requires IsLeast(values, a) && IsLeast(values, b)
    ensures a == b
  {
  }

  lemma GreatestUnique(values: seq<real>, a: real, b: real)
    requires IsGreatest(values, a) && IsGreatest(values, b)
    ensures a == b
  {
  }

  lemma AtEnds(ordered: seq<real>)
    requires ordered != []
    ensures At(ordered, 0.0) == ordered[0] && At(ordered, (|ordered| - 1) as real) == ordered[|ordered| - 1]
  {
  }

  /** A higher percent never gives a lower percentile. */
  lemma PercentileMonotone(samples: seq<Sample>, low: real, high: real)
    requires 0.0 <= low <= high <= 100.0 && FiniteValues(samples) != []
    ensures PercentileOf(samples, low).Some? && PercentileOf(samples, high).Some?
    ensures PercentileOf(samples, low).value <= PercentileOf(samples, high).value
  {
    hide At;
    var ordered := Sort(FiniteValues(samples));
    SortSorts(FiniteValues(samples));
    if |ordered| > 1 {
      PositionMonotone(|ordered|, low, high);
      AtMonotone(ordered, Position(|ordered|, low), Position(|ordered|, high));
    }
  }
}
