/** What a distribution means, on the list of its bucket counts: totals, the expected duration, the
    chance that a duration is exceeded, quantiles and shifts, and the laws between them. */
module DistributionLaws {
  import opened DurationTable

  type Timings = seq<real>

  ghost predicate NonNegative(ts: Timings) {
    forall i :: 0 <= i < |ts| ==> ts[i] >= 0.0
  }

  // Products and quotients of reals under names of their own, so that proofs can keep them closed.

  function Times(x: real, y: real): real {
    x * y
  }

  function Ratio(x: real, y: real): real
    requires y != 0.0
  {
    x / y
  }

  /** The sum of the first n counts. */
  function SumTo(ts: Timings, n: nat): real
    requires n <= |ts|
  {
    if n == 0 then 0.0 else SumTo(ts, n - 1) + ts[n - 1]
  }

  function Sum(ts: Timings): real {
    SumTo(ts, |ts|)
  }

  /** The sum of the first n counts, each weighted with the start of its bucket. */
  function WeightedTo(step: nat, ts: Timings, n: nat): real
    requires n <= |ts|
  {
    if n == 0 then 0.0 else WeightedTo(step, ts, n - 1) + Times(ts[n - 1], Start(step, n - 1) as real)
  }

  function Weighted(step: nat, ts: Timings): real {
    WeightedTo(step, ts, |ts|)
  }

  lemma {:induction false} SumNonNegative(ts: Timings, n: nat)
    requires NonNegative(ts) && n <= |ts|
    ensures SumTo(ts, n) >= 0.0
    ensures forall i :: 0 <= i < n ==> SumTo(ts, n) >= ts[i]
  {
    if n > 0 {
      SumNonNegative(ts, n - 1);
    }
  }

  lemma {:induction false} WeightedNonNegative(step: nat, ts: Timings, n: nat)
    requires NonNegative(ts) && n <= |ts|
    ensures WeightedTo(step, ts, n) >= 0.0
    ensures forall i :: 0 <= i < n ==> WeightedTo(step, ts, n) >= Times(ts[i], Start(step, i) as real)
  {
    hide Times, Start;
    if n > 0 {
      WeightedNonNegative(step, ts, n - 1);
      TimesNonNegative(ts[n - 1], Start(step, n - 1) as real);
    }
  }

  lemma TimesNonNegative(x: real, y: real)
    requires x >= 0.0 && y >= 0.0
    ensures Times(x, y) >= 0.0
  {
  }

  lemma {:induction false} SumMono(ts: Timings, m: nat, n: nat)
    requires NonNegative(ts) && m <= n <= |ts|
    ensures SumTo(ts, m) <= SumTo(ts, n)
  {
    if m < n {
      SumMono(ts, m, n - 1);
    }
  }

  /** Replacing one count changes the sums by the difference. */
  lemma {:induction false} SumUpdate(ts: Timings, i: nat, x: real, n: nat)
    requires i < |ts| && n <= |ts|
    ensures SumTo(ts[i := x], n) == SumTo(ts, n) + if i < n then x - ts[i] else 0.0
  {
    if n > 0 {
      SumUpdate(ts, i, x, n - 1);
    }
  }

  lemma {:induction false} WeightedUpdate(step: nat, ts: Timings, i: nat, x: real, n: nat)
    requires i < |ts| && n <= |ts|
    ensures WeightedTo(step, ts[i := x], n)
            == WeightedTo(step, ts, n)
               + if i < n then Times(x, Start(step, i) as real) - Times(ts[i], Start(step, i) as real) else 0.0
  {
    hide Times, Start;
    if n > 0 {
      WeightedUpdate(step, ts, i, x, n - 1);
    }
  }

  // ----- Decay -----------------------------------------------------------------------------

  function Scale(ts: Timings, d: real): (r: Timings)
    ensures |r| == |ts| && forall i :: 0 <= i < |ts| ==> r[i] == Times(ts[i], d)
  {
    seq(|ts|, i requires 0 <= i < |ts| => Times(ts[i], d))
  }

  lemma TimesDistributes(a: real, b: real, d: real)
    ensures Times(a + b, d) == Times(a, d) + Times(b, d)
    ensures Times(0.0, d) == 0.0
  {
  }

  lemma TimesSwap(a: real, d: real, s: real)
    ensures Times(Times(a, d), s) == Times(Times(a, s), d) == Times(a, Times(d, s))
  {
  }

  lemma {:induction false} SumScale(ts: Timings, d: real, n: nat)
    requires n <= |ts|
    ensures SumTo(Scale(ts, d), n) == Times(SumTo(ts, n), d)
  {
    hide Times;
    TimesDistributes(0.0, 0.0, d);
    if n > 0 {
      SumScale(ts, d, n - 1);
      TimesDistributes(SumTo(ts, n - 1), ts[n - 1], d);
    }
  }

  lemma {:induction false} WeightedScale(step: nat, ts: Timings, d: real, n: nat)
    requires n <= |ts|
    ensures WeightedTo(step, Scale(ts, d), n) == Times(WeightedTo(step, ts, n), d)
  {
    hide Times, Start;
    TimesDistributes(0.0, 0.0, d);
    if n > 0 {
      WeightedScale(step, ts, d, n - 1);
      var s := Start(step, n - 1) as real;
      TimesSwap(ts[n - 1], d, s);
      TimesDistributes(WeightedTo(step, ts, n - 1), Times(ts[n - 1], s), d);
    }
  }

  lemma RatioScale(a: real, b: real, d: real)
    requires b != 0.0 && d != 0.0
    ensures Times(b, d) != 0.0 && Ratio(Times(a, d), Times(b, d)) == Ratio(a, b)
  {
    var q := a / b;
    assert a == q * b;
    assert a * d == q * (b * d);
  }

  lemma TimesZero(b: real, d: real)
    requires d != 0.0
    ensures Times(b, d) == 0.0 <==> b == 0.0
  {
  }

  // ----- Expected duration -----------------------------------------------------------------

  /** The mean of the bucket starts; without data the start of the last bucket. */
  function Expected(step: nat, ts: Timings): int
    requires |ts| > 0
  {
    if Sum(ts) == 0.0 then Start(step, |ts| - 1) else Ratio(Weighted(step, ts), Sum(ts)).Floor
  }

  /** Decay does not change the expected duration. */
  lemma ExpectedScale(step: nat, ts: Timings, d: real)
    requires |ts| > 0 && d > 0.0
    ensures Expected(step, Scale(ts, d)) == Expected(step, ts)
  {
    hide Times, Ratio, Start;
    SumScale(ts, d, |ts|);
    WeightedScale(step, ts, d, |ts|);
    TimesZero(Sum(ts), d);
    if Sum(ts) != 0.0 {
      RatioScale(Weighted(step, ts), Sum(ts), d);
    }
  }

  lemma RatioFloor(x: real, y: real)
    requires y > 0.0
    ensures var e := Ratio(x, y).Floor; Times(e as real, y) <= x < Times((e + 1) as real, y)
  {
    var q := x / y;
    assert x == q * y;
    TimesMono(q.Floor as real, q, y);
    TimesLess(q, (q.Floor + 1) as real, y);
  }

  lemma TimesMono(x: real, z: real, y: real)
    requires x <= z && y >= 0.0
    ensures Times(x, y) <= Times(z, y)
  {
  }

  lemma TimesLess(x: real, z: real, y: real)
    requires x < z && y > 0.0
    ensures Times(x, y) < Times(z, y)
  {
  }

  lemma FloorWithin(x: real, y: real, lo: int, hi: int)
    requires y > 0.0 && Times(y, lo as real) <= x <= Times(y, hi as real)
    ensures lo <= Ratio(x, y).Floor <= hi
  {
    RatioFloor(x, y);
    var e := Ratio(x, y).Floor;
    if e < lo {
      TimesMono((e + 1) as real, lo as real, y);
    }
    if e > hi {
      TimesLess(hi as real, e as real, y);
    }
  }

  /** All data points of the first n buckets lie in the buckets i to j. */
  ghost predicate Within(ts: Timings, i: nat, j: nat, n: nat)
    requires n <= |ts|
  {
    forall k :: 0 <= k < n && (k < i || k > j) ==> ts[k] == 0.0
  }

  lemma {:induction false} WeightedWithin(step: nat, ts: Timings, i: nat, j: nat, n: nat)
    requires NonNegative(ts) && n <= |ts| && Within(ts, i, j, n)
    ensures Times(SumTo(ts, n), Start(step, i) as real) <= WeightedTo(step, ts, n)
            <= Times(SumTo(ts, n), Start(step, j) as real)
  {
    hide Times, Start;
    TimesDistributes(0.0, 0.0, Start(step, i) as real);
    TimesDistributes(0.0, 0.0, Start(step, j) as real);
    if n > 0 {
      var t := ts[n - 1];
      WeightedWithin(step, ts, i, j, n - 1);
      TimesDistributes(SumTo(ts, n - 1), t, Start(step, i) as real);
      TimesDistributes(SumTo(ts, n - 1), t, Start(step, j) as real);
      TimesDistributes(0.0, 0.0, Start(step, n - 1) as real);
      if i <= n - 1 <= j {
        StartMono(step, i, n - 1);
        StartMono(step, n - 1, j);
        WeightMono(t, Start(step, i) as real, Start(step, n - 1) as real);
        WeightMono(t, Start(step, n - 1) as real, Start(step, j) as real);
      }
    }
  }

  lemma WeightMono(t: real, x: real, y: real)
    requires t >= 0.0 && x <= y
    ensures Times(t, x) <= Times(t, y)
  {
  }

  /** The expected duration lies between the starts of the first and the last bucket with data; if one
      bucket has all the data, it is the start of this bucket. Without data it is the start of the last
      bucket of all. */
  lemma ExpectedWithin(step: nat, ts: Timings, i: nat, j: nat)
    requires NonNegative(ts) && i <= j < |ts| && Within(ts, i, j, |ts|)
    ensures if forall k :: 0 <= k < |ts| ==> ts[k] == 0.0 then Expected(step, ts) == Start(step, |ts| - 1)
            else Start(step, i) <= Expected(step, ts) <= Start(step, j)
  {
    hide Times, Ratio, Start;
    SumNonNegative(ts, |ts|);
    if forall k :: 0 <= k < |ts| ==> ts[k] == 0.0 {
      SumConstant(ts, 0.0, |ts|);
      TimesOfZero(|ts| as real);
    } else {
      WeightedWithin(step, ts, i, j, |ts|);
      FloorWithin(Weighted(step, ts), Sum(ts), Start(step, i), Start(step, j));
    }
  }

  lemma TimesOfZero(x: real)
    ensures Times(x, 0.0) == 0.0
  {
  }

  /** The expected duration is the weighted mean of the bucket starts, rounded down. */
  lemma ExpectedIsMean(step: nat, ts: Timings)
    requires |ts| > 0 && Sum(ts) > 0.0
    ensures var e := Expected(step, ts) as real; e * Sum(ts) <= Weighted(step, ts) < (e + 1.0) * Sum(ts)
  {
    hide Start, Ratio;
    RatioFloor(Weighted(step, ts), Sum(ts));
  }

  // ----- Chances and quantiles -------------------------------------------------------------

  ghost predicate Shape(increments: nat, ts: Timings) {
    |ts| == NumBuckets(increments) && NonNegative(ts)
  }

  lemma LocateRange(step: nat, increments: nat, dur: nat)
    requires step > 0
    ensures 0 <= Locate(step, increments, dur).0 < NumBuckets(increments)
    ensures 0.0 <= Locate(step, increments, dur).1 <= 1.0
  {
    hide Locate, Start, Width;
    LocateInvertsStart(step, increments, dur);
  }

  /** The data points before a place in the table: all of the earlier buckets and a fraction of
      the bucket itself. */
  function CountTo(ts: Timings, place: (int, real)): real
    requires 0 <= place.0 < |ts|
  {
    SumTo(ts, place.0) + Times(place.1, ts[place.0])
  }

  /** The part of the data points up to a duration; 0 without data. */
  function Chance(step: nat, increments: nat, ts: Timings, dur: int): real
    requires step > 0 && |ts| == NumBuckets(increments)
  {
    if dur < 0 || Sum(ts) == 0.0 then 0.0
    else
      LocateRange(step, increments, dur);
      Ratio(CountTo(ts, Locate(step, increments, dur)), Sum(ts))
  }

  lemma ChanceScale(step: nat, increments: nat, ts: Timings, dur: int, d: real)
    requires step > 0 && |ts| == NumBuckets(increments) && d > 0.0
    ensures Chance(step, increments, Scale(ts, d), dur) == Chance(step, increments, ts, dur)
  {
    hide Times, Ratio, Locate;
    SumScale(ts, d, |ts|);
    TimesZero(Sum(ts), d);
    if dur >= 0 && Sum(ts) != 0.0 {
      LocateRange(step, increments, dur);
      var (b, f) := Locate(step, increments, dur);
      SumScale(ts, d, b);
      TimesSwap(f, ts[b], d);
      TimesDistributes(SumTo(ts, b), Times(f, ts[b]), d);
      RatioScale(CountTo(ts, (b, f)), Sum(ts), d);
    }
  }

  /** At a bucket's start the chance is the part of the data points in the buckets before it. */
  lemma ChanceAtStart(step: nat, increments: nat, ts: Timings, i: nat)
    requires step > 0 && |ts| == NumBuckets(increments) && i < |ts| && Sum(ts) != 0.0
    ensures Chance(step, increments, ts, Start(step, i)) == Ratio(SumTo(ts, i), Sum(ts))
  {
    hide Locate, Start, Ratio;
    LocateOfStart(step, increments, i);
  }

  lemma RatioMono(a: real, b: real, total: real)
    requires a <= b && total > 0.0
    ensures Ratio(a, total) <= Ratio(b, total)
    ensures Ratio(0.0, total) == 0.0 && Ratio(total, total) == 1.0
  {
  }

  lemma PartOfBucket(f: real, g: real, t: real)
    requires 0.0 <= f <= 1.0 && t >= 0.0
    ensures 0.0 <= Times(f, t) <= t
    ensures f <= g ==> Times(f, t) <= Times(g, t)
  {
    hide Times;
    TimesNonNegative(f, t);
    TimesNonNegative(1.0 - f, t);
    TimesDistributes(f, 1.0 - f, t);
    TimesOne(t);
    assert f + (1.0 - f) == 1.0;
    if f <= g {
      TimesNonNegative(g - f, t);
      TimesDistributes(f, g - f, t);
      assert f + (g - f) == g;
    }
  }

  lemma TimesOne(t: real)
    ensures Times(1.0, t) == t
  {
  }

  /** Chances lie between 0 and 1 and grow with the duration. */
  lemma ChanceMono(step: nat, increments: nat, ts: Timings, d: nat, e: nat)
    requires step > 0 && Shape(increments, ts) && d <= e
    ensures 0.0 <= Chance(step, increments, ts, d) <= Chance(step, increments, ts, e) <= 1.0
  {
    hide Locate, Ratio, CountTo;
    SumNonNegative(ts, |ts|);
    if Sum(ts) > 0.0 {
      LocateRange(step, increments, d);
      LocateRange(step, increments, e);
      LocateMono(step, increments, d, e);
      var x, y := Locate(step, increments, d), Locate(step, increments, e);
      CountMono(ts, x, y);
      RatioMono(0.0, CountTo(ts, x), Sum(ts));
      RatioMono(CountTo(ts, x), CountTo(ts, y), Sum(ts));
      RatioMono(CountTo(ts, y), Sum(ts), Sum(ts));
    }
  }

  lemma CountMono(ts: Timings, x: (int, real), y: (int, real))
    requires NonNegative(ts) && 0 <= x.0 <= y.0 < |ts|
    requires 0.0 <= x.1 <= 1.0 && 0.0 <= y.1 <= 1.0 && (x.0 == y.0 ==> x.1 <= y.1)
    ensures 0.0 <= CountTo(ts, x) <= CountTo(ts, y) <= Sum(ts)
  {
    hide Times;
    PartOfBucket(x.1, y.1, ts[x.0]);
    PartOfBucket(y.1, y.1, ts[y.0]);
    SumNonNegative(ts, x.0);
    if x.0 < y.0 {
      SumMono(ts, x.0 + 1, y.0);
    }
    SumMono(ts, y.0 + 1, |ts|);
  }

  /** Inside a bucket the chance takes the share of it that lies before the duration. */
  lemma ChanceInside(step: nat, increments: nat, ts: Timings, dur: nat, b: nat)
    requires step > 0 && |ts| == NumBuckets(increments) && Sum(ts) != 0.0
    requires b < |ts| && Start(step, b) <= dur < Start(step, b + 1)
    ensures (Chance(step, increments, ts, dur) * Sum(ts) - SumTo(ts, b)) * Width(step, b) as real
            == ts[b] * (dur - Start(step, b)) as real
  {
    hide Locate, Start, Width, Ratio, Times;
    LocateInside(step, increments, dur, b);
    var (_, f) := Locate(step, increments, dur);
    RatioTimes(SumTo(ts, b) + Times(f, ts[b]), Sum(ts));
    ShareOf(f, ts[b], Width(step, b) as real, (dur - Start(step, b)) as real);
  }

  /** At the top of the table and beyond, all data points are counted. */
  lemma ChanceAtTop(step: nat, increments: nat, ts: Timings, dur: nat)
    requires step > 0 && |ts| == NumBuckets(increments) && Sum(ts) != 0.0
    requires dur >= Start(step, NumBuckets(increments))
    ensures Chance(step, increments, ts, dur) == 1.0
  {
    hide Locate, Start, Ratio, Times;
    LocateInvertsStart(step, increments, dur);
    TimesOne(ts[|ts| - 1]);
    RatioOne(Sum(ts));
  }

  /** The bucket a duration lies in, and the part of it that the duration covers. */
  lemma LocateInside(step: nat, increments: nat, dur: nat, b: nat)
    requires step > 0 && b < NumBuckets(increments) && Start(step, b) <= dur < Start(step, b + 1)
    ensures var (i, f) := Locate(step, increments, dur);
            i == b && f * Width(step, b) as real == (dur - Start(step, b)) as real
  {
    hide Start, Width, FindBucket, Locate;
    LocateInvertsStart(step, increments, dur);
    StartMono(step, b + 1, NumBuckets(increments));
    var i := Locate(step, increments, dur).0;
    if i < b {
      StartMono(step, i + 1, b);
    } else if b < i {
      StartMono(step, b + 1, i);
    }
  }

  lemma RatioTimes(x: real, y: real)
    requires y != 0.0
    ensures Ratio(x, y) * y == x
  {
  }

  lemma RatioOne(y: real)
    requires y != 0.0
    ensures Ratio(y, y) == 1.0
  {
  }

  lemma ShareOf(f: real, t: real, w: real, x: real)
    requires f * w == x
    ensures Times(f, t) * w == t * x && Times(1.0 - f, t) * w == t * (w - x)
  {
    assert f * t * w == t * (f * w);
    assert (1.0 - f) * t * w == t * (w - f * w);
  }

  /** The first bucket from i on whose chance reaches p, or the last one. */
  function QuantileFrom(ts: Timings, p: real, i: nat): (b: nat)
    requires i < |ts| && Sum(ts) != 0.0
    ensures i <= b < |ts|
    decreases |ts| - i
  {
    if Ratio(SumTo(ts, i), Sum(ts)) < p && i < |ts| - 1 then QuantileFrom(ts, p, i + 1) else i
  }

  function Quantile(ts: Timings, p: real): (b: nat)
    requires |ts| > 0
    ensures b < |ts|
  {
    if Sum(ts) == 0.0 then |ts| - 1 else QuantileFrom(ts, p, 0)
  }

  lemma {:induction false} QuantileFromIs(ts: Timings, p: real, i: nat)
    requires i < |ts| && Sum(ts) != 0.0
    ensures var b := QuantileFrom(ts, p, i);
            && (forall j :: i <= j < b ==> Ratio(SumTo(ts, j), Sum(ts)) < p)
            && (b < |ts| - 1 ==> Ratio(SumTo(ts, b), Sum(ts)) >= p)
    decreases |ts| - i
  {
    hide Ratio;
    if Ratio(SumTo(ts, i), Sum(ts)) < p && i < |ts| - 1 {
      QuantileFromIs(ts, p, i + 1);
    }
  }

  /** Quantile and chance are adjoint: a bucket before the last one has reached chance p exactly
      when the quantile of p is at or before it. */
  lemma QuantileAdjoint(step: nat, increments: nat, ts: Timings, p: real, i: nat)
    requires step > 0 && Shape(increments, ts) && Sum(ts) > 0.0 && i < |ts| - 1
    ensures Chance(step, increments, ts, Start(step, i)) >= p <==> Quantile(ts, p) <= i
  {
    hide Ratio, Chance, Start;
    QuantileFromIs(ts, p, 0);
    ChanceAtStart(step, increments, ts, i);
    var b := Quantile(ts, p);
    if b <= i {
      SumMono(ts, b, i);
      RatioMono(SumTo(ts, b), SumTo(ts, i), Sum(ts));
    }
  }

  /** A higher quantile is never an earlier bucket. */
  lemma QuantileMono(ts: Timings, p: real, q: real)
    requires |ts| > 0 && p <= q
    ensures Quantile(ts, p) <= Quantile(ts, q)
  {
    hide Ratio;
    if Sum(ts) != 0.0 {
      QuantileFromIs(ts, p, 0);
      QuantileFromIs(ts, q, 0);
    }
  }

  lemma QuantileScale(ts: Timings, p: real, d: real)
    requires |ts| > 0 && d > 0.0
    ensures Quantile(Scale(ts, d), p) == Quantile(ts, p)
  {
    hide Times;
    SumScale(ts, d, |ts|);
    TimesZero(Sum(ts), d);
    if Sum(ts) != 0.0 {
      QuantileFromScale(ts, p, d, 0);
    }
  }

  lemma {:induction false} QuantileFromScale(ts: Timings, p: real, d: real, i: nat)
    requires i < |ts| && d > 0.0 && Sum(ts) != 0.0 && Sum(Scale(ts, d)) != 0.0
    ensures QuantileFrom(Scale(ts, d), p, i) == QuantileFrom(ts, p, i)
    decreases |ts| - i
  {
    hide Times, Ratio;
    SumScale(ts, d, |ts|);
    SumScale(ts, d, i);
    RatioScale(SumTo(ts, i), Sum(ts), d);
    if i < |ts| - 1 {
      QuantileFromScale(ts, p, d, i + 1);
    }
  }

  // ----- Shifting --------------------------------------------------------------------------

  /** Where a shift cuts, what stays in that bucket, and what every earlier bucket gets. */
  function Cut(step: nat, increments: nat, ts: Timings, dur: int): (c: (int, real, real))
    requires step > 0 && |ts| == NumBuckets(increments)
    ensures 0 <= c.0 < |ts|
  {
    if dur < 0 then (0, 0.0, 0.0)
    else
      LocateRange(step, increments, dur);
      var (b, f) := Locate(step, increments, dur);
      (b, Times(1.0 - f, ts[b]), if b == 0 then 0.0 else Ratio(Times(f, ts[b]), b as real))
  }

  /** The counts after shifting by a duration. */
  function Shifted(step: nat, increments: nat, ts: Timings, dur: int): (r: Timings)
    requires step > 0 && |ts| == NumBuckets(increments)
    ensures |r| == |ts|
  {
    var (b, keep, smear) := Cut(step, increments, ts, dur);
    seq(|ts|, i requires 0 <= i < |ts| => if i < b then smear else if i == b then keep else ts[i])
  }

  lemma CutNonNegative(step: nat, increments: nat, ts: Timings, dur: int)
    requires step > 0 && Shape(increments, ts)
    ensures var (b, keep, smear) := Cut(step, increments, ts, dur);
            keep >= 0.0 && smear >= 0.0
  {
    hide Times, Ratio, Locate;
    if dur >= 0 {
      LocateRange(step, increments, dur);
      var (b, f) := Locate(step, increments, dur);
      PartOfBucket(f, f, ts[b]);
      PartOfBucket(1.0 - f, 1.0, ts[b]);
      if b > 0 {
        RatioMono(0.0, Times(f, ts[b]), b as real);
      }
    }
  }

  lemma ShiftedShape(step: nat, increments: nat, ts: Timings, dur: int)
    requires step > 0 && Shape(increments, ts)
    ensures Shape(increments, Shifted(step, increments, ts, dur))
  {
    hide Cut;
    CutNonNegative(step, increments, ts, dur);
  }

  /** Equal counts add up to a multiple. */
  lemma {:induction false} SumConstant(ts: Timings, x: real, n: nat)
    requires n <= |ts| && forall i :: 0 <= i < n ==> ts[i] == x
    ensures SumTo(ts, n) == Times(n as real, x)
  {
    hide Times;
    NextMultiple(0, x);
    if n > 0 {
      SumConstant(ts, x, n - 1);
      NextMultiple(n - 1, x);
    }
  }

  lemma NextMultiple(n: nat, x: real)
    ensures Times(n as real, x) + x == Times((n + 1) as real, x)
    ensures Times(0 as real, x) == 0.0
  {
  }

  /** Sums over equal tails differ as the sums before the tails do. */
  lemma {:induction false} SumSameTail(ts: Timings, us: Timings, b: nat, n: nat)
    requires |ts| == |us| && b <= n <= |ts| && forall i :: b <= i < n ==> ts[i] == us[i]
    ensures SumTo(ts, n) - SumTo(ts, b) == SumTo(us, n) - SumTo(us, b)
  {
    if b < n {
      SumSameTail(ts, us, b, n - 1);
    }
  }

  /** Shifting conserves exactly the mass at and after the cut if and only if the cut is past the
      first bucket or covers nothing of it. */
  lemma ShiftConservesIff(step: nat, increments: nat, ts: Timings, dur: nat)
    requires step > 0 && |ts| == NumBuckets(increments)
    ensures var (b, f) := Locate(step, increments, dur);
            && 0 <= b < |ts|
            && (Sum(Shifted(step, increments, ts, dur)) == Sum(ts) - SumTo(ts, b) <==> b > 0 || f * ts[0] == 0.0)
  {
    LocateRange(step, increments, dur);
    hide Locate, Times, Ratio;
    var (b, f) := Locate(step, increments, dur);
    var us := Shifted(step, increments, ts, dur);
    var (_, keep, smear) := Cut(step, increments, ts, dur);
    SumSameTail(us, ts, b + 1, |ts|);
    SumConstant(us, smear, b);
    SplitBucket(f, ts[b], b);
  }

  lemma ShiftedParts(step: nat, increments: nat, ts: Timings, dur: int)
    requires step > 0 && |ts| == NumBuckets(increments)
    ensures var (b, keep, smear) := Cut(step, increments, ts, dur);
            var us := Shifted(step, increments, ts, dur);
            && (forall i :: 0 <= i < b ==> us[i] == smear)
            && us[b] == keep
            && (forall i :: b < i < |ts| ==> us[i] == ts[i])
  {
    hide Cut;
  }

  /** A shift by a duration inside bucket b: of the bucket's count stays the share that lies after the
      duration, and the share before it is spread evenly over the earlier buckets, whose own counts are
      gone. Later buckets stay as they are. */
  lemma ShiftInside(step: nat, increments: nat, ts: Timings, dur: nat, b: nat)
    requires step > 0 && |ts| == NumBuckets(increments)
    requires b < |ts| && Start(step, b) <= dur < Start(step, b + 1)
    ensures var us := Shifted(step, increments, ts, dur);
            && us[b] * Width(step, b) as real == ts[b] * (Start(step, b + 1) - dur) as real
            && (forall i, j :: 0 <= i < j < b ==> us[i] == us[j])
            && (b > 0 ==> SumTo(us, b) * Width(step, b) as real == ts[b] * (dur - Start(step, b)) as real)
            && (forall i :: b < i < |ts| ==> us[i] == ts[i])
  {
    hide Locate, Start, Width, Times, Ratio, Shifted;
    LocateInside(step, increments, dur, b);
    var (_, f) := Locate(step, increments, dur);
    var us := Shifted(step, increments, ts, dur);
    ShiftedParts(step, increments, ts, dur);
    StartNext(step, b);
    SumConstant(us, Cut(step, increments, ts, dur).2, b);
    SplitBucket(f, ts[b], b);
    ShareOf(f, ts[b], Width(step, b) as real, (dur - Start(step, b)) as real);
  }

  /** A shift past the top of the table empties the last bucket into the earlier ones. */
  lemma ShiftPastTop(step: nat, increments: nat, ts: Timings, dur: nat)
    requires step > 0 && |ts| == NumBuckets(increments) && dur >= Start(step, NumBuckets(increments))
    ensures var us, last := Shifted(step, increments, ts, dur), |ts| - 1;
            && us[last] == 0.0 && SumTo(us, last) == ts[last]
            && forall i, j :: 0 <= i < j < last ==> us[i] == us[j]
  {
    hide Locate, Start, Times, Ratio, Shifted;
    LocateInvertsStart(step, increments, dur);
    var us, last := Shifted(step, increments, ts, dur), |ts| - 1;
    ShiftedParts(step, increments, ts, dur);
    SumConstant(us, Cut(step, increments, ts, dur).2, last);
    SplitBucket(1.0, ts[last], last);
    TimesOne(ts[last]);
  }

  /** A shift to the start of a bucket drops the buckets before it and nothing else. A negative duration
      drops the first bucket. */
  lemma ShiftToStart(step: nat, increments: nat, ts: Timings, i: nat)
    requires step > 0 && |ts| == NumBuckets(increments) && i < |ts|
    ensures var us := Shifted(step, increments, ts, Start(step, i));
            forall k :: 0 <= k < |ts| ==> us[k] == if k < i then 0.0 else ts[k]
    ensures forall dur :: dur < 0 ==> Shifted(step, increments, ts, dur) == ts[0 := 0.0]
  {
    hide Locate, Start, Times, Ratio;
    LocateOfStart(step, increments, i);
    TimesDistributes(0.0, 0.0, ts[i]);
    TimesOne(ts[i]);
    RatioOfZero(i as real);
  }

  lemma RatioOfZero(y: real)
    ensures y != 0.0 ==> Ratio(0.0, y) == 0.0
  {
  }

  lemma SplitBucket(f: real, t: real, b: nat)
    ensures Times(1.0 - f, t) + Times(f, t) == t && Times(f, t) == f * t
    ensures b > 0 ==> Times(b as real, Ratio(Times(f, t), b as real)) == Times(f, t)
    ensures b == 0 ==> Times(b as real, 0.0) == 0.0
  {
  }
}
