/** The buckets of the distribution tracker: 64 buckets of one step, then groups of 48 buckets, each
    group four times as wide as the one before. */
module DurationTable {
  import opened Arith

  const INITIAL_BUCKETS := 64
  const BUCKETS_PER_STEP_CHANGE := 48
  const STEP_CHANGE_MULTIPLE := 4

  function NumBuckets(increments: nat): nat {
    INITIAL_BUCKETS + BUCKETS_PER_STEP_CHANGE * increments
  }

  /** How often the step has grown at bucket i. */
  function Group(i: nat): nat {
    if i < INITIAL_BUCKETS then 0 else (i - INITIAL_BUCKETS) / BUCKETS_PER_STEP_CHANGE + 1
  }

  function GroupStep(step: nat, g: nat): (w: nat)
    ensures step > 0 ==> w > 0
  {
    if g == 0 then step else GroupStep(step, g - 1) * STEP_CHANGE_MULTIPLE
  }

  /** The width of bucket i. */
  function Width(step: nat, i: nat): (w: nat)
    ensures step > 0 ==> w > 0
  {
    GroupStep(step, Group(i))
  }

  /** Where bucket i starts: the widths of the buckets before it. */
  function Start(step: nat, i: nat): nat {
    if i == 0 then 0 else Start(step, i - 1) + Width(step, i - 1)
  }

  /** Every group starts where a ruler with its own step has counted 16. */
  lemma {:induction false} StartClosed(step: nat, i: nat)
    ensures i >= BUCKETS_PER_STEP_CHANGE * Group(i)
    ensures Start(step, i) == (i - BUCKETS_PER_STEP_CHANGE * Group(i)) * GroupStep(step, Group(i))
  {
    if i > 0 {
      StartClosed(step, i - 1);
      var g, h := Group(i - 1), Group(i);
      assert h == g || (h == g + 1 && i - BUCKETS_PER_STEP_CHANGE * g == INITIAL_BUCKETS);
      NextStart(i - 1 - BUCKETS_PER_STEP_CHANGE * g, GroupStep(step, g));
    }
  }

  lemma NextStart(k: nat, w: nat)
    ensures k * w + w == (k + 1) * w
    ensures k + 1 == 64 ==> (k + 1) * w == 16 * (w * 4)
  {
  }

  lemma StartMono(step: nat, i: nat, j: nat)
    requires i <= j
    ensures Start(step, i) <= Start(step, j)
    ensures step > 0 && i < j ==> Start(step, i) < Start(step, j)
  {
    if i < j {
      StartMono(step, i, j - 1);
    }
  }

  /** staticDistributionDurationsForBucketIndices: the table holds the start of every bucket. */
  method BuildTable(step: nat, increments: nat) returns (durations: seq<nat>)
    ensures |durations| == NumBuckets(increments)
    ensures forall i :: 0 <= i < |durations| ==> durations[i] == Start(step, i)
  {
    durations := [];
    for index := 0 to NumBuckets(increments)
      invariant |durations| == index
      invariant forall i :: 0 <= i < index ==> durations[i] == Start(step, i)
    {
      var d := DurationAt(step, increments, index);
      durations := durations + [d];
    }
  }

  /** One round of the table loop. */
  method DurationAt(step: nat, increments: nat, index: nat) returns (d: nat)
    requires index < NumBuckets(increments)
    ensures d == Start(step, index)
  {
    hide Start;
    StartClosed(step, index);
    if index <= INITIAL_BUCKETS {
      FirstGroupStart(step, index);
      d := step * index;
      return;
    }
    hide Group, GroupStep;
    GroupStepNext(step, 0);
    var stepSize: nat := step;
    var prevMax: nat := step * INITIAL_BUCKETS;
    var i := INITIAL_BUCKETS;
    ghost var g := 0;
    while i <= NumBuckets(increments)
      invariant i == INITIAL_BUCKETS + BUCKETS_PER_STEP_CHANGE * g
      invariant stepSize == GroupStep(step, g) && prevMax == INITIAL_BUCKETS * stepSize
      invariant i <= index
    {
      GroupStepNext(step, g);
      stepSize := stepSize * STEP_CHANGE_MULTIPLE;
      if index < i + BUCKETS_PER_STEP_CHANGE {
        GroupOf(index - BUCKETS_PER_STEP_CHANGE * (g + 1), g + 1);
        TableEntry(stepSize, index - i, prevMax);
        d := stepSize * (index - i) + prevMax;
        return;
      }
      prevMax := prevMax * STEP_CHANGE_MULTIPLE;
      i := i + BUCKETS_PER_STEP_CHANGE;
      g := g + 1;
    }
    assert false;
  }

  lemma GroupStepNext(step: nat, g: nat)
    ensures GroupStep(step, 0) == step && GroupStep(step, g + 1) == GroupStep(step, g) * STEP_CHANGE_MULTIPLE
  {
  }

  lemma FirstGroupStart(step: nat, i: nat)
    requires i <= INITIAL_BUCKETS
    ensures (i - BUCKETS_PER_STEP_CHANGE * Group(i)) * GroupStep(step, Group(i)) == step * i
  {
    GroupStepNext(step, 0);
  }

  lemma TableEntry(w: nat, k: nat, prevMax: nat)
    requires prevMax == 16 * w
    ensures w * k + prevMax == (k + 16) * w
  {
  }

  // ----- From durations to buckets ---------------------------------------------------------

  /** The first bucket from i on that ends after the duration, or the last one. */
  function FindBucket(step: nat, total: nat, dur: nat, i: nat): (b: nat)
    requires i < total
    ensures i <= b < total
    decreases total - i
  {
    if i == total - 1 || dur < Start(step, i + 1) then i else FindBucket(step, total, dur, i + 1)
  }

  /** The bucket of a duration and how much of the bucket the duration covers. */
  function Locate(step: nat, increments: nat, dur: int): (int, real)
    requires step > 0
  {
    var total := NumBuckets(increments);
    if dur < 0 then (-1, 0.0)
    else if dur >= Start(step, total) then (total - 1, 1.0)
    else
      var b := FindBucket(step, total, dur, 0);
      (b, (dur - Start(step, b)) as real / Width(step, b) as real)
  }

  lemma {:induction false} FindBucketIs(step: nat, total: nat, dur: nat, i: nat, b: nat)
    requires step > 0 && i <= b < total && Start(step, b) <= dur < Start(step, b + 1)
    ensures FindBucket(step, total, dur, i) == b
    decreases b - i
  {
    hide Start;
    if i < b {
      StartMono(step, i + 1, b);
      FindBucketIs(step, total, dur, i + 1, b);
    }
  }

  /** The bucket found contains the duration. */
  lemma {:induction false} FindBucketContains(step: nat, total: nat, dur: nat, i: nat)
    requires step > 0 && i < total && Start(step, i) <= dur < Start(step, total)
    ensures var b := FindBucket(step, total, dur, i); Start(step, b) <= dur < Start(step, b + 1)
    decreases total - i
  {
    hide Start;
    if !(i == total - 1 || dur < Start(step, i + 1)) {
      FindBucketContains(step, total, dur, i + 1);
    }
  }

  lemma StartNext(step: nat, i: nat)
    ensures Start(step, i + 1) == Start(step, i) + Width(step, i)
  {
  }

  lemma GroupOf(q: nat, g: nat)
    requires q < INITIAL_BUCKETS && (g > 0 ==> q >= 16)
    ensures Group(q + BUCKETS_PER_STEP_CHANGE * g) == g
  {
  }

  /** Bucket q of group g starts at q steps of the group. */
  lemma StartInGroup(step: nat, q: nat, g: nat)
    requires q < INITIAL_BUCKETS && (g > 0 ==> q >= 16)
    ensures Start(step, q + BUCKETS_PER_STEP_CHANGE * g) == q * GroupStep(step, g)
    ensures Width(step, q + BUCKETS_PER_STEP_CHANGE * g) == GroupStep(step, g)
  {
    hide Group, GroupStep, Start;
    GroupOf(q, g);
    StartClosed(step, q + BUCKETS_PER_STEP_CHANGE * g);
  }

  lemma QuotientRange(dur: nat, w: nat, g: nat)
    requires w > 0 && (if g == 0 then 0 else 16) * w <= dur < 64 * w
    ensures dur / w < 64 && (g > 0 ==> dur / w >= 16)
    ensures dur / w * w <= dur < dur / w * w + w && dur % w == dur - dur / w * w
  {
    DivBounds(dur, w);
    var q := dur / w;
    if q >= 64 {
      MulMono(64, q, w);
    }
    if q < 16 {
      MulMono(q + 1, 16, w);
    }
  }

  /** A quotient and a remainder by the group step are the bucket and the place in it. */
  lemma LocateByQuotient(step: nat, increments: nat, dur: nat, g: nat)
    requires step > 0 && g <= increments
    requires (if g == 0 then 0 else 16) * GroupStep(step, g) <= dur < 64 * GroupStep(step, g)
    ensures Locate(step, increments, dur)
            == (dur / GroupStep(step, g) + BUCKETS_PER_STEP_CHANGE * g,
                (dur % GroupStep(step, g)) as real / GroupStep(step, g) as real)
  {
    hide Group, GroupStep, Start, Width, FindBucket;
    var w := GroupStep(step, g);
    QuotientRange(dur, w, g);
    var b := dur / w + BUCKETS_PER_STEP_CHANGE * g;
    StartInGroup(step, dur / w, g);
    StartNext(step, b);
    FindBucketIs(step, NumBuckets(increments), dur, 0, b);
    StartMono(step, b + 1, NumBuckets(increments));
  }

  lemma TopOfTable(step: nat, increments: nat)
    ensures Start(step, NumBuckets(increments)) == 64 * GroupStep(step, increments)
  {
    hide Group, Start;
    StartInGroup(step, 16, increments + 1);
    assert GroupStep(step, increments + 1) == GroupStep(step, increments) * 4;
  }

  lemma LocateAtTop(step: nat, increments: nat, dur: nat)
    requires step > 0 && dur >= Start(step, NumBuckets(increments))
    ensures Locate(step, increments, dur) == (NumBuckets(increments) - 1, 1.0)
  {
  }

  /** indexForDuration. */
  method IndexForDuration(step: nat, increments: nat, duration: int) returns (index: int, fraction: real)
    requires step > 0
    ensures (index, fraction) == Locate(step, increments, duration)
  {
    if duration < 0 {
      return -1, 0.0;
    }
    hide GroupStep, Start, Locate;
    GroupStepNext(step, 0);
    var stepSize: nat := step;
    var max: nat := stepSize * INITIAL_BUCKETS;
    if duration < max {
      LocateByQuotient(step, increments, duration, 0);
      return duration / stepSize, (duration % stepSize) as real / stepSize as real;
    }
    var i := INITIAL_BUCKETS;
    ghost var g := 0;
    while i < NumBuckets(increments)
      invariant g <= increments && i == INITIAL_BUCKETS + BUCKETS_PER_STEP_CHANGE * g
      invariant stepSize == GroupStep(step, g) && max == INITIAL_BUCKETS * stepSize <= duration
    {
      GroupStepNext(step, g);
      stepSize := stepSize * STEP_CHANGE_MULTIPLE;
      max := max * STEP_CHANGE_MULTIPLE;
      g := g + 1;
      if duration < max {
        LocateByQuotient(step, increments, duration, g);
        return duration / stepSize + i - INITIAL_BUCKETS / STEP_CHANGE_MULTIPLE,
               (duration % stepSize) as real / stepSize as real;
      }
      i := i + BUCKETS_PER_STEP_CHANGE;
    }
    TopOfTable(step, increments);
    LocateAtTop(step, increments, duration);
    return NumBuckets(increments) - 1, 1.0;
  }

  /** The index inverts the table: below the top every duration lies in the bucket returned for
      it, and the fraction locates it exactly; at the top and beyond the last bucket is full. */
  lemma LocateInvertsStart(step: nat, increments: nat, dur: nat)
    requires step > 0
    ensures var (b, f) := Locate(step, increments, dur);
            && 0 <= b < NumBuckets(increments)
            && (dur < Start(step, NumBuckets(increments)) ==>
                  && Start(step, b) <= dur < Start(step, b + 1)
                  && 0.0 <= f < 1.0
                  && Start(step, b) as real + f * Width(step, b) as real == dur as real)
            && (dur >= Start(step, NumBuckets(increments)) ==> b == NumBuckets(increments) - 1 && f == 1.0)
  {
    hide Start, Width, FindBucket;
    assert Start(step, 0) == 0 by {
      StartClosed(step, 0);
    }
    if dur < Start(step, NumBuckets(increments)) {
      FindBucketContains(step, NumBuckets(increments), dur, 0);
      var b := FindBucket(step, NumBuckets(increments), dur, 0);
      StartNext(step, b);
      FractionOf(dur - Start(step, b), Width(step, b));
    }
  }

  lemma FractionOf(x: nat, w: nat)
    requires x < w
    ensures var f := x as real / w as real; 0.0 <= f < 1.0 && f * w as real == x as real
  {
  }

  /** A table entry is found again as its own bucket with nothing of it covered. */
  lemma LocateOfStart(step: nat, increments: nat, i: nat)
    requires step > 0 && i < NumBuckets(increments)
    ensures Locate(step, increments, Start(step, i)) == (i, 0.0)
  {
    hide Start, Width, FindBucket;
    StartMono(step, i, i + 1);
    FindBucketIs(step, NumBuckets(increments), Start(step, i), 0, i);
    StartMono(step, i, NumBuckets(increments));
  }

  /** Longer durations are never located earlier. */
  lemma LocateMono(step: nat, increments: nat, d: nat, e: nat)
    requires step > 0 && d <= e
    ensures Locate(step, increments, d).0 <= Locate(step, increments, e).0
    ensures Locate(step, increments, d).0 == Locate(step, increments, e).0 ==>
              Locate(step, increments, d).1 <= Locate(step, increments, e).1
  {
    hide Start, Width, FindBucket;
    LocateInvertsStart(step, increments, d);
    LocateInvertsStart(step, increments, e);
    var b, c := Locate(step, increments, d).0, Locate(step, increments, e).0;
    if c < b {
      StartMono(step, c + 1, b);
    }
    if e < Start(step, NumBuckets(increments)) && b == c {
      FractionMono(d - Start(step, b), e - Start(step, b), Width(step, b));
    }
  }

  lemma FractionMono(x: nat, y: nat, w: nat)
    requires x <= y && w > 0
    ensures x as real / w as real <= y as real / w as real
  {
  }

  /** From bucket 16 on, rounding a duration down to its bucket loses less than a sixteenth of the
      bucket's start. */
  lemma RoundingError(step: nat, increments: nat, dur: nat)
    requires step > 0 && dur < Start(step, NumBuckets(increments))
    ensures var b := Locate(step, increments, dur).0;
            b >= 16 ==> 16 * (dur - Start(step, b)) < Start(step, b)
  {
    hide Start, GroupStep, Locate;
    LocateInvertsStart(step, increments, dur);
    var b := Locate(step, increments, dur).0;
    StartClosed(step, b);
    StartNext(step, b);
    if b >= 16 {
      MulMono(16, b - BUCKETS_PER_STEP_CHANGE * Group(b), Width(step, b));
    }
  }

  /** The table in numbers: the first 64 buckets start at multiples of the step, and bucket q of group g,
      for q from 16 to 63, at q times the step times the g-th power of four. */
  lemma {:induction false} StartPowers(step: nat, q: nat, g: nat)
    requires q < 64 && (g > 0 ==> q >= 16)
    ensures Start(step, q + 48 * g) == q * (step * Pow(4, g)) && Width(step, q + 48 * g) == step * Pow(4, g)
  {
    StartInGroup(step, q, g);
    GroupStepPower(step, g);
  }

  lemma {:induction false} GroupStepPower(step: nat, g: nat)
    ensures GroupStep(step, g) == step * Pow(4, g)
  {
    if g > 0 {
      GroupStepPower(step, g - 1);
      PowNext(4, g - 1);
      MulAssoc(step, Pow(4, g - 1), 4);
    }
  }
}
