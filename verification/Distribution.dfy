/** A distribution: an array of bucket counts with two running sums that make the expected duration
    a constant-time division. Decay is a factor the clock chooses; `None` means that too little
    time has passed. */
module Distribution {
  import opened Bytes
  import opened DurationTable
  import opened DistributionLaws

  /** A decay factor is a power of one half. */
  ghost predicate IsDecay(decay: Option<real>) {
    decay.Some? ==> 0.0 < decay.value <= 1.0
  }

  function Decayed(ts: Timings, decay: Option<real>): Timings {
    match decay
    case None => ts
    case Some(d) => Scale(ts, d)
  }

  function Merged(ts: Timings, us: Timings, weight: real): (r: Timings)
    requires |ts| == |us|
    ensures |r| == |ts|
  {
    seq(|ts|, i requires 0 <= i < |ts| => ts[i] + Times(us[i], weight))
  }

  /** Merging adds every count with its weight, and with them the totals: the data points and the
      numerators of the expected durations. */
  lemma {:induction false} MergedTotals(step: nat, ts: Timings, us: Timings, weight: real, n: nat)
    requires |ts| == |us| && n <= |ts|
    ensures SumTo(Merged(ts, us, weight), n) == SumTo(ts, n) + Times(SumTo(us, n), weight)
    ensures WeightedTo(step, Merged(ts, us, weight), n)
            == WeightedTo(step, ts, n) + Times(WeightedTo(step, us, n), weight)
    ensures forall i :: 0 <= i < n ==> Merged(ts, us, weight)[i] == ts[i] + us[i] * weight
  {
    hide Start, Times;
    TimesDistributes(0.0, 0.0, weight);
    if n > 0 {
      var t, u, start := ts[n - 1], us[n - 1], Start(step, n - 1) as real;
      MergedTotals(step, ts, us, weight, n - 1);
      TimesIs(u, weight);
      TimesDistributes(SumTo(us, n - 1), u, weight);
      TimesDistributes(t, Times(u, weight), start);
      TimesSwap(u, weight, start);
      TimesDistributes(WeightedTo(step, us, n - 1), Times(u, start), weight);
    }
  }

  lemma MergedNonNegative(ts: Timings, us: Timings, weight: real)
    requires |ts| == |us| && NonNegative(ts) && NonNegative(us) && weight >= 0.0
    ensures NonNegative(Merged(ts, us, weight))
  {
    hide Times;
    forall i | 0 <= i < |ts| ensures Merged(ts, us, weight)[i] >= 0.0 {
      TimesNonNegative(us[i], weight);
    }
  }

  lemma TimesIs(x: real, y: real)
    ensures Times(x, y) == x * y
  {
  }

  class Distribution {
    const step: nat
    const increments: nat
    const halfLife: int
    const timings: array<real>
    var total: real
    var numerator: real

    /** The running sums are the full sums, and no count is negative. */
    ghost predicate Valid()
      reads this, timings
    {
      && step > 0
      && Shape(increments, timings[..])
      && total == Sum(timings[..])
      && numerator == Weighted(step, timings[..])
    }

    /** NewDistribution. */
    constructor (step: nat, increments: nat, halfLife: int)
      requires step > 0
      ensures Valid() && fresh(timings)
      ensures this.step == step && this.increments == increments && this.halfLife == halfLife
      ensures forall i :: 0 <= i < timings.Length ==> timings[i] == 0.0
    {
      this.step, this.increments, this.halfLife := step, increments, halfLife;
      timings := new real[NumBuckets(increments)](_ => 0.0);
      total, numerator := 0.0, 0.0;
      new;
      EmptySums(step, timings[..], timings.Length);
    }

    /** setTiming. The running sums follow the change and are kept at or above zero. For a count
        that is not negative the clamps change nothing, so exact sums stay exact. */
    method SetTiming(i: nat, t: real)
      requires i < timings.Length == NumBuckets(increments)
      modifies this`total, this`numerator, timings
      ensures timings[..] == old(timings[..])[i := t]
      ensures total >= 0.0 && numerator >= 0.0
      ensures old(Valid()) && t >= 0.0 ==> Valid()
    {
      hide Times, Start;
      ghost var before := timings[..];
      var start := DurationAt(step, increments, i);
      total := total - timings[i];
      numerator := numerator - Times(timings[i], start as real);
      timings[i] := t;
      total := total + timings[i];
      numerator := numerator + Times(timings[i], start as real);
      assert timings[..] == before[i := t];
      SumUpdate(before, i, t, |before|);
      WeightedUpdate(step, before, i, t, |before|);
      if t >= 0.0 && old(Valid()) {
        SumNonNegative(timings[..], timings.Length);
        WeightedNonNegative(step, timings[..], timings.Length);
      }
      if total < 0.0 {
        total := 0.0;
      }
      if numerator < 0.0 {
        numerator := 0.0;
      }
    }

    /** addDecay. */
    method AddDecay(decay: Option<real>)
      requires Valid() && IsDecay(decay)
      modifies this`total, this`numerator, timings
      ensures Valid() && timings[..] == Decayed(old(timings[..]), decay)
    {
      hide Times, Start;
      if decay.None? {
        return;
      }
      var d := decay.value;
      ghost var target := Scale(timings[..], d);
      total, numerator := 0.0, 0.0;
      for i := 0 to timings.Length
        invariant forall j :: 0 <= j < i ==> timings[j] == target[j]
        invariant forall j :: i <= j < timings.Length ==> timings[j] == old(timings[j])
        invariant total == SumTo(target, i) && numerator == WeightedTo(step, target, i)
      {
        timings[i] := Times(timings[i], d);
        total := total + timings[i];
        var start := DurationAt(step, increments, i);
        numerator := numerator + Times(timings[i], start as real);
      }
      assert timings[..] == target;
      forall i | 0 <= i < |target| ensures target[i] >= 0.0 {
        TimesNonNegative(old(timings[..])[i], d);
      }
    }

    /** AddDataPoint: after the decay, one more data point in the bucket of the duration. */
    method AddDataPoint(dur: int, decay: Option<real>)
      requires Valid() && IsDecay(decay)
      modifies this`total, this`numerator, timings
      ensures Valid()
      ensures dur < 0 ==> timings[..] == old(timings[..])
      ensures dur >= 0 ==>
                var ts, b := Decayed(old(timings[..]), decay), Locate(step, increments, dur).0;
                0 <= b < |ts| && timings[..] == ts[b := ts[b] + 1.0]
    {
      hide Times, Start, Locate, Scale;
      if dur < 0 {
        return;
      }
      LocateRange(step, increments, dur);
      AddDecay(decay);
      var index, _ := IndexForDuration(step, increments, dur);
      SetTiming(index, timings[index] + 1.0);
    }

    /** DataPoints. */
    method DataPoints(decay: Option<real>) returns (points: real)
      requires Valid() && IsDecay(decay)
      modifies this`total, this`numerator, timings
      ensures Valid() && timings[..] == Decayed(old(timings[..]), decay)
      ensures points == Sum(timings[..])
      ensures old(Sum(timings[..])) == 0.0 <==> points == 0.0
    {
      AddDecay(decay);
      if decay.Some? {
        SumScale(old(timings[..]), decay.value, timings.Length);
        TimesZero(old(Sum(timings[..])), decay.value);
      }
      points := total;
    }

    /** Clone: an equal distribution that shares nothing. */
    method Clone() returns (c: Distribution)
      requires Valid()
      ensures fresh(c) && fresh(c.timings) && c.Valid()
      ensures c.step == step && c.increments == increments && c.halfLife == halfLife
      ensures c.timings[..] == timings[..]
    {
      c := new Distribution(step, increments, halfLife);
      for i := 0 to timings.Length
        invariant timings[..] == old(timings[..])
        invariant c.timings.Length == timings.Length && fresh(c) && fresh(c.timings)
        invariant forall j :: 0 <= j < i ==> c.timings[j] == timings[j]
      {
        c.timings[i] := timings[i];
      }
      assert c.timings[..] == timings[..];
      c.total, c.numerator := total, numerator;
    }

    /** ExpectedDuration works on a copy. The running sums give the mean of the full sums, and the
        decay does not matter. */
    method ExpectedDuration(decay: Option<real>) returns (dur: int)
      requires Valid() && IsDecay(decay)
      ensures dur == Expected(step, timings[..])
    {
      var d := Clone();
      var points := d.DataPoints(decay);
      if decay.Some? {
        ExpectedScale(step, timings[..], decay.value);
      }
      if points == 0.0 {
        dur := DurationAt(step, increments, timings.Length - 1);
        return;
      }
      dur := Ratio(d.numerator, points).Floor;
    }

    /** ChanceAfter. */
    method ChanceAfter(dur: int, decay: Option<real>) returns (chance: real)
      requires Valid() && IsDecay(decay)
      modifies this`total, this`numerator, timings
      ensures Valid() && timings[..] == Decayed(old(timings[..]), if dur < 0 then None else decay)
      ensures chance == Chance(step, increments, old(timings[..]), dur)
      ensures dur < 0 || old(Sum(timings[..])) == 0.0 ==> chance == 0.0
    {
      hide Times, Ratio, Locate, Start, Scale;
      if dur < 0 {
        return 0.0;
      }
      var points := DataPoints(decay);
      if decay.Some? {
        ChanceScale(step, increments, old(timings[..]), dur, decay.value);
      }
      if points == 0.0 {
        return 0.0;
      }
      LocateRange(step, increments, dur);
      var count := 0.0;
      var index, fraction := IndexForDuration(step, increments, dur);
      for i := 0 to index
        invariant count == SumTo(timings[..], i)
      {
        count := count + timings[i];
      }
      count := count + Times(fraction, timings[index]);
      chance := Ratio(count, points);
    }

    /** ChancesAfter: at every bucket the chance at its start. */
    method ChancesAfter(decay: Option<real>) returns (chances: seq<real>)
      requires Valid() && IsDecay(decay)
      modifies this`total, this`numerator, timings
      ensures Valid() && timings[..] == Decayed(old(timings[..]), decay)
      ensures |chances| == timings.Length
      ensures forall i :: 0 <= i < |chances| ==>
                chances[i] == Chance(step, increments, old(timings[..]), Start(step, i))
    {
      hide Times, Ratio, Start, Locate, Chance, Scale;
      var points := DataPoints(decay);
      if points == 0.0 {
        NoChances(step, increments, old(timings[..]));
        return seq(timings.Length, _ => 0.0);
      }
      chances := [];
      var count := 0.0;
      ghost var ts := timings[..];
      for i := 0 to timings.Length
        invariant Valid() && timings[..] == ts
        invariant |chances| == i && count == SumTo(timings[..], i)
        invariant forall j :: 0 <= j < i ==> chances[j] == Chance(step, increments, old(timings[..]), Start(step, j))
      {
        ChanceAtStart(step, increments, timings[..], i);
        if decay.Some? {
          ChanceScale(step, increments, old(timings[..]), Start(step, i), decay.value);
        }
        chances := chances + [Ratio(count, points)];
        count := count + timings[i];
      }
    }

    /** PStat: the start of the bucket of the quantile; a bad p gives 0. */
    method PStat(p: real, decay: Option<real>) returns (dur: int)
      requires Valid() && IsDecay(decay)
      modifies this`total, this`numerator, timings
      ensures Valid()
      ensures dur == if p <= 0.0 || p >= 1.0 then 0 else Start(step, Quantile(old(timings[..]), p))
      ensures 0.0 < p < 1.0 && old(Sum(timings[..])) == 0.0 ==> dur == Start(step, timings.Length - 1)
    {
      hide Times, Ratio, Start, Scale;
      if p <= 0.0 || p >= 1.0 {
        return 0;
      }
      var points := DataPoints(decay);
      if decay.Some? {
        QuantileScale(old(timings[..]), p, decay.value);
      }
      if points == 0.0 {
        dur := DurationAt(step, increments, timings.Length - 1);
        return;
      }
      var run := 0.0;
      var index := 0;
      while Ratio(run, points) < p && index < timings.Length - 1
        invariant index < timings.Length && run == SumTo(timings[..], index)
        invariant QuantileFrom(timings[..], p, 0) == QuantileFrom(timings[..], p, index)
        decreases timings.Length - index
      {
        run := run + timings[index];
        index := index + 1;
      }
      dur := DurationAt(step, increments, index);
    }

    /** MergeWith: the other counts are added with a weight, unless the half lives differ or the
        weight is out of range. Merging with itself is allowed. */
    method MergeWith(other: Distribution, weight: real)
      requires Valid() && other.Valid() && other.timings.Length == timings.Length
      modifies this`total, this`numerator, timings
      ensures Valid()
      ensures timings[..] == if halfLife != other.halfLife || weight <= 0.0 || weight > 1.0 then old(timings[..])
                             else Merged(old(timings[..]), old(other.timings[..]), weight)
    {
      hide Times, Start;
      if halfLife != other.halfLife {
        return;
      }
      if weight <= 0.0 || weight > 1.0 {
        return;
      }
      var others := other.timings[..];
      ghost var target := Merged(timings[..], others, weight);
      total, numerator := 0.0, 0.0;
      for i := 0 to timings.Length
        invariant forall j :: 0 <= j < i ==> timings[j] == target[j]
        invariant forall j :: i <= j < timings.Length ==> timings[j] == old(timings[j])
        invariant total == SumTo(target, i) && numerator == WeightedTo(step, target, i)
      {
        timings[i] := timings[i] + Times(others[i], weight);
        total := total + timings[i];
        var start := DurationAt(step, increments, i);
        numerator := numerator + Times(timings[i], start as real);
      }
      assert timings[..] == target;
      MergedNonNegative(old(timings[..]), others, weight);
    }

    /** shift: what a shift would do, without doing it. The share of the earlier buckets is not
        used when there is no earlier bucket. */
    method ShiftInfo(dur: int) returns (index: nat, keep: real, smear: real)
      requires Valid()
      ensures (index, keep, smear) == Cut(step, increments, timings[..], dur)
      ensures index < timings.Length && keep >= 0.0 && smear >= 0.0
    {
      hide Times, Ratio, Locate, Start;
      CutNonNegative(step, increments, timings[..], dur);
      if dur < 0 {
        return 0, 0.0, 0.0;
      }
      LocateRange(step, increments, dur);
      var i, fraction := IndexForDuration(step, increments, dur);
      var value := timings[i];
      keep := Times(1.0 - fraction, value);
      var remainder := Times(fraction, value);
      smear := if i == 0 then 0.0 else Ratio(remainder, i as real);
      index := i;
    }

    /** Shift. */
    method Shift(dur: int)
      requires Valid()
      modifies this`total, this`numerator, timings
      ensures Valid() && timings[..] == Shifted(step, increments, old(timings[..]), dur)
    {
      hide Cut;
      ghost var target := Shifted(step, increments, timings[..], dur);
      var index, keep, smear := ShiftInfo(dur);
      SetTiming(index, keep);
      if index == 0 {
        assert timings[..] == target;
        return;
      }
      for i := 0 to index
        invariant Valid()
        invariant forall j :: 0 <= j < i ==> timings[j] == smear
        invariant forall j :: i <= j < timings.Length ==> timings[j] == if j == index then keep else old(timings[j])
      {
        SetTiming(i, smear);
      }
      assert timings[..] == target;
    }

    /** ExpectedDurationWithShift: the expected duration after a shift, without shifting. */
    method ExpectedDurationWithShift(dur: int) returns (expected: int)
      requires Valid()
      ensures expected == Expected(step, Shifted(step, increments, timings[..], dur))
    {
      hide Times, Ratio, Cut, Start, Shifted;
      var index, keep, smear := ShiftInfo(dur);
      ShiftedParts(step, increments, timings[..], dur);
      ghost var target := Shifted(step, increments, timings[..], dur);
      var points, weighted := 0.0, 0.0;
      var i := 0;
      while i < index && smear > 0.0
        invariant i <= index
        invariant points == SumTo(target, i) && weighted == WeightedTo(step, target, i)
      {
        points := points + smear;
        var start := DurationAt(step, increments, i);
        weighted := weighted + Times(smear, start as real);
        i := i + 1;
      }
      ZeroSums(step, target, i, index);
      var start := DurationAt(step, increments, index);
      points := points + keep;
      weighted := weighted + Times(keep, start as real);
      for j := index + 1 to timings.Length
        invariant points == SumTo(target, j) && weighted == WeightedTo(step, target, j)
      {
        points := points + timings[j];
        var s := DurationAt(step, increments, j);
        weighted := weighted + Times(timings[j], s as real);
      }
      if points == 0.0 {
        expected := DurationAt(step, increments, timings.Length - 1);
        return;
      }
      expected := Ratio(weighted, points).Floor;
    }

    /** Load for one distribution: every count is set to the persisted one. */
    method Load(persisted: seq<real>)
      requires |persisted| == timings.Length == NumBuckets(increments)
      modifies this`total, this`numerator, timings
      ensures timings[..] == persisted
      ensures old(Valid()) && NonNegative(persisted) ==> Valid()
    {
      for j := 0 to timings.Length
        invariant old(Valid()) && NonNegative(persisted) ==> Valid()
        invariant forall k :: 0 <= k < j ==> timings[k] == persisted[k]
      {
        SetTiming(j, persisted[j]);
      }
    }
  }

  /** The shortcut preserves meaning: cloning, shifting the clone and asking for its expected
      duration, under any decay, is the expected duration with shift. */
  method CloneShiftExpect(d: Distribution, dur: int, decay: Option<real>) returns (long: int, short: int)
    requires d.Valid() && IsDecay(decay)
    ensures long == short == Expected(d.step, Shifted(d.step, d.increments, d.timings[..], dur))
    ensures d.timings[..] == old(d.timings[..])
  {
    var c := d.Clone();
    c.Shift(dur);
    long := c.ExpectedDuration(decay);
    short := d.ExpectedDurationWithShift(dur);
  }

  lemma {:induction false} EmptySums(step: nat, ts: Timings, n: nat)
    requires n <= |ts| && forall i :: 0 <= i < |ts| ==> ts[i] == 0.0
    ensures SumTo(ts, n) == 0.0 && WeightedTo(step, ts, n) == 0.0
  {
    hide Start;
    if n > 0 {
      EmptySums(step, ts, n - 1);
    }
  }

  /** Buckets without data add nothing to either sum. */
  lemma {:induction false} ZeroSums(step: nat, ts: Timings, i: nat, n: nat)
    requires i <= n <= |ts| && forall j :: i <= j < n ==> ts[j] == 0.0
    ensures SumTo(ts, n) == SumTo(ts, i) && WeightedTo(step, ts, n) == WeightedTo(step, ts, i)
  {
    hide Start;
    if i < n {
      ZeroSums(step, ts, i, n - 1);
    }
  }

  lemma NoChances(step: nat, increments: nat, ts: Timings)
    requires step > 0 && |ts| == NumBuckets(increments) && Sum(ts) == 0.0
    ensures forall dur :: Chance(step, increments, ts, dur) == 0.0
  {
  }
}
