/** parsePercentages: largest-remainder rounding to percentages that add up to 100. */
module Percentages {

  /** The fractional part as math.Modf gives it: with the sign of the value. */
  function Frac(v: real): real {
    if v >= 0.0 then v - v.Floor as real else v + (-v).Floor as real
  }

  datatype PercentInfo = PercentInfo(index: nat, floorVal: int, originalVal: real)

  function Sum(v: seq<real>): real {
    if v == [] then 0.0 else v[0] + Sum(v[1..])
  }

  function SumFloors(v: seq<real>): int {
    if v == [] then 0 else v[0].Floor + SumFloors(v[1..])
  }

  /** How many values are rounded up: what is missing to 100, if there are that many values. */
  function RoundedUp(v: seq<real>): nat {
    var diff := 100 - SumFloors(v);
    if diff <= 0 then 0 else if diff < |v| then diff else |v|
  }

  /** Every value is its floor or one more at its own place, as many as needed are rounded up, and none
      of them has a smaller fraction than one that is not. */
  ghost predicate LargestRemainder(v: seq<real>, r: seq<real>) {
    && |r| == |v|
    && (forall i :: 0 <= i < |v| ==> r[i] == v[i].Floor as real || r[i] == (v[i].Floor + 1) as real)
    && SumFloors(r) == SumFloors(v) + RoundedUp(v)
    && (forall i, j :: 0 <= i < |v| && 0 <= j < |v| && r[i] > v[i].Floor as real && r[j] == v[j].Floor as real ==>
          Frac(v[i]) >= Frac(v[j]))
    && (forall i, j ::
          0 <= i < |v| && 0 <= j < |v| && r[i] > v[i].Floor as real && r[j] == v[j].Floor as real &&
          v[i] >= 0.0 && v[j] >= 0.0 ==>
            v[i] - v[i].Floor as real >= v[j] - v[j].Floor as real)
  }

  // ----- Sorting ---------------------------------------------------------------------------

  /** p and q are permutations that undo each other. */
  ghost predicate Inverse(p: seq<nat>, q: seq<nat>) {
    && |p| == |q|
    && (forall k :: 0 <= k < |p| ==> p[k] < |p| && q[p[k]] == k)
    && (forall k :: 0 <= k < |q| ==> q[k] < |q| && p[q[k]] == k)
  }

  ghost predicate Permuted(s: seq<PercentInfo>, t: seq<PercentInfo>, p: seq<nat>, q: seq<nat>) {
    && |s| == |t| == |p| && Inverse(p, q)
    && forall k :: 0 <= k < |t| ==> t[k] == s[p[k]]
  }

  predicate Descending(s: seq<PercentInfo>) {
    forall j, k :: 0 <= j < k < |s| ==> Frac(s[j].originalVal) >= Frac(s[k].originalVal)
  }

  function Swap<T>(s: seq<T>, j: nat): (r: seq<T>)
    requires 0 < j < |s|
    ensures |r| == |s| && r[j] == s[j - 1] && r[j - 1] == s[j]
    ensures forall k :: 0 <= k < |s| && k != j && k != j - 1 ==> r[k] == s[k]
  {
    s[j := s[j - 1]][j - 1 := s[j]]
  }

  lemma SwapPermuted(s: seq<PercentInfo>, t: seq<PercentInfo>, p: seq<nat>, q: seq<nat>, j: nat)
    returns (p': seq<nat>, q': seq<nat>)
    requires Permuted(s, t, p, q) && 0 < j < |t|
    ensures Permuted(s, Swap(t, j), p', q')
  {
    p' := Swap(p, j);
    q' := q[p[j] := j - 1][p[j - 1] := j];
  }

  /** Everything up to i is in order, except that element j may belong further to the front. */
  ghost predicate Inserting(s: seq<PercentInfo>, i: nat, j: nat)
    requires j <= i < |s|
  {
    forall x, y :: 0 <= x < y <= i && y != j ==> Frac(s[x].originalVal) >= Frac(s[y].originalVal)
  }

  lemma SwapInserting(s: seq<PercentInfo>, i: nat, j: nat)
    requires 0 < j <= i < |s| && Inserting(s, i, j) && Frac(s[j - 1].originalVal) < Frac(s[j].originalVal)
    ensures Inserting(Swap(s, j), i, j - 1)
  {
    hide Frac;
    var t := Swap(s, j);
    forall x, y | 0 <= x < y <= i && y != j - 1 ensures Frac(t[x].originalVal) >= Frac(t[y].originalVal) {
      if y == j && x < j - 1 {
        assert Frac(s[x].originalVal) >= Frac(s[j - 1].originalVal);
      } else if y == j {
        assert t[x] == s[j] && t[y] == s[j - 1];
      } else if x == j {
        assert t[x] == s[j - 1] && Frac(s[j - 1].originalVal) >= Frac(s[y].originalVal);
      } else if x == j - 1 {
        assert t[x] == s[j] && Frac(s[j].originalVal) >= Frac(s[y].originalVal);
      }
    }
  }

  lemma Inserted(s: seq<PercentInfo>, i: nat, j: nat)
    requires j <= i < |s| && Inserting(s, i, j)
    requires j == 0 || Frac(s[j - 1].originalVal) >= Frac(s[j].originalVal)
    ensures Descending(s[..i + 1])
  {
    hide Frac;
    var t := s[..i + 1];
    forall x, y | 0 <= x < y < |t| ensures Frac(t[x].originalVal) >= Frac(t[y].originalVal) {
      if y == j && x < j - 1 {
        assert Frac(s[x].originalVal) >= Frac(s[j - 1].originalVal);
      }
    }
  }

  /** Move element i to its place among the sorted elements before it. */
  method Insert(a: array<PercentInfo>, i: nat, ghost s: seq<PercentInfo>, ghost p0: seq<nat>, ghost q0: seq<nat>)
    returns (ghost p: seq<nat>, ghost q: seq<nat>)
    requires i < a.Length && Descending(a[..i]) && Permuted(s, a[..], p0, q0)
    modifies a
    ensures Permuted(s, a[..], p, q) && Descending(a[..i + 1])
  {
    p, q := p0, q0;
    var j := i;
    StartInserting(a[..], i);
    hide Frac, Permuted, Inserting, Descending;
    while j > 0 && Frac(a[j - 1].originalVal) < Frac(a[j].originalVal)
      invariant 0 <= j <= i && Permuted(s, a[..], p, q) && Inserting(a[..], i, j)
    {
      ghost var before := a[..];
      a[j], a[j - 1] := a[j - 1], a[j];
      assert a[..] == Swap(before, j);
      SwapInserting(before, i, j);
      p, q := SwapPermuted(s, before, p, q, j);
      j := j - 1;
    }
    Inserted(a[..], i, j);
    assert a[..][..i + 1] == a[..i + 1];
  }

  lemma StartInserting(s: seq<PercentInfo>, i: nat)
    requires i < |s| && Descending(s[..i])
    ensures Inserting(s, i, i)
  {
    hide Frac;
    forall x, y | 0 <= x < y <= i && y != i ensures Frac(s[x].originalVal) >= Frac(s[y].originalVal) {
      assert s[..i][x] == s[x] && s[..i][y] == s[y];
    }
  }

  /** Sort by fraction, the largest first. Nothing is promised about the order of equal fractions. */
  method SortByFraction(a: array<PercentInfo>) returns (ghost p: seq<nat>, ghost q: seq<nat>)
    modifies a
    ensures Permuted(old(a[..]), a[..], p, q) && Descending(a[..])
  {
    p, q := seq(a.Length, i => i), seq(a.Length, i => i);
    assert Permuted(a[..], a[..], p, q) && Descending(a[..0]);
    hide Permuted, Descending;
    for i := 0 to a.Length
      invariant Permuted(old(a[..]), a[..], p, q) && Descending(a[..i])
    {
      p, q := Insert(a, i, old(a[..]), p, q);
    }
    assert a[..a.Length] == a[..];
  }

  // ----- Rounding --------------------------------------------------------------------------

  lemma {:induction false} SumFloorsAppend(v: seq<real>, x: real)
    ensures SumFloors(v + [x]) == SumFloors(v) + x.Floor
  {
    if v != [] {
      SumFloorsAppend(v[1..], x);
      assert (v + [x])[1..] == v[1..] + [x];
    }
  }

  lemma {:induction false} SumFloorsUpdate(v: seq<real>, i: nat, x: real)
    requires i < |v|
    ensures SumFloors(v[i := x]) == SumFloors(v) - v[i].Floor + x.Floor
  {
    if i > 0 {
      SumFloorsUpdate(v[1..], i - 1, x);
      assert v[i := x][1..] == v[1..][i - 1 := x];
    } else {
      assert v[i := x][1..] == v[1..];
    }
  }

  /** The infos in their sorted order: the first `done` are rounded up, the others hold the floors. */
  ghost predicate Raised(v: seq<real>, s: seq<PercentInfo>, p: seq<nat>, done: nat) {
    && |s| == |p| == |v|
    && forall k :: 0 <= k < |s| ==>
         p[k] < |v| && s[k] == PercentInfo(p[k], v[p[k]].Floor + if k < done then 1 else 0, v[p[k]])
  }

  /** The rounded values: those at places up to `done` in the sorted order are one above their floor. */
  ghost function Result(v: seq<real>, q: seq<nat>, done: nat): (r: seq<real>)
    requires |q| == |v|
    ensures |r| == |v|
  {
    seq(|v|, i requires 0 <= i < |v| => (v[i].Floor + if q[i] < done then 1 else 0) as real)
  }

  lemma FloorOfInt(n: int)
    ensures (n as real).Floor == n
  {
  }

  /** Each raised value adds one. */
  lemma {:induction false} SumOfResult(v: seq<real>, p: seq<nat>, q: seq<nat>, done: nat)
    requires |p| == |v| == |q| && Inverse(p, q) && done <= |v|
    ensures SumFloors(Result(v, q, done)) == SumFloors(v) + done
  {
    hide Inverse;
    if done == 0 {
      SameFloors(Result(v, q, 0), v);
    } else {
      SumOfResult(v, p, q, done - 1);
      NextRaised(v, p, q, done - 1);
      SumFloorsUpdate(Result(v, q, done - 1), p[done - 1], (v[p[done - 1]].Floor + 1) as real);
    }
  }

  lemma NextRaised(v: seq<real>, p: seq<nat>, q: seq<nat>, k: nat)
    requires |p| == |v| && Inverse(p, q) && k < |v|
    ensures p[k] < |v| && Result(v, q, k)[p[k]].Floor == v[p[k]].Floor
    ensures Result(v, q, k + 1) == Result(v, q, k)[p[k] := (v[p[k]].Floor + 1) as real]
  {
    FloorOfInt(v[p[k]].Floor);
    var r, t := Result(v, q, k + 1), Result(v, q, k)[p[k] := (v[p[k]].Floor + 1) as real];
    forall i | 0 <= i < |v| ensures r[i] == t[i] {
    }
  }

  lemma {:induction false} SameFloors(r: seq<real>, v: seq<real>)
    requires |r| == |v| && forall i :: 0 <= i < |v| ==> r[i].Floor == v[i].Floor
    ensures SumFloors(r) == SumFloors(v)
  {
    if v != [] {
      SameFloors(r[1..], v[1..]);
    }
  }

  /** After sorting, every info sits where the permutation says. */
  lemma SortedInfos(v: seq<real>, infos: seq<PercentInfo>, s: seq<PercentInfo>, p: seq<nat>, q: seq<nat>)
    requires |infos| == |v| && forall i :: 0 <= i < |v| ==> infos[i] == PercentInfo(i, v[i].Floor, v[i])
    requires Permuted(infos, s, p, q)
    ensures |p| == |v| && Inverse(p, q) && Raised(v, s, p, 0)
  {
  }

  lemma AllPlaced(values: seq<real>, v: seq<real>, p: seq<nat>, q: seq<nat>, k: nat)
    requires |values| == |v| == |p| && Inverse(p, q)
    requires forall i :: 0 <= i < |p| ==> values[p[i]] == Result(v, q, k)[p[i]]
    ensures values == Result(v, q, k)
  {
    forall i | 0 <= i < |v| ensures values[i] == Result(v, q, k)[i] {
      assert p[q[i]] == i;
    }
  }

  lemma ResultIsLargestRemainder(v: seq<real>, s: seq<PercentInfo>, p: seq<nat>, q: seq<nat>)
    requires |p| == |v| && Inverse(p, q) && Raised(v, s, p, 0) && Descending(s)
    ensures LargestRemainder(v, Result(v, q, RoundedUp(v)))
  {
    var k := RoundedUp(v);
    SumOfResult(v, p, q, k);
    hide Frac, SumFloors, RoundedUp;
    var r := Result(v, q, k);
    forall i, j | 0 <= i < |v| && 0 <= j < |v| && r[i] > v[i].Floor as real && r[j] == v[j].Floor as real
      ensures Frac(v[i]) >= Frac(v[j])
    {
      assert q[i] < k <= q[j];
      assert s[q[i]].originalVal == v[i] && s[q[j]].originalVal == v[j];
    }
  }

  /** One info for every value, and the sum of their floors. */
  method Floors(values: array<real>) returns (percentages: array<PercentInfo>, subTotal: int)
    ensures fresh(percentages) && percentages.Length == values.Length && subTotal == SumFloors(values[..])
    ensures forall i :: 0 <= i < values.Length ==> percentages[i] == PercentInfo(i, values[i].Floor, values[i])
  {
    hide SumFloors;
    percentages := new PercentInfo[values.Length];
    subTotal := 0;
    NoFloors();
    for i := 0 to values.Length
      invariant subTotal == SumFloors(values[..i])
      invariant forall j :: 0 <= j < i ==> percentages[j] == PercentInfo(j, values[j].Floor, values[j])
    {
      percentages[i] := PercentInfo(i, values[i].Floor, values[i]);
      assert values[..i + 1] == values[..i] + [values[i]];
      SumFloorsAppend(values[..i], values[i]);
      subTotal := subTotal + percentages[i].floorVal;
    }
    assert values[..values.Length] == values[..];
  }

  lemma NoFloors()
    ensures SumFloors([]) == 0
  {
  }

  /** Round up from the largest fraction on, until nothing is missing to 100. */
  method RoundUpLargest(percentages: array<PercentInfo>, diff: int, ghost v: seq<real>, ghost p: seq<nat>)
    returns (ghost k: nat)
    requires Raised(v, percentages[..], p, 0)
    modifies percentages
    ensures k == (if diff <= 0 then 0 else if diff < |v| then diff else |v|) && Raised(v, percentages[..], p, k)
  {
    var missing, i := diff, 0;
    while i < percentages.Length && missing > 0
      invariant 0 <= i <= percentages.Length && missing == diff - i && (i > 0 ==> missing >= 0)
      invariant Raised(v, percentages[..], p, i)
    {
      percentages[i] := percentages[i].(floorVal := percentages[i].floorVal + 1);
      missing := missing - 1;
      i := i + 1;
    }
    k := i;
  }

  /** Put every value back in its place. */
  method PlaceBack(values: array<real>, percentages: array<PercentInfo>, ghost v: seq<real>, ghost p: seq<nat>,
                   ghost q: seq<nat>, ghost k: nat)
    requires values.Length == |v| && |p| == |v| && Inverse(p, q) && Raised(v, percentages[..], p, k)
    modifies values
    ensures values[..] == Result(v, q, k)
  {
    for j := 0 to percentages.Length
      invariant forall i :: 0 <= i < j ==> values[p[i]] == Result(v, q, k)[p[i]]
    {
      InfoAt(v, percentages[..], p, q, k, j);
      values[percentages[j].index] := percentages[j].floorVal as real;
    }
    AllPlaced(values[..], v, p, q, k);
  }

  lemma InfoAt(v: seq<real>, s: seq<PercentInfo>, p: seq<nat>, q: seq<nat>, k: nat, j: nat)
    requires |p| == |v| && Inverse(p, q) && Raised(v, s, p, k) && j < |s|
    ensures s[j].index == p[j] < |v| && s[j].floorVal as real == Result(v, q, k)[p[j]]
    ensures forall i :: 0 <= i < |s| ==> p[i] < |v| && (p[i] == p[j] ==> i == j)
  {
    assert q[p[j]] == j;
  }

  /** parsePercentages, in place. */
  method ParsePercentages(values: array<real>)
    modifies values
    ensures LargestRemainder(old(values[..]), values[..])
  {
    hide Frac, Permuted, LargestRemainder, SumFloors, Descending, Inverse, Raised, Result;
    ghost var v := values[..];
    var percentages, subTotal := Floors(values);
    ghost var infos := percentages[..];
    ghost var p, q := SortByFraction(percentages);
    SortedInfos(v, infos, percentages[..], p, q);
    ResultIsLargestRemainder(v, percentages[..], p, q);
    ghost var k := RoundUpLargest(percentages, 100 - subTotal, v, p);
    PlaceBack(values, percentages, v, p, q, k);
  }

  // ----- What the rounding achieves --------------------------------------------------------

  ghost predicate AllIntegers(r: seq<real>) {
    forall i :: 0 <= i < |r| ==> r[i] == r[i].Floor as real
  }

  lemma {:induction false} SumOfIntegers(r: seq<real>)
    requires AllIntegers(r)
    ensures Sum(r) == SumFloors(r) as real
  {
    if r != [] {
      SumOfIntegers(r[1..]);
    }
  }

  /** The floors miss less than one per value. */
  lemma {:induction false} FloorsMissLittle(v: seq<real>)
    ensures SumFloors(v) as real <= Sum(v)
    ensures v != [] ==> Sum(v) < (SumFloors(v) + |v|) as real
  {
    if v != [] {
      FloorsMissLittle(v[1..]);
    }
  }

  lemma ResultIsIntegral(v: seq<real>, r: seq<real>)
    requires LargestRemainder(v, r)
    ensures AllIntegers(r)
  {
    forall i | 0 <= i < |r| ensures r[i] == r[i].Floor as real {
      FloorOfInt(v[i].Floor);
      FloorOfInt(v[i].Floor + 1);
    }
  }

  /** For any values the result adds up to 100 if and only if the floors miss 100 by at most one for
      every value. */
  lemma SumIs100Iff(v: seq<real>, r: seq<real>)
    requires LargestRemainder(v, r)
    ensures Sum(r) == 100.0 <==> 0 <= 100 - SumFloors(v) <= |v|
  {
    ResultIsIntegral(v, r);
    SumOfIntegers(r);
  }

  /** So percentages stay percentages. */
  lemma SumStays100(v: seq<real>, r: seq<real>)
    requires LargestRemainder(v, r) && Sum(v) == 100.0
    ensures Sum(r) == 100.0
  {
    FloorsMissLittle(v);
    SumIs100Iff(v, r);
  }

  /** If only integers keep their floor, every raised value adds to the sum. */
  lemma {:induction false} RaisedBelowCount(v: seq<real>, r: seq<real>)
    requires |r| == |v|
    requires forall i :: 0 <= i < |v| ==> r[i] == v[i].Floor as real || r[i] == (v[i].Floor + 1) as real
    requires forall i :: 0 <= i < |v| && r[i] == v[i].Floor as real ==> v[i] == v[i].Floor as real
    ensures Sum(v) <= Sum(r)
    ensures Sum(v) == Sum(r) ==> forall i :: 0 <= i < |v| ==> r[i] == v[i].Floor as real
  {
    if v != [] {
      assert forall i :: 0 <= i < |v| - 1 ==> r[1..][i] == r[i + 1] && v[1..][i] == v[i + 1];
      RaisedBelowCount(v[1..], r[1..]);
      assert v[0] < (v[0].Floor + 1) as real;
      forall i | Sum(v) == Sum(r) && 0 <= i < |v| ensures r[i] == v[i].Floor as real {
        assert i > 0 ==> r[i] == r[1..][i - 1];
      }
    }
  }

  /** Values that are not negative and add up to 100: integers stay as they are, and every other value
      becomes one of its two neighbours. */
  lemma IntegersStay(v: seq<real>, r: seq<real>, i: nat)
    requires LargestRemainder(v, r) && Sum(v) == 100.0
    requires forall j :: 0 <= j < |v| ==> v[j] >= 0.0
    requires i < |v| && v[i] == v[i].Floor as real
    ensures r[i] == v[i]
  {
    if r[i] != v[i] {
      forall j | 0 <= j < |v| && r[j] == v[j].Floor as real ensures v[j] == v[j].Floor as real {
        assert Frac(v[i]) >= Frac(v[j]);
      }
      SumStays100(v, r);
      RaisedBelowCount(v, r);
      assert false;
    }
  }
}
