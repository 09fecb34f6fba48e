/** Largest-remainder apportionment of whole work units over workers of different speed. */
module Apportionment {
  import opened Ordering

  function Sum(s: seq<int>): int {
    if s == [] then 0 else Sum(s[..|s| - 1]) + s[|s| - 1]
  }

  function Total(s: seq<real>): real {
    if s == [] then 0.0 else Total(s[..|s| - 1]) + s[|s| - 1]
  }

  predicate Positive(s: seq<real>) {
    forall i :: 0 <= i < |s| ==> s[i] > 0.0
  }

  lemma {:induction false} TotalPositive(s: seq<real>)
    requires Positive(s)
    ensures Total(s) >= 0.0 && (s != [] ==> Total(s) > 0.0)
  {
    if s != [] {
      TotalPositive(s[..|s| - 1]);
    }
  }

  lemma {:induction false} SumBump(s: seq<int>, i: nat)
    requires i < |s|
    ensures Sum(s[i := s[i] + 1]) == Sum(s) + 1
  {
    var t := s[i := s[i] + 1];
    if i == |s| - 1 {
      assert t[..|s| - 1] == s[..|s| - 1];
    } else {
      SumBump(s[..|s| - 1], i);
      assert t[..|s| - 1] == s[..|s| - 1][i := s[i] + 1];
    }
  }

  // The exact, generally fractional, share of each worker.
  function Quota(units: nat, speed: real, total: real): real
    requires total > 0.0
  {
    units as real * (speed / total)
  }

  function Quotas(units: nat, speeds: seq<real>): (q: seq<real>)
    requires Positive(speeds) && speeds != []
    ensures |q| == |speeds|
  {
    TotalPositive(speeds);
    seq(|speeds|, i requires 0 <= i < |speeds| => Quota(units, speeds[i], Total(speeds)))
  }

  function Frac(x: real): (f: real)
    ensures 0.0 <= f < 1.0
  {
    x - x.Floor as real
  }

  lemma {:induction false} TotalScales(s: seq<real>, t: seq<real>, c: real)
    requires |s| == |t|
    requires forall i :: 0 <= i < |s| ==> t[i] == c * s[i]
    ensures Total(t) == c * Total(s)
  {
    if s != [] {
      TotalScales(s[..|s| - 1], t[..|s| - 1], c);
    }
  }

  lemma QuotaIsScaled(units: nat, speed: real, total: real)
    requires total > 0.0
    ensures Quota(units, speed, total) == (units as real / total) * speed
  {
    var u := units as real;
    var r := speed / total;
    assert speed == r * total;
    var c := u / total;
    assert c * total == u;
    assert c * speed == c * (r * total) == (c * total) * r;
  }

  lemma QuotasAddUp(units: nat, speeds: seq<real>)
    requires Positive(speeds) && speeds != []
    ensures Total(Quotas(units, speeds)) == units as real
  {
    TotalPositive(speeds);
    var c := units as real / Total(speeds);
    forall i | 0 <= i < |speeds| ensures Quotas(units, speeds)[i] == c * speeds[i] {
      QuotaIsScaled(units, speeds[i], Total(speeds));
    }
    TotalScales(speeds, Quotas(units, speeds), c);
    assert c * Total(speeds) == units as real;
  }

  predicate RoundedUp(a: seq<int>, q: seq<real>, i: nat)
    requires |a| == |q| && i < |q|
  {
    a[i] == q[i].Floor + 1
  }

  // Worker i is offered a leftover unit before worker j.
  predicate Ahead(q: seq<real>, i: nat, j: nat)
    requires i < |q| && j < |q|
  {
    Frac(q[i]) > Frac(q[j]) || (Frac(q[i]) == Frac(q[j]) && i < j)
  }

  // The outcome the largest-remainder method is defined by.
  ghost predicate LargestRemainder(a: seq<int>, q: seq<real>, units: int) {
    && |a| == |q|
    && Sum(a) == units
    && (forall i :: 0 <= i < |q| ==> a[i] == q[i].Floor || RoundedUp(a, q, i))
    && (forall i, j :: 0 <= i < |q| && 0 <= j < |q| && Ahead(q, i, j) && RoundedUp(a, q, j) ==> RoundedUp(a, q, i))
  }

  function Floors(q: seq<real>): (f: seq<int>)
    ensures |f| == |q|
  {
    seq(|q|, i requires 0 <= i < |q| => q[i].Floor)
  }

  // The leftover units number fewer than the workers.
  lemma {:induction false} LeftoverBound(q: seq<real>)
    ensures Sum(Floors(q)) as real <= Total(q)
    ensures q != [] ==> Total(q) < Sum(Floors(q)) as real + |q| as real
    ensures q == [] ==> Total(q) == 0.0 == Sum(Floors(q)) as real
  {
    if q != [] {
      var p := q[..|q| - 1];
      LeftoverBound(p);
      assert Floors(q)[..|q| - 1] == Floors(p);
    }
  }

  function FractionKey(q: seq<real>): nat -> Rank {
    (i: nat) => Rank(if i < |q| then -Frac(q[i]) else 0.0, i)
  }

  function Indices(n: nat): (ids: seq<nat>)
    ensures |ids| == n && forall i :: 0 <= i < n ==> ids[i] == i
  {
    if n == 0 then [] else Indices(n - 1) + [n - 1]
  }

  function LeftoverOrder(q: seq<real>): (order: seq<nat>)
    ensures |order| == |q|
  {
    SortBy(FractionKey(q), Indices(|q|))
  }

  // The sorted list of fractions is a permutation of the workers, most deserving first.
  lemma LeftoverOrderFacts(q: seq<real>)
    ensures forall r :: 0 <= r < |q| ==> LeftoverOrder(q)[r] < |q|
    ensures forall r, s :: 0 <= r < s < |q| ==> Ahead(q, LeftoverOrder(q)[r], LeftoverOrder(q)[s])
    ensures forall i: nat :: i < |q| ==> i in LeftoverOrder(q)
  {
    SortBySorts(FractionKey(q), Indices(|q|));
    PermutedIndices(q, LeftoverOrder(q));
  }

  lemma {:induction false} PermutedIndices(q: seq<real>, order: seq<nat>)
    requires multiset(order) == multiset(Indices(|q|)) && SortedBy(FractionKey(q), order) && |order| == |q|
    ensures forall r :: 0 <= r < |q| ==> order[r] < |q|
    ensures forall r, s :: 0 <= r < s < |q| ==> Ahead(q, order[r], order[s])
    ensures forall i: nat :: i < |q| ==> i in order
  {
    var ids := Indices(|q|);
    forall r | 0 <= r < |q| ensures order[r] < |q| {
      assert order[r] in multiset(order);
      assert order[r] in ids;
    }
    forall i: nat | i < |q| ensures i in order {
      assert ids[i] == i;
      assert i in multiset(ids);
    }
    assert Distinct(ids);
    PermutationDistinct(ids, order);
    forall r, s | 0 <= r < s < |q| ensures Ahead(q, order[r], order[s]) {
      assert Precedes(FractionKey(q)(order[r]), FractionKey(q)(order[s]));
    }
  }

  lemma OrderStep(q: seq<real>, order: seq<nat>, r: nat)
    requires r < |order| && forall k :: 0 <= k < |order| ==> order[k] < |q|
    requires forall k, l :: 0 <= k < l < |order| ==> Ahead(q, order[k], order[l])
    ensures order[r] !in order[..r] && forall i :: i in order[..r + 1] <==> i in order[..r] || i == order[r]
  {
    forall s | 0 <= s < r ensures order[s] != order[r] {
      assert Ahead(q, order[s], order[r]);
    }
    assert order[..r + 1] == order[..r] + [order[r]];
  }

  // The allocation loop: floor every quota, then hand the leftover units out one by one.
  method Apportion(units: nat, speeds: seq<real>) returns (floored: seq<int>)
    requires Positive(speeds) && speeds != []
    ensures LargestRemainder(floored, Quotas(units, speeds), units)
  {
    var q := Quotas(units, speeds);
    floored := Floors(q);
    var remainder := units - Sum(floored);
    QuotasAddUp(units, speeds);
    LeftoverBound(q);
    var order := LeftoverOrder(q);
    LeftoverOrderFacts(q);
    var r := 0;
    while r < remainder
      invariant 0 <= r <= remainder < |q| == |floored|
      invariant Sum(floored) == Sum(Floors(q)) + r
      invariant forall i: nat :: i < |q| ==> floored[i] == q[i].Floor + if i in order[..r] then 1 else 0
    {
      var idx := order[r];
      SumBump(floored, idx);
      OrderStep(q, order, r);
      floored := floored[idx := floored[idx] + 1];
      r := r + 1;
    }
    TopOfOrderClosed(q, order, r, floored);
  }

  lemma TopOfOrderClosed(q: seq<real>, order: seq<nat>, r: nat, a: seq<int>)
    requires |order| == |q| == |a| && r <= |q|
    requires forall k :: 0 <= k < |q| ==> order[k] < |q|
    requires forall k, l :: 0 <= k < l < |q| ==> Ahead(q, order[k], order[l])
    requires forall i: nat :: i < |q| ==> i in order
    requires forall i: nat :: i < |q| ==> a[i] == q[i].Floor + if i in order[..r] then 1 else 0
    ensures forall i, j :: 0 <= i < |q| && 0 <= j < |q| && Ahead(q, i, j) && RoundedUp(a, q, j) ==> RoundedUp(a, q, i)
  {
    forall i, j | 0 <= i < |q| && 0 <= j < |q| && Ahead(q, i, j) && RoundedUp(a, q, j) ensures RoundedUp(a, q, i) {
      var k :| 0 <= k < r && order[k] == j;
      assert i in order;
      var l :| 0 <= l < |q| && order[l] == i;
      assert order[..r][l] == i;
    }
  }

  // Properties of the outcome --------------------------------------------------------

  // Summed slack of an allocation over its quotas, split off one worker at a time.
  lemma {:induction false} OnlyRoundUpsCanBalance(a: seq<int>, q: seq<real>, i: nat)
    requires |a| == |q| && i < |q|
    requires forall k :: 0 <= k < |q| ==> a[k] as real >= q[k]
    requires a[i] as real > q[i]
    ensures Sum(a) as real > Total(q)
  {
    var n := |q| - 1;
    if i == n {
      NoLess(a[..n], q[..n]);
    } else {
      OnlyRoundUpsCanBalance(a[..n], q[..n], i);
    }
  }

  lemma {:induction false} NoLess(a: seq<int>, q: seq<real>)
    requires |a| == |q|
    requires forall k :: 0 <= k < |q| ==> a[k] as real >= q[k]
    ensures Sum(a) as real >= Total(q)
  {
    if q != [] {
      NoLess(a[..|q| - 1], q[..|q| - 1]);
    }
  }

  // Every worker receives the floor or the ceiling of its quota.
  lemma FloorOrCeiling(a: seq<int>, q: seq<real>, units: int, i: nat)
    requires LargestRemainder(a, q, units) && Total(q) == units as real && i < |q|
    ensures q[i] - 1.0 < a[i] as real < q[i] + 1.0
    ensures a[i] == q[i].Floor || (a[i] == q[i].Floor + 1 && Frac(q[i]) > 0.0)
  {
    if RoundedUp(a, q, i) && Frac(q[i]) == 0.0 {
      forall k | 0 <= k < |q| ensures a[k] as real >= q[k] {
        if !RoundedUp(a, q, k) && Frac(q[k]) > 0.0 {
          assert Ahead(q, k, i);
        }
      }
      OnlyRoundUpsCanBalance(a, q, i);
    }
  }

  // A strictly larger quota never receives fewer units.
  lemma LargerQuotaNoFewerUnits(a: seq<int>, q: seq<real>, units: int, i: nat, j: nat)
    requires LargestRemainder(a, q, units) && i < |q| && j < |q| && q[i] > q[j]
    ensures a[i] >= a[j]
  {
    if q[i].Floor == q[j].Floor {
      assert Ahead(q, i, j);
    }
  }

  // The definition has one solution: sum, floors and precedence decide every worker.
  lemma LargestRemainderUnique(a: seq<int>, b: seq<int>, q: seq<real>, units: int)
    requires LargestRemainder(a, q, units) && LargestRemainder(b, q, units)
    ensures a == b
  {
    forall i | 0 <= i < |q| ensures a[i] == b[i] {
      NeverFewer(a, b, q, units, i);
      NeverFewer(b, a, q, units, i);
    }
  }

  lemma NeverFewer(a: seq<int>, b: seq<int>, q: seq<real>, units: int, i: nat)
    requires LargestRemainder(a, q, units) && LargestRemainder(b, q, units)
    requires i < |q|
    ensures a[i] >= b[i]
  {
    if a[i] < b[i] {
      forall k | 0 <= k < |q| ensures a[k] <= b[k] {
        assert i == k || Ahead(q, i, k) || Ahead(q, k, i);
      }
      SumStrict(a, b, i);
    }
  }

  lemma {:induction false} SumStrict(a: seq<int>, b: seq<int>, i: nat)
    requires |a| == |b| && i < |a| && a[i] < b[i]
    requires forall k :: 0 <= k < |a| ==> a[k] <= b[k]
    ensures Sum(a) < Sum(b)
  {
    var n := |a| - 1;
    if i == n {
      SumMonotone(a[..n], b[..n]);
    } else {
      SumStrict(a[..n], b[..n], i);
    }
  }

  lemma {:induction false} SumMonotone(a: seq<int>, b: seq<int>)
    requires |a| == |b| && forall k :: 0 <= k < |a| ==> a[k] <= b[k]
    ensures Sum(a) <= Sum(b)
  {
    if a != [] {
      SumMonotone(a[..|a| - 1], b[..|a| - 1]);
    }
  }

  // Total absolute deviation from the quotas -----------------------------------------

  function Distance(x: int, q: real): real {
    if x as real >= q then x as real - q else q - x as real
  }

  function Deviation(a: seq<int>, q: seq<real>): real
    requires |a| == |q|
  {
    if q == [] then 0.0 else Deviation(a[..|q| - 1], q[..|q| - 1]) + Distance(a[|q| - 1], q[|q| - 1])
  }

  // The fraction separating the workers rounded up from the workers rounded down.
  predicate Threshold(a: seq<int>, q: seq<real>, theta: real)
    requires |a| == |q|
  {
    && 0.0 <= theta <= 1.0
    && forall i :: 0 <= i < |q| ==>
      (a[i] == q[i].Floor && Frac(q[i]) <= theta) || (RoundedUp(a, q, i) && Frac(q[i]) >= theta)
  }

  lemma ThresholdExists(a: seq<int>, q: seq<real>, units: int) returns (theta: real)
    requires LargestRemainder(a, q, units)
    ensures Threshold(a, q, theta)
  {
    theta := 1.0;
    var n := 0;
    while n < |q|
      invariant 0 <= n <= |q| && 0.0 <= theta <= 1.0
      invariant forall i :: 0 <= i < n && RoundedUp(a, q, i) ==> Frac(q[i]) >= theta
      invariant theta == 1.0 || exists i :: 0 <= i < n && RoundedUp(a, q, i) && Frac(q[i]) == theta
    {
      if RoundedUp(a, q, n) && Frac(q[n]) < theta {
        theta := Frac(q[n]);
      }
      n := n + 1;
    }
    forall i | 0 <= i < |q| && a[i] == q[i].Floor ensures Frac(q[i]) <= theta {
      if theta < 1.0 {
        var j :| 0 <= j < |q| && RoundedUp(a, q, j) && Frac(q[j]) == theta;
        assert !Ahead(q, i, j);
      }
    }
  }

  lemma ProductSign(a: real, b: real)
    requires a >= 0.0 && b >= 0.0
    ensures a * b >= 0.0
  {}

  function Priced(x: int, q: real, theta: real): real {
    Distance(x, q) - (1.0 - 2.0 * theta) * x as real
  }

  // With a price of 1 - 2*theta per unit, no worker prefers any other whole number.
  lemma PricedChoiceIsBest(x: int, y: int, q: real, theta: real)
    requires 0.0 <= theta <= 1.0
    requires (x == q.Floor && Frac(q) <= theta) || (x == q.Floor + 1 && Frac(q) >= theta)
    ensures Priced(x, q, theta) <= Priced(y, q, theta)
  {
    var d := y as real - x as real;
    assert Priced(y, q, theta) - Priced(x, q, theta) == Distance(y, q) - Distance(x, q) - d + 2.0 * (theta * d);
    if y > x {
      ProductSign(theta, d - 1.0);
    } else if y < x {
      ProductSign(1.0 - theta, -d - 1.0);
      assert (1.0 - theta) * (-d - 1.0) == -d - 1.0 + theta * d + theta;
    }
  }

  function PricedTotal(a: seq<int>, q: seq<real>, theta: real): real
    requires |a| == |q|
  {
    Deviation(a, q) - (1.0 - 2.0 * theta) * Sum(a) as real
  }

  lemma {:induction false} PricedTotalSplits(a: seq<int>, q: seq<real>, theta: real)
    requires |a| == |q| > 0
    ensures PricedTotal(a, q, theta) == PricedTotal(a[..|q| - 1], q[..|q| - 1], theta) + Priced(a[|q| - 1], q[|q| - 1], theta)
  {
    var p, x, y := 1.0 - 2.0 * theta, Sum(a[..|q| - 1]) as real, a[|q| - 1] as real;
    assert p * (x + y) == p * x + p * y;
  }

  lemma {:induction false} PricedSum(a: seq<int>, b: seq<int>, q: seq<real>, theta: real)
    requires |a| == |b| == |q| && Threshold(a, q, theta)
    ensures PricedTotal(a, q, theta) <= PricedTotal(b, q, theta)
  {
    var n := |q| - 1;
    if q != [] {
      assert Threshold(a[..n], q[..n], theta) by {
        forall i | 0 <= i < n ensures RoundedUp(a[..n], q[..n], i) == RoundedUp(a, q, i) {}
      }
      PricedSum(a[..n], b[..n], q[..n], theta);
      PricedChoiceIsBest(a[n], b[n], q[n], theta);
      PricedTotalSplits(a, q, theta);
      PricedTotalSplits(b, q, theta);
    }
  }

  lemma {:induction false} SamePrice(a: seq<int>, q: seq<real>, theta: real, units: int)
    requires |a| == |q| && Sum(a) == units
    ensures PricedTotal(a, q, theta) == Deviation(a, q) - (1.0 - 2.0 * theta) * units as real
  {
  }

  // No whole-number allocation of the same units lies closer to the quotas.
  lemma {:induction false} LeastTotalDeviation(a: seq<int>, b: seq<int>, q: seq<real>, units: int)
    requires LargestRemainder(a, q, units) && |b| == |q| && Sum(b) == units
    ensures Deviation(a, q) <= Deviation(b, q)
  {
    var theta := ThresholdExists(a, q, units);
    PricedSum(a, b, q, theta);
    SamePrice(a, q, theta, units);
    SamePrice(b, q, theta, units);
  }
}
