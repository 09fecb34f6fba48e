/** Cluster sizing: how many workers a partitionable workload should recruit. */
module Sizing {
  import opened Wrappers
  import opened Ordering
  import opened Apportionment

  // Inputs -------------------------------------------------------------------------------

  datatype Profile = Profile(id: nat, cached: set<nat>)

  datatype Request = Request(
    units: nat, unitSeconds: Option<real>,
    deadlineSeconds: Option<real>, deadlineAt: Option<real>,
    partitionable: bool, minUnitsPerWorker: nat, maxWorkers: Option<nat>,
    inputs: set<nat>, assetSizes: map<nat, nat>, speeds: map<nat, real>,
    bandwidth: Option<real>, overhead: Option<real>, threshold: Option<real>)
  {
    // The bounds the request schema enforces on construction.
    predicate Valid() {
      && units >= 1 && minUnitsPerWorker >= 1
      && (unitSeconds.Some? ==> unitSeconds.value > 0.0)
      && (deadlineSeconds.Some? ==> deadlineSeconds.value > 0.0)
      && (deadlineAt.Some? ==> deadlineAt.value > 0.0)
      && (maxWorkers.Some? ==> maxWorkers.value >= 1)
      && (bandwidth.Some? ==> bandwidth.value > 0.0)
      && (overhead.Some? ==> overhead.value >= 0.0)
      && (threshold.Some? ==> 0.0 < threshold.value <= 1.0)
    }
  }

  predicate IsSmallest(s: set<nat>, h: nat) {
    h in s && forall k :: k in s ==> h <= k
  }

  function BytesOf(hashes: set<nat>, sizes: map<nat, nat>): nat {
    if hashes == {} then 0 else
      Smallest(hashes);
      var h :| h in hashes && IsSmallest(hashes, h);
      (if h in sizes then sizes[h] else 0) + BytesOf(hashes - {h}, sizes)
  }

  lemma {:induction false} Smallest(s: set<nat>)
    requires s != {}
    ensures exists h :: IsSmallest(s, h)
  {
    var x :| x in s;
    if s == {x} {
      assert IsSmallest(s, x);
    } else {
      Smallest(s - {x});
      var h :| IsSmallest(s - {x}, h);
      var low := if x <= h then x else h;
      assert forall k :: k in s ==> k == x || k in s - {x};
      assert IsSmallest(s, low);
    }
  }

  lemma {:induction false} BytesRemove(s: set<nat>, sizes: map<nat, nat>, h: nat)
    requires h in s
    ensures BytesOf(s, sizes) == (if h in sizes then sizes[h] else 0) + BytesOf(s - {h}, sizes)
  {
    Smallest(s);
    var o :| o in s && IsSmallest(s, o) && BytesOf(s, sizes) == (if o in sizes then sizes[o] else 0) + BytesOf(s - {o}, sizes);
    if o != h {
      BytesRemove(s - {o}, sizes, h);
      BytesRemove(s - {h}, sizes, o);
      assert s - {o} - {h} == s - {h} - {o};
    }
  }

  // The total of the known sizes: nothing for no hash, and each further hash adds its size, if known.
  lemma BytesAdd(s: set<nat>, sizes: map<nat, nat>, h: nat)
    requires h !in s
    ensures BytesOf({}, sizes) == 0
    ensures BytesOf(s + {h}, sizes) == BytesOf(s, sizes) + if h in sizes then sizes[h] else 0
  {
    BytesRemove(s + {h}, sizes, h);
    assert s + {h} - {h} == s;
  }

  // A worker as the timing model sees it.
  datatype Worker = Worker(id: nat, speed: real, missingBytes: nat, transfer: real)

  function TransferTime(missing: nat, bandwidth: real): (t: real)
    ensures t >= 0.0
  {
    if bandwidth <= 0.0 then 0.0 else
      var t := missing as real / bandwidth;
      assert t * bandwidth == missing as real;
      PositiveFactor(t, bandwidth);
      t
  }

  function WorkerOf(r: Request, bandwidth: real, p: Profile): (w: Worker)
    ensures w.id == p.id && w.speed > 0.0 && w.transfer >= 0.0
  {
    var s := if p.id in r.speeds then r.speeds[p.id] else 1.0;
    var missing := BytesOf(r.inputs - p.cached, r.assetSizes);
    Worker(p.id, if s > 0.01 then s else 0.01, missing, TransferTime(missing, bandwidth))
  }

  // What the timing model says of a profile: the bytes of the inputs it has not cached, the time to
  // move them, and its speed of at least a hundredth.
  predicate Describes(r: Request, bandwidth: real, p: Profile, w: Worker) {
    && w.id == p.id
    && w.missingBytes == BytesOf((set h | h in r.inputs && h !in p.cached), r.assetSizes)
    && (if bandwidth > 0.0 then w.transfer * bandwidth == w.missingBytes as real else w.transfer == 0.0)
    && (var s := if p.id in r.speeds then r.speeds[p.id] else 1.0; w.speed >= 0.01 && w.speed >= s && w.speed in {0.01, s})
  }

  lemma DescribedIff(r: Request, bandwidth: real, p: Profile, w: Worker)
    ensures Describes(r, bandwidth, p, w) <==> w == WorkerOf(r, bandwidth, p)
  {
    var v := WorkerOf(r, bandwidth, p);
    var missing := set h | h in r.inputs && h !in p.cached;
    assert missing == r.inputs - p.cached;
    assert v.missingBytes == BytesOf(missing, r.assetSizes);
    if Describes(r, bandwidth, p, w) {
      assert w.missingBytes == v.missingBytes;
      assert w.speed == v.speed;
    }
    TransferIff(WorkerOf(r, bandwidth, p).missingBytes, bandwidth, w.transfer);
  }

  lemma TransferIff(missing: nat, bandwidth: real, t: real)
    ensures t == TransferTime(missing, bandwidth) <==> if bandwidth > 0.0 then t * bandwidth == missing as real else t == 0.0
  {
    if bandwidth > 0.0 && t * bandwidth == missing as real {
      SameQuotient(t, TransferTime(missing, bandwidth), bandwidth);
    }
  }

  lemma SameQuotient(a: real, b: real, y: real)
    requires y > 0.0 && a * y == b * y
    ensures a == b
  {
    assert (a - b) * y == 0.0;
  }

  // Outputs ------------------------------------------------------------------------------

  datatype Detail = Detail(id: nat, speed: real, missingBytes: nat, transfer: real, units: int, compute: real, finish: real)

  datatype Evaluation = Evaluation(
    groupSize: nat, ids: seq<nat>, aggregateSpeed: real, maxTransfer: real, compute: real,
    coordination: real, wall: real, speedup: real, marginal: real, meetsDeadline: bool)

  datatype Policy = SingleWorkerSufficient | DeadlineDrivenMinimal | EfficiencyThroughput
                  | TransferOverheadHalt | DiminishingReturns | NonPartitionable

  datatype Feasibility = Feasible | InfeasibleDeadline | UnschedulableConstraints | UnknownEstimate

  datatype Decision = Decision(
    policy: Policy, feasibility: Feasibility, count: nat, selected: seq<nat>, spare: seq<nat>,
    wall: real, deadline: Option<real>, achievable: bool, details: seq<Detail>, evaluations: seq<Evaluation>)

  // Timing of one group --------------------------------------------------------------------

  function Speeds(ws: seq<Worker>): (s: seq<real>)
    ensures |s| == |ws|
  {
    seq(|ws|, i requires 0 <= i < |ws| => ws[i].speed)
  }

  function Ids(ws: seq<Worker>): (s: seq<nat>)
    ensures |s| == |ws|
  {
    seq(|ws|, i requires 0 <= i < |ws| => ws[i].id)
  }

  function Units(ds: seq<Detail>): (s: seq<int>)
    ensures |s| == |ds|
  {
    seq(|ds|, i requires 0 <= i < |ds| => ds[i].units)
  }

  predicate PositiveSpeeds(ws: seq<Worker>) {
    forall i :: 0 <= i < |ws| ==> ws[i].speed > 0.0
  }

  function DetailOf(w: Worker, n: int, unitSeconds: real): Detail
    requires w.speed > 0.0
  {
    var compute := if n > 0 then (n as real * unitSeconds) / w.speed else 0.0;
    Detail(w.id, w.speed, w.missingBytes, w.transfer, n, compute, w.transfer + compute)
  }

  ghost predicate IsMax(m: real, s: seq<real>) {
    m in s && forall i :: 0 <= i < |s| ==> s[i] <= m
  }

  method MaxOf(s: seq<real>) returns (m: real)
    requires s != []
    ensures IsMax(m, s)
  {
    m := s[0];
    for i := 1 to |s|
      invariant m in s && forall j :: 0 <= j < i ==> s[j] <= m
    {
      if s[i] > m { m := s[i]; }
    }
  }

  function Finishes(ds: seq<Detail>): seq<real> {
    seq(|ds|, i requires 0 <= i < |ds| => ds[i].finish)
  }

  // What an evaluation of a group promises: the units are apportioned by largest remainder
  // and the wall clock is the last finish plus the coordination overhead.
  ghost predicate Evaluated(ws: seq<Worker>, units: nat, unitSeconds: real, overhead: real, ev: Evaluation, ds: seq<Detail>)
    requires PositiveSpeeds(ws) && ws != []
  {
    && |ds| == |ws|
    && LargestRemainder(Units(ds), Quotas(units, Speeds(ws)), units)
    && (forall i :: 0 <= i < |ws| ==> ds[i] == DetailOf(ws[i], ds[i].units, unitSeconds))
    && ev.groupSize == |ws| && ev.ids == Ids(ws)
    && ev.aggregateSpeed == Total(Speeds(ws))
    && IsMax(ev.maxTransfer, seq(|ws|, i requires 0 <= i < |ws| => ws[i].transfer))
    && IsMax(ev.compute, seq(|ws|, i requires 0 <= i < |ws| => ds[i].compute))
    && ev.coordination == (|ws| - 1) as real * overhead
    && IsMax(ev.wall - ev.coordination, Finishes(ds))
  }

  // The rows of an evaluation, and the three columns the maxima are taken over.
  method ListDetails(ws: seq<Worker>, allocation: seq<int>, unitSeconds: real)
    returns (ds: seq<Detail>, transfers: seq<real>, computes: seq<real>)
    requires PositiveSpeeds(ws) && |allocation| == |ws|
    ensures Units(ds) == allocation && forall i :: 0 <= i < |ws| ==> ds[i] == DetailOf(ws[i], allocation[i], unitSeconds)
    ensures transfers == seq(|ws|, i requires 0 <= i < |ws| => ws[i].transfer)
    ensures computes == seq(|ds|, i requires 0 <= i < |ds| => ds[i].compute)
  {
    ds, transfers, computes := [], [], [];
    var i := 0;
    while i < |ws|
      invariant 0 <= i <= |ws| && |ds| == |transfers| == |computes| == i
      invariant forall j :: 0 <= j < i ==> ds[j] == DetailOf(ws[j], allocation[j], unitSeconds)
      invariant forall j :: 0 <= j < i ==> transfers[j] == ws[j].transfer && computes[j] == ds[j].compute
    {
      var d := DetailOf(ws[i], allocation[i], unitSeconds);
      ds, transfers, computes := ds + [d], transfers + [d.transfer], computes + [d.compute];
      i := i + 1;
    }
    assert Units(ds) == allocation;
  }

  method EvaluateGroup(ws: seq<Worker>, units: nat, unitSeconds: real, overhead: real)
    returns (ev: Evaluation, ds: seq<Detail>)
    requires PositiveSpeeds(ws) && ws != []
    ensures Evaluated(ws, units, unitSeconds, overhead, ev, ds)
  {
    var allocation := Apportion(units, Speeds(ws));
    var transfers, computes;
    ds, transfers, computes := ListDetails(ws, allocation, unitSeconds);
    var maxTransfer := MaxOf(transfers);
    var maxCompute := MaxOf(computes);
    var last := MaxOf(Finishes(ds));
    var coordination := (|ws| - 1) as real * overhead;
    ev := Evaluation(|ws|, Ids(ws), Total(Speeds(ws)), maxTransfer, maxCompute, coordination, last + coordination, 1.0, 0.0, true);
    assert computes == seq(|ws|, i requires 0 <= i < |ws| => ds[i].compute);
  }

  // Bounds on the wall clock -----------------------------------------------------------------

  // An allocation with the same total cannot stay below every quota.
  lemma {:induction false} SomeoneReachesQuota(a: seq<int>, q: seq<real>) returns (i: nat)
    requires |a| == |q| > 0 && Sum(a) as real >= Total(q)
    ensures i < |q| && a[i] as real >= q[i]
  {
    var n := |q| - 1;
    if a[n] as real >= q[n] {
      i := n;
    } else {
      assert Sum(a[..0]) == 0 && Total(q[..0]) == 0.0;
      i := SomeoneReachesQuota(a[..n], q[..n]);
    }
  }

  lemma PositiveFactor(x: real, y: real)
    requires y > 0.0 && x * y >= 0.0
    ensures x >= 0.0
  {}

  lemma MoreWorkTakesLonger(x: real, y: real, unitSeconds: real, speed: real)
    requires x <= y && unitSeconds > 0.0 && speed > 0.0
    ensures x * unitSeconds / speed <= y * unitSeconds / speed
  {
    var p, r := x * unitSeconds / speed, y * unitSeconds / speed;
    ProductSign(y - x, unitSeconds);
    assert (y - x) * unitSeconds == (r - p) * speed;
    PositiveFactor(r - p, speed);
  }

  // Working a quota takes every worker the same time.
  lemma QuotaTime(units: nat, unitSeconds: real, speed: real, total: real)
    requires speed > 0.0 && total > 0.0
    ensures Quota(units, speed, total) * unitSeconds / speed == units as real * unitSeconds / total
  {
    var u, f := units as real, speed / total;
    assert f * total == speed;
    var lhs := u * f * unitSeconds / speed;
    assert lhs * speed == u * f * unitSeconds;
    assert (lhs * total) * f == lhs * (f * total);
    assert (lhs * total) * f == (u * unitSeconds) * f;
    assert f != 0.0;
    assert lhs * total == u * unitSeconds;
  }

  lemma UnitsNotNegative(a: seq<int>, speeds: seq<real>, units: nat, i: nat)
    requires Positive(speeds) && speeds != [] && LargestRemainder(a, Quotas(units, speeds), units) && i < |a|
    ensures a[i] >= 0
  {
    TotalPositive(speeds);
    var f := speeds[i] / Total(speeds);
    assert f >= 0.0;
    ProductSign(units as real, f);
  }

  // No group finishes before the ideal split of the work.
  lemma WallAtLeastIdealSplit(ws: seq<Worker>, units: nat, unitSeconds: real, overhead: real, ev: Evaluation, ds: seq<Detail>)
    requires PositiveSpeeds(ws) && ws != [] && unitSeconds > 0.0
    requires forall i :: 0 <= i < |ws| ==> ws[i].transfer >= 0.0
    requires Evaluated(ws, units, unitSeconds, overhead, ev, ds)
    ensures ev.aggregateSpeed > 0.0
    ensures ev.wall >= units as real * unitSeconds / ev.aggregateSpeed + (|ws| - 1) as real * overhead
  {
    var speeds := Speeds(ws);
    TotalPositive(speeds);
    QuotasAddUp(units, speeds);
    var q := Quotas(units, speeds);
    var i := SomeoneReachesQuota(Units(ds), q);
    UnitsNotNegative(Units(ds), speeds, units, i);
    assert Finishes(ds)[i] == ds[i].finish;
    ReachedQuotaTakes(ws[i], ds[i].units, q[i], units, unitSeconds, Total(speeds));
  }

  lemma ReachedQuotaTakes(w: Worker, n: int, q: real, units: nat, unitSeconds: real, total: real)
    requires w.speed > 0.0 && total > 0.0 && unitSeconds > 0.0 && 0 <= n && q <= n as real
    requires q == Quota(units, w.speed, total)
    ensures DetailOf(w, n, unitSeconds).compute >= units as real * unitSeconds / total
  {
    QuotaTime(units, unitSeconds, w.speed, total);
    MoreWorkTakesLonger(q, n as real, unitSeconds, w.speed);
    assert 0.0 * unitSeconds / w.speed == 0.0;
  }

  // No group finishes before its slowest transfer.
  lemma WallAtLeastTransfer(ws: seq<Worker>, units: nat, unitSeconds: real, overhead: real, ev: Evaluation, ds: seq<Detail>)
    requires PositiveSpeeds(ws) && ws != [] && unitSeconds > 0.0
    requires Evaluated(ws, units, unitSeconds, overhead, ev, ds)
    ensures ev.wall >= ev.maxTransfer + (|ws| - 1) as real * overhead
  {
    var transfers := seq(|ws|, j requires 0 <= j < |ws| => ws[j].transfer);
    var t :| 0 <= t < |ws| && transfers[t] == ev.maxTransfer;
    ComputeNotNegative(ws[t], ds[t].units, unitSeconds);
    assert ds[t] == DetailOf(ws[t], ds[t].units, unitSeconds);
    assert Finishes(ds)[t] == ds[t].finish;
  }

  lemma ComputeNotNegative(w: Worker, n: int, unitSeconds: real)
    requires w.speed > 0.0 && unitSeconds > 0.0
    ensures DetailOf(w, n, unitSeconds).compute >= 0.0
  {
    if n > 0 {
      MoreWorkTakesLonger(0.0, n as real, unitSeconds, w.speed);
    }
  }

  // Rounding up costs at most one unit on the slowest worker.
  lemma WallAtMost(ws: seq<Worker>, units: nat, unitSeconds: real, overhead: real, ev: Evaluation, ds: seq<Detail>, slowest: real)
    requires PositiveSpeeds(ws) && ws != [] && unitSeconds > 0.0
    requires Evaluated(ws, units, unitSeconds, overhead, ev, ds)
    requires slowest > 0.0 && forall i :: 0 <= i < |ws| ==> slowest <= ws[i].speed
    ensures ev.aggregateSpeed > 0.0
    ensures ev.wall <= ev.maxTransfer + units as real * unitSeconds / ev.aggregateSpeed + unitSeconds / slowest
                       + (|ws| - 1) as real * overhead
  {
    var speeds := Speeds(ws);
    TotalPositive(speeds);
    QuotasAddUp(units, speeds);
    var i :| 0 <= i < |ws| && Finishes(ds)[i] == ev.wall - ev.coordination;
    assert ds[i] == DetailOf(ws[i], ds[i].units, unitSeconds);
    assert seq(|ws|, j requires 0 <= j < |ws| => ws[j].transfer)[i] <= ev.maxTransfer;
    ComputeAtMost(ws, units, unitSeconds, ds, i);
    SlowestUnit(unitSeconds, slowest, ws[i].speed);
  }

  lemma SlowestUnit(unitSeconds: real, slowest: real, speed: real)
    requires unitSeconds > 0.0 && 0.0 < slowest <= speed
    ensures unitSeconds / speed <= unitSeconds / slowest
  {
    var p, r := unitSeconds / speed, unitSeconds / slowest;
    assert p * speed == unitSeconds == r * slowest;
    PositiveFactor(r, slowest);
    ProductSign(r, speed - slowest);
    assert (r - p) * speed == r * (speed - slowest);
    PositiveFactor(r - p, speed);
  }

  lemma {:induction false} ComputeAtMost(ws: seq<Worker>, units: nat, unitSeconds: real, ds: seq<Detail>, i: nat)
    requires PositiveSpeeds(ws) && i < |ws| == |ds| && unitSeconds > 0.0
    requires LargestRemainder(Units(ds), Quotas(units, Speeds(ws)), units)
    requires ds[i] == DetailOf(ws[i], ds[i].units, unitSeconds)
    requires Total(Speeds(ws)) > 0.0
    ensures ds[i].compute <= units as real * unitSeconds / Total(Speeds(ws)) + unitSeconds / ws[i].speed
  {
    var q := ShareAtMost(Units(ds), Speeds(ws), units, unitSeconds, i);
    DetailAtMost(ws[i], ds[i].units, unitSeconds, q, units as real * unitSeconds / Total(Speeds(ws)));
  }

  lemma DetailAtMost(w: Worker, n: int, unitSeconds: real, q: real, ideal: real)
    requires w.speed > 0.0 && n as real <= q + 1.0 && unitSeconds > 0.0 && ideal == q * unitSeconds / w.speed >= 0.0
    ensures DetailOf(w, n, unitSeconds).compute <= ideal + unitSeconds / w.speed
  {
    OneMoreUnit(n, q, unitSeconds, w.speed, ideal);
  }

  lemma {:induction false} ShareAtMost(a: seq<int>, speeds: seq<real>, units: nat, unitSeconds: real, i: nat) returns (q: real)
    requires Positive(speeds) && i < |speeds| && unitSeconds > 0.0 && Total(speeds) > 0.0
    requires LargestRemainder(a, Quotas(units, speeds), units)
    ensures a[i] as real <= q + 1.0
    ensures q * unitSeconds / speeds[i] == units as real * unitSeconds / Total(speeds) >= 0.0
  {
    q := Quotas(units, speeds)[i];
    QuotasAddUp(units, speeds);
    FloorOrCeiling(a, Quotas(units, speeds), units, i);
    QuotaTime(units, unitSeconds, speeds[i], Total(speeds));
    MoreWorkTakesLonger(0.0, units as real, unitSeconds, Total(speeds));
  }

  lemma OneMoreUnit(n: int, q: real, unitSeconds: real, s: real, ideal: real)
    requires n as real <= q + 1.0 && unitSeconds > 0.0 && s > 0.0 && ideal == q * unitSeconds / s >= 0.0
    ensures (if n > 0 then n as real * unitSeconds / s else 0.0) <= ideal + unitSeconds / s
  {
    MoreWorkTakesLonger(n as real, q + 1.0, unitSeconds, s);
    MoreWorkTakesLonger(0.0, 1.0, unitSeconds, s);
    SplitQuotient(q, unitSeconds, s);
  }

  lemma SplitQuotient(x: real, unitSeconds: real, s: real)
    requires s > 0.0
    ensures (x + 1.0) * unitSeconds / s == x * unitSeconds / s + unitSeconds / s
  {
    assert (x + 1.0) * unitSeconds == x * unitSeconds + unitSeconds;
  }

  // All candidate group sizes ------------------------------------------------------------------

  function MarginalSpeedup(previous: real, wall: real): real {
    if previous > 0.0 then (previous - wall) / previous else 0.0
  }

  ghost predicate Timed(ws: seq<Worker>, units: nat, unitSeconds: real, overhead: real, evs: seq<Evaluation>, details: seq<seq<Detail>>)
    requires PositiveSpeeds(ws)
  {
    && |evs| == |details| <= |ws|
    && forall k :: 0 <= k < |evs| ==> Evaluated(ws[..k + 1], units, unitSeconds, overhead, evs[k], details[k])
  }

  predicate Compared(deadline: Option<real>, evs: seq<Evaluation>) {
    && (forall k :: 0 <= k < |evs| ==> evs[k].meetsDeadline == (deadline.Some? ==> evs[k].wall <= deadline.value))
    && (forall k :: 0 < k < |evs| ==> evs[k].marginal == MarginalSpeedup(evs[k - 1].wall, evs[k].wall))
    && (forall k :: 0 < k < |evs| ==> evs[k].speedup == if evs[k].wall > 0.0 then evs[0].wall / evs[k].wall else 1.0)
    && (evs != [] ==> evs[0].speedup == 1.0 && evs[0].marginal == 0.0)
  }

  // Filling in the comparisons with other sizes does not disturb the timing of the group.
  lemma ComparisonsKeepTiming(ws: seq<Worker>, units: nat, unitSeconds: real, overhead: real, ev: Evaluation, ds: seq<Detail>,
                              speedup: real, marginal: real, meets: bool)
    requires PositiveSpeeds(ws) && ws != [] && Evaluated(ws, units, unitSeconds, overhead, ev, ds)
    ensures Evaluated(ws, units, unitSeconds, overhead, ev.(speedup := speedup, marginal := marginal, meetsDeadline := meets), ds)
  {
  }

  lemma AppendTimed(ws: seq<Worker>, units: nat, unitSeconds: real, overhead: real,
                    evs: seq<Evaluation>, details: seq<seq<Detail>>, ev: Evaluation, ds: seq<Detail>)
    requires PositiveSpeeds(ws) && |evs| < |ws|
    requires Timed(ws, units, unitSeconds, overhead, evs, details)
    requires Evaluated(ws[..|evs| + 1], units, unitSeconds, overhead, ev, ds)
    ensures Timed(ws, units, unitSeconds, overhead, evs + [ev], details + [ds])
  {
  }

  // Judges a freshly timed group against the smaller groups and the deadline.
  function Judge(raw: Evaluation, evs: seq<Evaluation>, deadline: Option<real>): (ev: Evaluation)
    requires Compared(deadline, evs)
    ensures Compared(deadline, evs + [ev])
  {
    var n := |evs|;
    var speedup := if n == 0 then 1.0 else if raw.wall > 0.0 then evs[0].wall / raw.wall else 1.0;
    var marginal := if n == 0 then 0.0 else MarginalSpeedup(evs[n - 1].wall, raw.wall);
    raw.(speedup := speedup, marginal := marginal, meetsDeadline := deadline.None? || raw.wall <= deadline.value)
  }

  method EvaluateSizes(ws: seq<Worker>, maxK: nat, units: nat, unitSeconds: real, overhead: real, deadline: Option<real>)
    returns (evs: seq<Evaluation>, details: seq<seq<Detail>>)
    requires PositiveSpeeds(ws) && 1 <= maxK <= |ws|
    ensures |evs| == maxK && Timed(ws, units, unitSeconds, overhead, evs, details) && Compared(deadline, evs)
  {
    evs, details := [], [];
    var k := 1;
    while k <= maxK
      invariant 1 <= k <= maxK + 1 && |evs| == k - 1
      invariant Timed(ws, units, unitSeconds, overhead, evs, details) && Compared(deadline, evs)
    {
      var raw, ds := EvaluateGroup(ws[..k], units, unitSeconds, overhead);
      var ev := Judge(raw, evs, deadline);
      ComparisonsKeepTiming(ws[..k], units, unitSeconds, overhead, raw, ds, ev.speedup, ev.marginal, ev.meetsDeadline);
      AppendTimed(ws, units, unitSeconds, overhead, evs, details, ev, ds);
      evs, details := evs + [ev], details + [ds];
      k := k + 1;
    }
  }

  // Choosing a size --------------------------------------------------------------------------

  predicate AnyWithin(evs: seq<Evaluation>, limit: real) {
    exists j :: 0 <= j < |evs| && evs[j].wall <= limit
  }

  // k is the smallest size whose wall clock is within the limit.
  predicate SmallestWithin(evs: seq<Evaluation>, limit: real, k: nat) {
    1 <= k <= |evs| && evs[k - 1].wall <= limit && forall j :: 0 <= j < k - 1 ==> evs[j].wall > limit
  }

  predicate FirstFastest(evs: seq<Evaluation>, k: nat) {
    && 1 <= k <= |evs|
    && (forall j :: 0 <= j < |evs| ==> evs[k - 1].wall <= evs[j].wall)
    && (forall j :: 0 <= j < k - 1 ==> evs[k - 1].wall < evs[j].wall)
  }

  // Growing to size k does not pay: it is no faster, or its marginal speedup is too small.
  predicate Halts(evs: seq<Evaluation>, threshold: real, k: nat)
    requires 2 <= k <= |evs|
  {
    evs[k - 1].wall >= evs[k - 2].wall || evs[k - 1].marginal < threshold
  }

  predicate GrowsTo(evs: seq<Evaluation>, threshold: real, k: nat) {
    && 1 <= k <= |evs|
    && (forall j :: 2 <= j <= k ==> !Halts(evs, threshold, j))
    && (k < |evs| ==> Halts(evs, threshold, k + 1))
  }

  predicate Numbered(evs: seq<Evaluation>) {
    forall i :: 0 <= i < |evs| ==> evs[i].groupSize == i + 1
  }

  method FirstMeeting(evs: seq<Evaluation>, limit: real) returns (found: Option<nat>)
    requires Numbered(evs)
    ensures found.Some? ==> SmallestWithin(evs, limit, found.value)
    ensures found.None? <==> !AnyWithin(evs, limit)
  {
    found := None;
    var i := 0;
    while i < |evs|
      invariant 0 <= i <= |evs| && forall j :: 0 <= j < i ==> evs[j].wall > limit
    {
      if evs[i].wall <= limit {
        return Some(evs[i].groupSize);
      }
      i := i + 1;
    }
  }

  method Fastest(evs: seq<Evaluation>) returns (k: nat)
    requires Numbered(evs) && evs != []
    ensures FirstFastest(evs, k)
  {
    k := 1;
    for i := 1 to |evs|
      invariant 1 <= k <= i
      invariant forall j :: 0 <= j < i ==> evs[k - 1].wall <= evs[j].wall
      invariant forall j :: 0 <= j < k - 1 ==> evs[k - 1].wall < evs[j].wall
    {
      if evs[i].wall < evs[k - 1].wall { k := evs[i].groupSize; }
    }
  }

  method DecideByDeadline(evs: seq<Evaluation>, deadline: real, safetyMargin: real)
    returns (chosen: nat, policy: Policy, achievable: bool)
    requires Numbered(evs) && evs != []
    ensures 1 <= chosen <= |evs|
    ensures var target := deadline * (1.0 - safetyMargin);
      if AnyWithin(evs, target) then SmallestWithin(evs, target, chosen)
      else if AnyWithin(evs, deadline) then SmallestWithin(evs, deadline, chosen)
      else FirstFastest(evs, chosen)
    ensures achievable <==> AnyWithin(evs, deadline * (1.0 - safetyMargin)) || AnyWithin(evs, deadline)
    ensures policy == if evs[0].wall <= deadline * (1.0 - safetyMargin) then SingleWorkerSufficient else DeadlineDrivenMinimal
  {
    var target := deadline * (1.0 - safetyMargin);
    achievable := true;
    if evs[0].wall <= target {
      chosen, policy := 1, SingleWorkerSufficient;
    } else {
      policy := DeadlineDrivenMinimal;
      var found := FirstMeeting(evs, target);
      if found.None? {
        found := FirstMeeting(evs, deadline);
      }
      if found.Some? {
        chosen := found.value;
      } else {
        chosen := Fastest(evs);
        achievable := false;
      }
    }
  }

  method DecideByEfficiency(evs: seq<Evaluation>, threshold: real) returns (chosen: nat, policy: Policy)
    requires Numbered(evs) && evs != []
    ensures GrowsTo(evs, threshold, chosen)
    ensures policy == if chosen == |evs| then EfficiencyThroughput
                      else if evs[chosen].wall >= evs[chosen - 1].wall then TransferOverheadHalt else DiminishingReturns
  {
    chosen, policy := 1, EfficiencyThroughput;
    var i := 1;
    while i < |evs|
      invariant 1 <= i <= |evs| && chosen == i && policy == EfficiencyThroughput
      invariant forall j :: 2 <= j <= chosen ==> !Halts(evs, threshold, j)
    {
      var ev := evs[i];
      if ev.wall >= evs[ev.groupSize - 2].wall {
        policy := TransferOverheadHalt;
        break;
      }
      if ev.marginal < threshold {
        policy := DiminishingReturns;
        break;
      }
      chosen := ev.groupSize;
      i := i + 1;
    }
  }

  // For a safety margin that is not negative the reported feasibility is exact.
  lemma AchievableExactly(evs: seq<Evaluation>, deadline: real, safetyMargin: real)
    requires deadline >= 0.0 && 0.0 <= safetyMargin
    ensures AnyWithin(evs, deadline * (1.0 - safetyMargin)) || AnyWithin(evs, deadline) <==> AnyWithin(evs, deadline)
  {
    ProductSign(deadline, safetyMargin);
    assert deadline * (1.0 - safetyMargin) == deadline - deadline * safetyMargin;
    if AnyWithin(evs, deadline * (1.0 - safetyMargin)) {
      var j :| 0 <= j < |evs| && evs[j].wall <= deadline * (1.0 - safetyMargin);
      assert evs[j].wall <= deadline;
    }
  }

  function Power(x: real, n: nat): real {
    if n == 0 then 1.0 else x * Power(x, n - 1)
  }

  lemma {:induction false} PowerNotNegative(x: real, n: nat)
    requires x >= 0.0
    ensures Power(x, n) >= 0.0
  {
    if n > 0 {
      PowerNotNegative(x, n - 1);
      ProductSign(x, Power(x, n - 1));
    }
  }

  lemma MarginalGain(previous: real, wall: real, threshold: real)
    requires previous > 0.0 && MarginalSpeedup(previous, wall) >= threshold
    ensures wall <= (1.0 - threshold) * previous
  {
    var m := MarginalSpeedup(previous, wall);
    assert m * previous == previous - wall;
    ProductSign(m - threshold, previous);
  }

  lemma MarginalIff(previous: real, wall: real, threshold: real)
    requires previous > 0.0
    ensures MarginalSpeedup(previous, wall) >= threshold <==> wall <= (1.0 - threshold) * previous
  {
    var m := MarginalSpeedup(previous, wall);
    assert m * previous == previous - wall;
    assert (m - threshold) * previous == (1.0 - threshold) * previous - wall;
    if m >= threshold {
      ProductSign(m - threshold, previous);
    } else if (m - threshold) * previous >= 0.0 {
      PositiveFactor(m - threshold, previous);
    }
  }

  // Each size up to k cuts the threshold fraction off the wall clock of the one before; the next does not.
  predicate StopsAt(evs: seq<Evaluation>, threshold: real, k: nat) {
    && 1 <= k <= |evs| && (forall j :: 1 <= j < k ==> evs[j].wall <= (1.0 - threshold) * evs[j - 1].wall)
    && (k < |evs| ==> evs[k].wall > (1.0 - threshold) * evs[k - 1].wall)
  }

  // The chosen size in terms of wall clocks alone.
  lemma GrowsExactly(evs: seq<Evaluation>, threshold: real, chosen: nat)
    requires GrowsTo(evs, threshold, chosen) && 0.0 < threshold <= 1.0
    requires forall j :: 0 <= j < |evs| ==> evs[j].wall > 0.0
    requires forall j :: 0 < j < |evs| ==> evs[j].marginal == MarginalSpeedup(evs[j - 1].wall, evs[j].wall)
    ensures StopsAt(evs, threshold, chosen)
  {
    forall j | 1 <= j < chosen ensures evs[j].wall <= (1.0 - threshold) * evs[j - 1].wall {
      assert !Halts(evs, threshold, j + 1);
      MarginalIff(evs[j - 1].wall, evs[j].wall, threshold);
    }
    if chosen < |evs| {
      MarginalIff(evs[chosen - 1].wall, evs[chosen].wall, threshold);
      ProductSign(threshold, evs[chosen - 1].wall);
      SmallerFraction(evs[chosen - 1].wall, threshold);
    }
  }

  lemma SmallerFraction(w: real, threshold: real)
    requires w > 0.0 && threshold > 0.0
    ensures (1.0 - threshold) * w < w
  {
    assert threshold * w > 0.0;
  }

  // After k workers at least k - 1 threshold fractions have been cut from the single-worker time.
  predicate Compounded(evs: seq<Evaluation>, threshold: real, k: nat)
    requires 1 <= k <= |evs|
  {
    evs[k - 1].wall <= Power(1.0 - threshold, k - 1) * evs[0].wall
  }

  // Every recruited worker shortens the wall clock by at least the threshold fraction.
  lemma {:induction false} WallDecays(evs: seq<Evaluation>, threshold: real, chosen: nat, k: nat)
    requires GrowsTo(evs, threshold, chosen) && 1 <= k <= chosen && threshold <= 1.0
    requires forall j :: 0 <= j < |evs| ==> evs[j].wall > 0.0
    requires forall j :: 0 < j < |evs| ==> evs[j].marginal == MarginalSpeedup(evs[j - 1].wall, evs[j].wall)
    ensures forall j :: 1 <= j < k ==> evs[j].wall < evs[j - 1].wall
    ensures Compounded(evs, threshold, k)
  {
    if k > 1 {
      WallDecays(evs, threshold, chosen, k - 1);
      assert !Halts(evs, threshold, k);
      MarginalGain(evs[k - 2].wall, evs[k - 1].wall, threshold);
      var f, p, w := 1.0 - threshold, Power(1.0 - threshold, k - 2), evs[0].wall;
      ProductSign(f, p * w - evs[k - 2].wall);
      assert f * (p * w) == (f * p) * w;
      assert Power(f, k - 1) == f * p;
    }
  }

  // The whole decision -----------------------------------------------------------------------

  datatype SizerConfig = SizerConfig(bandwidth: real, overhead: real, threshold: real, safetyMargin: real)

  function OrElse(o: Option<real>, fallback: real): real {
    if o.Some? then o.value else fallback
  }

  function EffectiveDeadline(r: Request, now: real): (d: Option<real>)
    ensures r.Valid() && d.Some? ==> d.value >= 0.0
  {
    if r.deadlineSeconds.Some? then r.deadlineSeconds
    else if r.deadlineAt.None? then None
    else Some(if r.deadlineAt.value - now > 0.0 then r.deadlineAt.value - now else 0.0)
  }

  // A given allowance is the deadline; otherwise a given moment is, as the time that is left until it;
  // a time fits if and only if it ends by then.
  lemma DeadlineMeans(r: Request, now: real, t: real)
    requires r.Valid() && t > 0.0
    ensures var d := EffectiveDeadline(r, now);
      && (r.deadlineSeconds.Some? ==> d == r.deadlineSeconds)
      && (r.deadlineSeconds.None? && r.deadlineAt.Some? ==> d.Some? && (t <= d.value <==> now + t <= r.deadlineAt.value))
      && (d.None? <==> r.deadlineSeconds.None? && r.deadlineAt.None?)
  {
  }

  function UnitSeconds(r: Request): (u: real)
    ensures r.Valid() ==> u > 0.0
  {
    OrElse(r.unitSeconds, 10.0)
  }

  function SoloTime(r: Request, w: Worker): real
    requires w.speed > 0.0
  {
    w.transfer + r.units as real * UnitSeconds(r) / w.speed
  }

  function SoloKey(r: Request): Worker -> Rank {
    (w: Worker) => Rank(if w.speed > 0.0 then SoloTime(r, w) else 0.0, w.id)
  }

  function EligibleWorkers(cfg: SizerConfig, r: Request, profiles: seq<Profile>, eligible: set<nat>): (ws: seq<Worker>)
    ensures PositiveSpeeds(ws)
  {
    if profiles == [] then [] else
      var rest := EligibleWorkers(cfg, r, profiles[1..], eligible);
      if profiles[0].id in eligible then [WorkerOf(r, OrElse(r.bandwidth, cfg.bandwidth), profiles[0])] + rest else rest
  }

  function RankedWorkers(cfg: SizerConfig, r: Request, profiles: seq<Profile>, eligible: set<nat>): seq<Worker> {
    SortBy(SoloKey(r), EligibleWorkers(cfg, r, profiles, eligible))
  }

  // Some profile that passed the eligibility gates is this worker.
  ghost predicate Qualifies(cfg: SizerConfig, r: Request, profiles: seq<Profile>, eligible: set<nat>, w: Worker) {
    exists p :: p in profiles && p.id in eligible && Describes(r, OrElse(r.bandwidth, cfg.bandwidth), p, w)
  }

  lemma QualifiesIff(cfg: SizerConfig, r: Request, profiles: seq<Profile>, eligible: set<nat>, w: Worker)
    ensures Qualifies(cfg, r, profiles, eligible, w) <==>
      exists p :: p in profiles && p.id in eligible && w == WorkerOf(r, OrElse(r.bandwidth, cfg.bandwidth), p)
  {
    forall p ensures Describes(r, OrElse(r.bandwidth, cfg.bandwidth), p, w) <==> w == WorkerOf(r, OrElse(r.bandwidth, cfg.bandwidth), p) {
      DescribedIff(r, OrElse(r.bandwidth, cfg.bandwidth), p, w);
    }
  }

  predicate SoonerAlone(r: Request, a: Worker, b: Worker)
    requires a.speed > 0.0 && b.speed > 0.0
  {
    SoloTime(r, a) < SoloTime(r, b) || (SoloTime(r, a) == SoloTime(r, b) && a.id <= b.id)
  }

  predicate DistinctProfiles(profiles: seq<Profile>) {
    forall i, j :: 0 <= i < j < |profiles| ==> profiles[i].id != profiles[j].id
  }

  predicate DistinctWorkers(ws: seq<Worker>) {
    forall i, j :: 0 <= i < j < |ws| ==> ws[i].id != ws[j].id
  }

  // The workers of a decision: exactly the eligible profiles, by the time each would need alone and
  // then by id, with sound figures for the timing model.
  ghost predicate IsRanking(cfg: SizerConfig, r: Request, profiles: seq<Profile>, eligible: set<nat>, ws: seq<Worker>) {
    && PositiveSpeeds(ws) && (forall i :: 0 <= i < |ws| ==> ws[i].transfer >= 0.0)
    && (forall w :: w in ws <==> Qualifies(cfg, r, profiles, eligible, w))
    && (forall i, j :: 0 <= i < j < |ws| ==> SoonerAlone(r, ws[i], ws[j]))
    && (DistinctProfiles(profiles) ==> DistinctWorkers(ws))
  }

  lemma {:induction false} EligibleFacts(cfg: SizerConfig, r: Request, profiles: seq<Profile>, eligible: set<nat>)
    ensures forall w :: w in EligibleWorkers(cfg, r, profiles, eligible) <==> Qualifies(cfg, r, profiles, eligible, w)
    ensures DistinctProfiles(profiles) ==> DistinctWorkers(EligibleWorkers(cfg, r, profiles, eligible))
  {
    if profiles != [] {
      var rest := EligibleWorkers(cfg, r, profiles[1..], eligible);
      var ws := EligibleWorkers(cfg, r, profiles, eligible);
      EligibleFacts(cfg, r, profiles[1..], eligible);
      forall w ensures w in ws <==> Qualifies(cfg, r, profiles, eligible, w) {
        QualifiesIff(cfg, r, profiles, eligible, w);
        QualifiesIff(cfg, r, profiles[1..], eligible, w);
        assert w in ws <==> w in rest || (profiles[0].id in eligible && w == WorkerOf(r, OrElse(r.bandwidth, cfg.bandwidth), profiles[0]));
        assert forall p :: p in profiles <==> p == profiles[0] || p in profiles[1..];
      }
      if DistinctProfiles(profiles) {
        forall w | w in rest ensures w.id != profiles[0].id {
          var p :| p in profiles[1..] && p.id in eligible && Describes(r, OrElse(r.bandwidth, cfg.bandwidth), p, w);
        }
      }
    }
  }

  // What the ranking of the eligible workers is.
  lemma {:induction false} RankingFacts(cfg: SizerConfig, r: Request, profiles: seq<Profile>, eligible: set<nat>)
    ensures IsRanking(cfg, r, profiles, eligible, RankedWorkers(cfg, r, profiles, eligible))
  {
    var ws, ranked := EligibleWorkers(cfg, r, profiles, eligible), RankedWorkers(cfg, r, profiles, eligible);
    EligibleFacts(cfg, r, profiles, eligible);
    SortBySorts(SoloKey(r), ws);
    RankingFrom(cfg, r, profiles, eligible, ws, ranked);
  }

  lemma {:induction false} RankingFrom(cfg: SizerConfig, r: Request, profiles: seq<Profile>, eligible: set<nat>, ws: seq<Worker>, ranked: seq<Worker>)
    requires forall w :: w in ws <==> Qualifies(cfg, r, profiles, eligible, w)
    requires DistinctProfiles(profiles) ==> DistinctWorkers(ws)
    requires multiset(ranked) == multiset(ws) && SortedBy(SoloKey(r), ranked)
    ensures IsRanking(cfg, r, profiles, eligible, ranked)
  {
    forall w ensures w in ranked <==> w in ws {
      assert w in multiset(ranked) <==> w in multiset(ws);
    }
    forall i | 0 <= i < |ranked| ensures ranked[i].speed > 0.0 && ranked[i].transfer >= 0.0 {
      assert ranked[i] in ranked;
    }
    forall i, j | 0 <= i < j < |ranked| ensures SoonerAlone(r, ranked[i], ranked[j]) {
      assert Precedes(SoloKey(r)(ranked[i]), SoloKey(r)(ranked[j]));
    }
    if DistinctProfiles(profiles) {
      assert Distinct(ws);
      PermutationDistinct(ws, ranked);
      forall i, j | 0 <= i < j < |ranked| ensures ranked[i].id != ranked[j].id {
        assert ranked[i] in ws && ranked[j] in ws && ranked[i] != ranked[j];
      }
    }
  }

  lemma EmptyRanking(cfg: SizerConfig, r: Request, profiles: seq<Profile>, eligible: set<nat>, ws: seq<Worker>)
    requires IsRanking(cfg, r, profiles, eligible, ws)
    ensures ws == [] <==> forall p :: p in profiles ==> p.id !in eligible
  {
    if ws != [] {
      assert ws[0] in ws;
    } else {
      forall p | p in profiles ensures p.id !in eligible {
        QualifiesIff(cfg, r, profiles, eligible, WorkerOf(r, OrElse(r.bandwidth, cfg.bandwidth), p));
      }
    }
  }

  function Cap(r: Request, n: nat): (k: nat)
    requires r.Valid() && n >= 1
    ensures 1 <= k <= n
    ensures r.maxWorkers.Some? ==> k <= r.maxWorkers.value
    ensures k == 1 || k * r.minUnitsPerWorker <= r.units
    ensures forall j: nat :: k < j <= n && (r.maxWorkers.Some? ==> j <= r.maxWorkers.value) ==> j * r.minUnitsPerWorker > r.units
  {
    var byUnits := if r.units / r.minUnitsPerWorker > 1 then r.units / r.minUnitsPerWorker else 1;
    UnitsPerWorker(r.units, r.minUnitsPerWorker);
    MoreWorkersThanUnits(r.units, r.minUnitsPerWorker);
    var k := if n < byUnits then n else byUnits;
    assert k > 1 ==> k * r.minUnitsPerWorker <= byUnits * r.minUnitsPerWorker;
    if r.maxWorkers.Some? && r.maxWorkers.value < k then
      assert r.maxWorkers.value * r.minUnitsPerWorker <= k * r.minUnitsPerWorker;
      r.maxWorkers.value
    else k
  }

  lemma UnitsPerWorker(units: nat, m: nat)
    requires m >= 1
    ensures (units / m) * m <= units
  {}

  lemma MoreWorkersThanUnits(units: nat, m: nat)
    requires m >= 1
    ensures forall j: nat :: j > units / m ==> j * m > units
  {
    forall j: nat | j > units / m ensures j * m > units {
      var q := units / m;
      assert (q + 1) * m > units;
      assert j * m >= (q + 1) * m by { ProductGrows(j, q + 1, m); }
    }
  }

  lemma ProductGrows(a: nat, b: nat, m: nat)
    requires a >= b
    ensures a * m >= b * m
  {
    assert a * m == b * m + (a - b) * m;
  }

  function SpareIds(ws: seq<Worker>, selected: seq<nat>): (ids: seq<nat>) {
    if ws == [] then [] else
      (if ws[0].id in selected then [] else [ws[0].id]) + SpareIds(ws[1..], selected)
  }

  function Feasibly(r: Request, achievable: bool): Feasibility {
    if !achievable then InfeasibleDeadline else if r.unitSeconds.None? then UnknownEstimate else Feasible
  }

  // The single-machine decision: the best-ranked worker takes every unit.
  ghost predicate SoloDecision(r: Request, deadline: Option<real>, ws: seq<Worker>, d: Decision)
    requires PositiveSpeeds(ws) && ws != []
  {
    && d.policy == NonPartitionable && d.count == 1
    && d.selected == [ws[0].id] && d.spare == Ids(ws[1..])
    && d.wall == SoloTime(r, ws[0])
    && d.achievable == (deadline.Some? ==> d.wall <= deadline.value) && d.deadline == deadline
    && d.feasibility == Feasibly(r, d.achievable)
    && d.details == [DetailOf(ws[0], r.units, UnitSeconds(r))]
    && d.evaluations == [Evaluation(1, [ws[0].id], ws[0].speed, ws[0].transfer, d.details[0].compute, 0.0, d.wall, 1.0, 0.0, d.achievable)]
  }

  ghost predicate ChosenSize(evs: seq<Evaluation>, deadline: Option<real>, safetyMargin: real, threshold: real, k: nat, achievable: bool) {
    match deadline
    case None => achievable && GrowsTo(evs, threshold, k)
    case Some(limit) =>
      && (achievable <==> AnyWithin(evs, limit * (1.0 - safetyMargin)) || AnyWithin(evs, limit))
      && if AnyWithin(evs, limit * (1.0 - safetyMargin)) then SmallestWithin(evs, limit * (1.0 - safetyMargin), k)
         else if AnyWithin(evs, limit) then SmallestWithin(evs, limit, k)
         else FirstFastest(evs, k)
  }

  // The reported policy names the rule that stopped the search.
  predicate PolicyFits(evs: seq<Evaluation>, deadline: Option<real>, safetyMargin: real, k: nat, policy: Policy)
    requires 1 <= k <= |evs|
  {
    if deadline.Some? && evs[0].wall <= deadline.value * (1.0 - safetyMargin) then policy == SingleWorkerSufficient
    else if k == 1 && |evs| > 1 && evs[1].wall >= evs[0].wall then policy == TransferOverheadHalt
    else if deadline.Some? then policy == DeadlineDrivenMinimal
    else if k == |evs| then policy == EfficiencyThroughput
    else policy == if evs[k].wall >= evs[k - 1].wall then TransferOverheadHalt else DiminishingReturns
  }

  ghost predicate PartitionedDecision(cfg: SizerConfig, r: Request, deadline: Option<real>, ws: seq<Worker>, d: Decision, details: seq<seq<Detail>>)
    requires PositiveSpeeds(ws) && ws != [] && r.Valid()
  {
    && |d.evaluations| == Cap(r, |ws|) && 1 <= d.count <= |d.evaluations|
    && Timed(ws, r.units, UnitSeconds(r), OrElse(r.overhead, cfg.overhead), d.evaluations, details)
    && Compared(deadline, d.evaluations)
    && ChosenSize(d.evaluations, deadline, cfg.safetyMargin, OrElse(r.threshold, cfg.threshold), d.count, d.achievable)
    && d.selected == Ids(ws[..d.count]) && d.spare == SpareIds(ws, d.selected)
    && d.wall == d.evaluations[d.count - 1].wall && d.deadline == deadline
    && d.details == details[d.count - 1]
    && d.feasibility == Feasibly(r, d.achievable)
    && PolicyFits(d.evaluations, deadline, cfg.safetyMargin, d.count, d.policy)
  }

  method DecideSolo(r: Request, deadline: Option<real>, ws: seq<Worker>) returns (d: Decision)
    requires PositiveSpeeds(ws) && ws != [] && r.Valid()
    ensures SoloDecision(r, deadline, ws, d)
  {
    var best := ws[0];
    var compute := r.units as real * UnitSeconds(r) / best.speed;
    var total := best.transfer + compute;
    var detail := Detail(best.id, best.speed, best.missingBytes, best.transfer, r.units, compute, total);
    assert detail == DetailOf(best, r.units, UnitSeconds(r));
    var meets := if deadline.None? then true else total <= deadline.value;
    var ev := Evaluation(1, [best.id], best.speed, best.transfer, compute, 0.0, total, 1.0, 0.0, meets);
    d := Decision(NonPartitionable, Feasibly(r, meets), 1, [best.id], Ids(ws[1..]), total, deadline, meets, [detail], [ev]);
  }

  method ChooseSize(evs: seq<Evaluation>, deadline: Option<real>, safetyMargin: real, threshold: real)
    returns (chosen: nat, policy: Policy, achievable: bool)
    requires Numbered(evs) && evs != []
    ensures 1 <= chosen <= |evs|
    ensures ChosenSize(evs, deadline, safetyMargin, threshold, chosen, achievable)
    ensures PolicyFits(evs, deadline, safetyMargin, chosen, policy)
  {
    achievable := true;
    if deadline.Some? {
      chosen, policy, achievable := DecideByDeadline(evs, deadline.value, safetyMargin);
    } else {
      chosen, policy := DecideByEfficiency(evs, threshold);
    }
    if chosen == 1 && |evs| > 1 && evs[1].wall >= evs[0].wall && policy != SingleWorkerSufficient {
      policy := TransferOverheadHalt;
    }
  }

  lemma TimedGroups(ws: seq<Worker>, units: nat, unitSeconds: real, overhead: real, evs: seq<Evaluation>, details: seq<seq<Detail>>)
    requires PositiveSpeeds(ws) && Timed(ws, units, unitSeconds, overhead, evs, details)
    ensures Numbered(evs) && forall k :: 1 <= k <= |evs| ==> evs[k - 1].ids == Ids(ws[..k])
  {
    forall k | 1 <= k <= |evs| ensures evs[k - 1].groupSize == k && evs[k - 1].ids == Ids(ws[..k]) {
      assert Evaluated(ws[..k - 1 + 1], units, unitSeconds, overhead, evs[k - 1], details[k - 1]);
    }
  }

  method DecidePartitioned(cfg: SizerConfig, r: Request, deadline: Option<real>, ws: seq<Worker>)
    returns (d: Decision, allDetails: seq<seq<Detail>>)
    requires PositiveSpeeds(ws) && ws != [] && r.Valid()
    ensures PartitionedDecision(cfg, r, deadline, ws, d, allDetails)
  {
    var overhead := OrElse(r.overhead, cfg.overhead);
    var evs, details := EvaluateSizes(ws, Cap(r, |ws|), r.units, UnitSeconds(r), overhead, deadline);
    TimedGroups(ws, r.units, UnitSeconds(r), overhead, evs, details);
    var chosen, policy, achievable := ChooseSize(evs, deadline, cfg.safetyMargin, OrElse(r.threshold, cfg.threshold));
    var ev := evs[chosen - 1];
    allDetails := details;
    d := Decision(policy, Feasibly(r, achievable), chosen, ev.ids, SpareIds(ws, ev.ids), ev.wall, deadline, achievable,
                  details[chosen - 1], evs);
  }

  method SizeCluster(cfg: SizerConfig, r: Request, profiles: seq<Profile>, eligible: set<nat>, now: real)
    returns (d: Decision, ws: seq<Worker>, allDetails: seq<seq<Detail>>)
    requires r.Valid()
    ensures ws == RankedWorkers(cfg, r, profiles, eligible) && PositiveSpeeds(ws) && IsRanking(cfg, r, profiles, eligible, ws)
    ensures ws == [] <==> forall p :: p in profiles ==> p.id !in eligible
    ensures ws == [] ==>
      && d.policy == SingleWorkerSufficient && d.feasibility == UnschedulableConstraints && !d.achievable && d.wall == 0.0
      && d.count == 0 && d.selected == d.spare == [] && d.details == [] && d.evaluations == [] && d.deadline == EffectiveDeadline(r, now)
    ensures ws != [] && (!r.partitionable || r.units <= 1) ==> SoloDecision(r, EffectiveDeadline(r, now), ws, d)
    ensures ws != [] && r.partitionable && r.units > 1 ==>
      PartitionedDecision(cfg, r, EffectiveDeadline(r, now), ws, d, allDetails)
  {
    var deadline := EffectiveDeadline(r, now);
    var ranked := RankedWorkers(cfg, r, profiles, eligible);
    RankingFacts(cfg, r, profiles, eligible);
    EmptyRanking(cfg, r, profiles, eligible, ranked);
    ws, allDetails := ranked, [];
    if ranked == [] {
      d := Decision(SingleWorkerSufficient, UnschedulableConstraints, 0, [], [], 0.0, deadline, false, [], []);
    } else if !r.partitionable || r.units <= 1 {
      d := DecideSolo(r, deadline, ranked);
    } else {
      d, allDetails := DecidePartitioned(cfg, r, deadline, ranked);
    }
  }

  // Consequences of a decision ---------------------------------------------------------------

  // Alone, the worker that is chosen is done no later than any other eligible worker would be.
  lemma SoloTakesTheBest(cfg: SizerConfig, r: Request, profiles: seq<Profile>, eligible: set<nat>, deadline: Option<real>,
                         ws: seq<Worker>, d: Decision)
    requires IsRanking(cfg, r, profiles, eligible, ws) && ws != [] && SoloDecision(r, deadline, ws, d)
    ensures d.selected == [ws[0].id] && ws[0].id in eligible
    ensures forall w :: Qualifies(cfg, r, profiles, eligible, w) ==> w.speed > 0.0 && d.wall <= SoloTime(r, w)
  {
    assert ws[0] in ws;
    forall w | Qualifies(cfg, r, profiles, eligible, w) ensures w.speed > 0.0 && d.wall <= SoloTime(r, w) {
      var i :| 0 <= i < |ws| && ws[i] == w;
      assert i > 0 ==> SoonerAlone(r, ws[0], ws[i]);
    }
  }

  // The time a worker would need alone is the wall clock of the group of that worker only.
  lemma SoloIsGroupOfOne(r: Request, w: Worker, overhead: real, ev: Evaluation, ds: seq<Detail>)
    requires r.Valid() && w.speed > 0.0 && Evaluated([w], r.units, UnitSeconds(r), overhead, ev, ds)
    ensures ev.wall == SoloTime(r, w)
    ensures (ev.wall - w.transfer) * w.speed == r.units as real * if r.unitSeconds.Some? then r.unitSeconds.value else 10.0
  {
    assert Sum(Units(ds)) == Units(ds)[0] by { assert Units(ds)[..0] == []; }
    assert ds[0] == DetailOf([w][0], r.units, UnitSeconds(r));
    assert Finishes(ds) == [ds[0].finish];
    assert ev.coordination == 0.0 * overhead;
  }

  // Every unit is handed out, each group member by a largest-remainder share.
  lemma DecisionAllocatesEveryUnit(cfg: SizerConfig, r: Request, deadline: Option<real>, ws: seq<Worker>, d: Decision, details: seq<seq<Detail>>)
    requires PositiveSpeeds(ws) && ws != [] && r.Valid() && PartitionedDecision(cfg, r, deadline, ws, d, details)
    ensures |d.details| == d.count && Sum(Units(d.details)) == r.units
    ensures forall i :: 0 <= i < d.count ==> d.details[i].id == d.selected[i] && d.details[i].units >= 0
  {
    var group := ws[..d.count];
    assert Evaluated(group, r.units, UnitSeconds(r), OrElse(r.overhead, cfg.overhead), d.evaluations[d.count - 1], d.details);
    forall i | 0 <= i < d.count ensures d.details[i].id == d.selected[i] && d.details[i].units >= 0 {
      UnitsNotNegative(Units(d.details), Speeds(group), r.units, i);
      assert d.details[i] == DetailOf(group[i], d.details[i].units, UnitSeconds(r));
    }
  }

  lemma {:induction false} SpareSkips(ws: seq<Worker>, selected: seq<nat>, k: nat)
    requires k <= |ws|
    requires forall i :: 0 <= i < k ==> ws[i].id in selected
    requires forall i :: k <= i < |ws| ==> ws[i].id !in selected
    ensures SpareIds(ws, selected) == Ids(ws[k..])
  {
    if ws != [] {
      SpareSkips(ws[1..], selected, if k == 0 then 0 else k - 1);
      if k == 0 {
        assert Ids(ws) == [ws[0].id] + Ids(ws[1..]);
        assert ws[0..] == ws && ws[1..][0..] == ws[1..];
      } else {
        assert ws[1..][k - 1..] == ws[k..];
      }
    }
  }

  lemma IdsSplit(ws: seq<Worker>, k: nat)
    requires k <= |ws|
    ensures Ids(ws[..k]) + Ids(ws[k..]) == Ids(ws)
  {
  }

  lemma {:induction false} SelectedThenSpare(ws: seq<Worker>, k: nat)
    requires k <= |ws| && DistinctWorkers(ws)
    ensures Ids(ws[..k]) + SpareIds(ws, Ids(ws[..k])) == Ids(ws)
  {
    var selected := Ids(ws[..k]);
    forall i | 0 <= i < k ensures ws[i].id in selected {
      assert selected[i] == ws[i].id;
    }
    forall i | k <= i < |ws| ensures ws[i].id !in selected {
      assert forall j :: 0 <= j < k ==> selected[j] == ws[j].id;
    }
    SpareSkips(ws, selected, k);
    IdsSplit(ws, k);
  }

  // Selected and spare workers together are exactly the eligible workers, in the order of the ranking.
  lemma {:induction false} SelectedAndSpareCover(cfg: SizerConfig, r: Request, profiles: seq<Profile>, eligible: set<nat>,
                                                 deadline: Option<real>, ws: seq<Worker>, d: Decision, details: seq<seq<Detail>>)
    requires IsRanking(cfg, r, profiles, eligible, ws) && DistinctProfiles(profiles)
    requires ws != [] && r.Valid() && PartitionedDecision(cfg, r, deadline, ws, d, details)
    ensures d.selected + d.spare == Ids(ws) && Distinct(d.selected + d.spare)
    ensures forall id :: id in d.selected + d.spare <==> id in eligible && exists p :: p in profiles && p.id == id
  {
    SelectedThenSpare(ws, d.count);
    assert d.selected + d.spare == Ids(ws);
    IdsOfRanking(cfg, r, profiles, eligible, ws);
  }

  lemma IdsOfRanking(cfg: SizerConfig, r: Request, profiles: seq<Profile>, eligible: set<nat>, ws: seq<Worker>)
    requires IsRanking(cfg, r, profiles, eligible, ws)
    ensures forall id :: id in Ids(ws) <==> id in eligible && exists p :: p in profiles && p.id == id
  {
    forall id ensures id in Ids(ws) <==> id in eligible && exists p :: p in profiles && p.id == id {
      if id in Ids(ws) {
        var i :| 0 <= i < |ws| && Ids(ws)[i] == id;
        assert ws[i] in ws;
      }
      if id in eligible && exists p :: p in profiles && p.id == id {
        var p :| p in profiles && p.id == id;
        var w := WorkerOf(r, OrElse(r.bandwidth, cfg.bandwidth), p);
        QualifiesIff(cfg, r, profiles, eligible, w);
        var i :| 0 <= i < |ws| && ws[i] == w;
        assert Ids(ws)[i] == id;
      }
    }
  }

  lemma WallsArePositive(ws: seq<Worker>, units: nat, unitSeconds: real, overhead: real, evs: seq<Evaluation>, details: seq<seq<Detail>>, k: nat)
    requires PositiveSpeeds(ws) && unitSeconds > 0.0 && overhead >= 0.0 && units >= 1
    requires forall i :: 0 <= i < |ws| ==> ws[i].transfer >= 0.0
    requires Timed(ws, units, unitSeconds, overhead, evs, details) && k < |evs|
    ensures evs[k].wall > 0.0
  {
    var group := ws[..k + 1];
    WallAtLeastIdealSplit(group, units, unitSeconds, overhead, evs[k], details[k]);
    ProductSign(k as real, overhead);
    var work, speed := units as real * unitSeconds, evs[k].aggregateSpeed;
    ProductSign(units as real - 1.0, unitSeconds);
    assert work >= unitSeconds;
    var t := work / speed;
    assert t * speed == work;
    PositiveFactor(t, speed);
  }

  lemma AllWallsPositive(ws: seq<Worker>, units: nat, unitSeconds: real, overhead: real, evs: seq<Evaluation>, details: seq<seq<Detail>>)
    requires PositiveSpeeds(ws) && unitSeconds > 0.0 && overhead >= 0.0 && units >= 1
    requires forall i :: 0 <= i < |ws| ==> ws[i].transfer >= 0.0
    requires Timed(ws, units, unitSeconds, overhead, evs, details)
    ensures forall k :: 0 <= k < |evs| ==> evs[k].wall > 0.0
  {
    forall k | 0 <= k < |evs| ensures evs[k].wall > 0.0 {
      WallsArePositive(ws, units, unitSeconds, overhead, evs, details, k);
    }
  }

  lemma GrowthPays(ws: seq<Worker>, units: nat, unitSeconds: real, overhead: real, evs: seq<Evaluation>, details: seq<seq<Detail>>,
                   threshold: real, chosen: nat)
    requires PositiveSpeeds(ws) && unitSeconds > 0.0 && overhead >= 0.0 && units >= 1 && threshold <= 1.0
    requires forall i :: 0 <= i < |ws| ==> ws[i].transfer >= 0.0
    requires Timed(ws, units, unitSeconds, overhead, evs, details) && Compared(None, evs) && GrowsTo(evs, threshold, chosen)
    ensures forall j :: 1 <= j < chosen ==> evs[j].wall < evs[j - 1].wall
    ensures Compounded(evs, threshold, chosen)
  {
    AllWallsPositive(ws, units, unitSeconds, overhead, evs, details);
    WallDecays(evs, threshold, chosen, chosen);
  }

  // Without a deadline each extra worker pays for itself, and the gains compound.
  lemma EfficiencyPaysOff(cfg: SizerConfig, r: Request, profiles: seq<Profile>, eligible: set<nat>, ws: seq<Worker>, d: Decision,
                          details: seq<seq<Detail>>)
    requires IsRanking(cfg, r, profiles, eligible, ws) && ws != [] && r.Valid() && PartitionedDecision(cfg, r, None, ws, d, details)
    requires cfg.overhead >= 0.0 && cfg.threshold <= 1.0
    ensures forall j :: 1 <= j < d.count ==> d.evaluations[j].wall < d.evaluations[j - 1].wall
    ensures Compounded(d.evaluations, OrElse(r.threshold, cfg.threshold), d.count)
  {
    GrowthPays(ws, r.units, UnitSeconds(r), OrElse(r.overhead, cfg.overhead), d.evaluations, details,
               OrElse(r.threshold, cfg.threshold), d.count);
  }

  // Without a deadline the size is the first whose successor fails to cut the threshold fraction off
  // the wall clock, and the decision is never infeasible.
  lemma EfficiencyStopsExactly(cfg: SizerConfig, r: Request, profiles: seq<Profile>, eligible: set<nat>, ws: seq<Worker>, d: Decision,
                               details: seq<seq<Detail>>)
    requires IsRanking(cfg, r, profiles, eligible, ws) && ws != [] && r.Valid() && PartitionedDecision(cfg, r, None, ws, d, details)
    requires cfg.overhead >= 0.0 && 0.0 < cfg.threshold <= 1.0
    ensures StopsAt(d.evaluations, OrElse(r.threshold, cfg.threshold), d.count)
    ensures d.achievable && d.feasibility == if r.unitSeconds.Some? then Feasible else UnknownEstimate
  {
    GrowthStops(ws, r.units, UnitSeconds(r), OrElse(r.overhead, cfg.overhead), d.evaluations, details,
                OrElse(r.threshold, cfg.threshold), d.count);
  }

  lemma GrowthStops(ws: seq<Worker>, units: nat, unitSeconds: real, overhead: real, evs: seq<Evaluation>, details: seq<seq<Detail>>,
                    threshold: real, chosen: nat)
    requires PositiveSpeeds(ws) && unitSeconds > 0.0 && overhead >= 0.0 && units >= 1 && 0.0 < threshold <= 1.0
    requires forall i :: 0 <= i < |ws| ==> ws[i].transfer >= 0.0
    requires Timed(ws, units, unitSeconds, overhead, evs, details) && Compared(None, evs) && GrowsTo(evs, threshold, chosen)
    ensures StopsAt(evs, threshold, chosen)
  {
    AllWallsPositive(ws, units, unitSeconds, overhead, evs, details);
    GrowsExactly(evs, threshold, chosen);
  }

  lemma ChosenMeetsDeadline(evs: seq<Evaluation>, limit: real, safetyMargin: real, threshold: real, k: nat, achievable: bool)
    requires limit >= 0.0 && safetyMargin >= 0.0 && 1 <= k <= |evs|
    requires ChosenSize(evs, Some(limit), safetyMargin, threshold, k, achievable)
    ensures achievable <==> AnyWithin(evs, limit)
    ensures achievable ==> evs[k - 1].wall <= limit
  {
    AchievableExactly(evs, limit, safetyMargin);
    ProductSign(limit, safetyMargin);
    assert limit * (1.0 - safetyMargin) == limit - limit * safetyMargin;
  }

  // With a deadline the decision is feasible exactly when some evaluated size meets the deadline.
  lemma {:induction false} DeadlineVerdict(cfg: SizerConfig, r: Request, now: real, ws: seq<Worker>, d: Decision, details: seq<seq<Detail>>)
    requires PositiveSpeeds(ws) && ws != [] && r.Valid() && cfg.safetyMargin >= 0.0
    requires EffectiveDeadline(r, now).Some? && PartitionedDecision(cfg, r, EffectiveDeadline(r, now), ws, d, details)
    ensures d.achievable <==> exists k :: 0 <= k < |d.evaluations| && d.evaluations[k].meetsDeadline
    ensures d.achievable ==> d.wall <= EffectiveDeadline(r, now).value
    ensures d.feasibility == InfeasibleDeadline <==>
      forall k :: 0 <= k < |d.evaluations| ==> d.evaluations[k].wall > EffectiveDeadline(r, now).value
    ensures d.achievable ==> d.feasibility == if r.unitSeconds.Some? then Feasible else UnknownEstimate
  {
    VerdictOf(d.evaluations, EffectiveDeadline(r, now).value, cfg.safetyMargin, OrElse(r.threshold, cfg.threshold), d.count, d.achievable);
  }

  lemma VerdictOf(evs: seq<Evaluation>, limit: real, safetyMargin: real, threshold: real, k: nat, achievable: bool)
    requires limit >= 0.0 && safetyMargin >= 0.0 && 1 <= k <= |evs| && Compared(Some(limit), evs)
    requires ChosenSize(evs, Some(limit), safetyMargin, threshold, k, achievable)
    ensures achievable <==> exists j :: 0 <= j < |evs| && evs[j].meetsDeadline
    ensures achievable <==> !forall j :: 0 <= j < |evs| ==> evs[j].wall > limit
    ensures achievable ==> evs[k - 1].wall <= limit
  {
    ChosenMeetsDeadline(evs, limit, safetyMargin, threshold, k, achievable);
    if AnyWithin(evs, limit) {
      var j :| 0 <= j < |evs| && evs[j].wall <= limit;
      assert evs[j].meetsDeadline;
    }
  }
}
