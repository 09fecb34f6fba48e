/** The worker registry: inventories, the inverted hash index, liveness and health. */
module Registry {
  import opened Wrappers

  datatype Status = Active | DegradedWorker | Unhealthy | Draining | Offline

  datatype HealthStatus = Healthy | Degraded | Suspect | Dead

  datatype Worker = Worker(id: nat, inventory: set<nat>, status: Status, lastBeat: real, penalty: real)

  datatype Health = Health(status: HealthStatus, penalty: real, failures: nat, corruptions: nat)

  // A reported digest: 64 hexadecimal digits in some spelling, or text that is no digest.
  datatype Digest = Hex(hash: nat, spelling: nat) | Garbage(text: nat)

  function Normalised(ds: set<Digest>): set<nat> {
    set d | d in ds && d.Hex? :: d.hash
  }

  type Inventories = map<nat, set<nat>>
  type Buckets = map<nat, set<nat>>

  predicate Lists(ix: Buckets, h: nat, w: nat) {
    h in ix && w in ix[h]
  }

  predicate Holds(inv: Inventories, w: nat, h: nat) {
    w in inv && h in inv[w]
  }

  // The hash index is exactly the inverse of the inventories, with no empty bucket.
  ghost predicate Inverse(ix: Buckets, inv: Inventories) {
    && (forall h :: h in ix ==> ix[h] != {})
    && (forall h, w :: Lists(ix, h, w) <==> Holds(inv, w, h))
  }

  function Bucket(ix: Buckets, h: nat): set<nat> {
    if h in ix then ix[h] else {}
  }

  function Added(ix: Buckets, h: nat, w: nat): Buckets {
    ix[h := Bucket(ix, h) + {w}]
  }

  function Dropped(ix: Buckets, h: nat, w: nat): Buckets {
    if h !in ix then ix
    else if ix[h] - {w} == {} then ix - {h}
    else ix[h := ix[h] - {w}]
  }

  lemma AddedKeepsInverse(ix: Buckets, inv: Inventories, h: nat, w: nat)
    requires Inverse(ix, inv) && w in inv
    ensures Inverse(Added(ix, h, w), inv[w := inv[w] + {h}])
  {
    forall k, v ensures Lists(Added(ix, h, w), k, v) <==> Holds(inv[w := inv[w] + {h}], v, k) {
      assert Lists(ix, k, v) <==> Holds(inv, v, k);
    }
  }

  lemma DroppedKeepsInverse(ix: Buckets, inv: Inventories, h: nat, w: nat)
    requires Inverse(ix, inv) && w in inv
    ensures Inverse(Dropped(ix, h, w), inv[w := inv[w] - {h}])
  {
    forall k, v ensures Lists(Dropped(ix, h, w), k, v) <==> Holds(inv[w := inv[w] - {h}], v, k) {
      assert Lists(ix, k, v) <==> Holds(inv, v, k);
      assert h in ix && v in ix[h] && v != w ==> v in ix[h] - {w};
    }
  }

  // Inventories that hold the same things have the same inverse.
  lemma SameHoldings(ix: Buckets, a: Inventories, b: Inventories)
    requires forall w, h :: Holds(a, w, h) <==> Holds(b, w, h)
    requires Inverse(ix, a)
    ensures Inverse(ix, b)
  {
  }

  // One inverse per inventories: the index holds no other information.
  lemma InverseIsUnique(a: Buckets, b: Buckets, inv: Inventories)
    requires Inverse(a, inv) && Inverse(b, inv)
    ensures a == b
  {
    forall h, w ensures Lists(a, h, w) <==> Lists(b, h, w) {
      assert Lists(a, h, w) <==> Holds(inv, w, h);
    }
    SameLists(a, b);
  }

  lemma SameLists(a: Buckets, b: Buckets)
    requires forall h :: h in a ==> a[h] != {}
    requires forall h :: h in b ==> b[h] != {}
    requires forall h, w :: Lists(a, h, w) <==> Lists(b, h, w)
    ensures a == b
  {
    forall h | h in a ensures h in b && a[h] == b[h] {
      var w :| w in a[h];
      assert Lists(a, h, w);
      forall v ensures v in a[h] <==> v in b[h] {
        assert Lists(a, h, v) <==> Lists(b, h, v);
      }
    }
    forall h | h in b ensures h in a {
      var w :| w in b[h];
      assert Lists(b, h, w);
    }
  }

  // One worker's inventory was replaced, in both places it is kept; nothing else changed.
  ghost predicate Stocked(workers0: map<nat, Worker>, inv0: Inventories, workers: map<nat, Worker>, inv: Inventories, w: nat, stock: set<nat>) {
    && w in workers0 && w in inv0
    && inv == inv0[w := stock]
    && workers == workers0[w := workers0[w].(inventory := stock)]
  }

  lemma StockedTwice(workers0: map<nat, Worker>, inv0: Inventories, workers1: map<nat, Worker>, inv1: Inventories,
                     workers2: map<nat, Worker>, inv2: Inventories, w: nat, stock1: set<nat>, stock2: set<nat>)
    requires Stocked(workers0, inv0, workers1, inv1, w, stock1) && Stocked(workers1, inv1, workers2, inv2, w, stock2)
    ensures Stocked(workers0, inv0, workers2, inv2, w, stock2)
  {
  }

  lemma StockedAfter(workers0: map<nat, Worker>, inv0: Inventories, workers1: map<nat, Worker>, workers2: map<nat, Worker>, inv2: Inventories,
                     w: nat, row: Worker, stock: set<nat>)
    requires workers1 == workers0[w := row] && Stocked(workers1, inv0, workers2, inv2, w, stock)
    ensures inv2 == inv0[w := stock] && workers2 == workers0[w := row.(inventory := inv2[w])]
  {
  }

  function AfterHeartbeat(s: Status): Status {
    if s == Offline then Active else s
  }

  // Health transitions -------------------------------------------------------------------------

  function AfterFailure(h: Health, penalty: real, degraded: real, suspect: real): Health {
    var p := h.penalty + if penalty > 0.0 then penalty else 0.0;
    Health(if p >= suspect then Suspect else if p >= degraded then Degraded else h.status, p, h.failures + 1, h.corruptions)
  }

  function AfterSuccess(h: Health, degraded: real): Health {
    var p := if h.penalty - 0.5 > 0.0 then h.penalty - 0.5 else 0.0;
    Health(if p < degraded && h.status == Degraded then Healthy else h.status, p, 0, h.corruptions)
  }

  // The worker as placement and lookups see it follows its health record.
  function Blamed(w: Worker, penalty: real, degraded: real, suspect: real): Worker {
    w.(penalty := penalty,
       status := if penalty >= suspect then Unhealthy else if penalty >= degraded then DegradedWorker else w.status)
  }

  function Credited(w: Worker, before: HealthStatus, penalty: real, degraded: real): Worker {
    w.(penalty := penalty, status := if penalty < degraded && before == Degraded then Active else w.status)
  }

  function AfterRegistration(h: Option<Health>): Health {
    match h
    case None => Health(Healthy, 0.0, 0, 0)
    case Some(r) => if r.status == Dead then r.(status := Healthy, failures := 0) else r
  }

  // Failures in a row, and what they charge in all; a negative penalty charges nothing.
  function AfterFailures(h: Health, penalties: seq<real>, degraded: real, suspect: real): Health {
    if penalties == [] then h else AfterFailure(AfterFailures(h, penalties[..|penalties| - 1], degraded, suspect), penalties[|penalties| - 1], degraded, suspect)
  }

  function Charged(penalties: seq<real>): (c: real)
    ensures c >= 0.0
  {
    if penalties == [] then 0.0 else
      var p := penalties[|penalties| - 1];
      Charged(penalties[..|penalties| - 1]) + if p > 0.0 then p else 0.0
  }

  // Penalties accumulate, failures are counted, and the status is that of the total.
  lemma {:induction false} PenaltiesAccumulate(h: Health, penalties: seq<real>, degraded: real, suspect: real)
    requires penalties != [] && degraded <= suspect
    ensures var r, total := AfterFailures(h, penalties, degraded, suspect), h.penalty + Charged(penalties);
      && r.penalty == total && r.failures == h.failures + |penalties| && r.corruptions == h.corruptions
      && r.status == if total >= suspect then Suspect else if total >= degraded then Degraded else h.status
  {
    if |penalties| == 1 {
      assert penalties[..0] == [];
    } else {
      PenaltiesAccumulate(h, penalties[..|penalties| - 1], degraded, suspect);
    }
  }

  function AfterSuccesses(h: Health, n: nat, degraded: real): Health {
    if n == 0 then h else AfterSuccess(AfterSuccesses(h, n - 1, degraded), degraded)
  }

  // Each success takes half a point off, down to zero, and clears the count of failures; a degraded
  // record is healthy again as soon as its penalty is low enough, a suspect one never by success alone.
  lemma {:induction false} SuccessesRecover(h: Health, n: nat, degraded: real)
    requires n > 0
    ensures var r, left := AfterSuccesses(h, n, degraded), h.penalty - n as real * 0.5;
      && r.penalty == (if left > 0.0 then left else 0.0) && r.failures == 0 && r.corruptions == h.corruptions
      && r.status == if h.status == Degraded && r.penalty < degraded then Healthy else h.status
  {
    if n == 1 {
      assert AfterSuccesses(h, 0, degraded) == h;
    } else {
      SuccessesRecover(h, n - 1, degraded);
    }
  }

  // The worker row follows the record: it changes status exactly when the record does, to the same effect.
  lemma RowFollowsRecord(w: Worker, h: Health, penalty: real, degraded: real, suspect: real)
    requires degraded <= suspect
    ensures var r := AfterFailure(h, penalty, degraded, suspect);
      var row := Blamed(w, r.penalty, degraded, suspect);
      && row == w.(penalty := r.penalty, status := row.status)
      && (r.penalty >= degraded ==> r.status in {Suspect, Degraded} && row.status == if r.status == Suspect then Unhealthy else DegradedWorker)
      && (r.penalty < degraded ==> r.status == h.status && row.status == w.status)
    ensures var r := AfterSuccess(h, degraded);
      var row := Credited(w, h.status, r.penalty, degraded);
      && row == w.(penalty := r.penalty, status := row.status)
      && row.status == if h.status == Degraded && r.status == Healthy then Active else w.status
  {
  }

  // A registration starts a new record, revives a dead one with its penalty and corruptions, and
  // leaves any other as it is.
  lemma RegistrationMeans(h: Health)
    ensures AfterRegistration(None) == Health(Healthy, 0.0, 0, 0)
    ensures var r := AfterRegistration(Some(h));
      && r.status != Dead && r.penalty == h.penalty && r.corruptions == h.corruptions
      && (if h.status == Dead then r.status == Healthy && r.failures == 0 else r == h)
  {
  }

  // A worker counted as healthy carries less than the degrading penalty.
  predicate LowWhenHealthy(h: Health, degraded: real) {
    h.status == Healthy ==> h.penalty < degraded
  }

  lemma TransfersKeepHealthHonest(h: Health, penalty: real, degraded: real, suspect: real)
    requires LowWhenHealthy(h, degraded) && degraded <= suspect && degraded > 0.0
    ensures LowWhenHealthy(AfterFailure(h, penalty, degraded, suspect), degraded)
    ensures LowWhenHealthy(AfterSuccess(h, degraded), degraded)
  {
  }

  // Registration keeps it exactly if a dead record was not left with a degrading penalty:
  // re-registering revives the worker but does not clear its penalty.
  lemma RegistrationKeepsHealthHonestIff(h: Health, degraded: real)
    requires LowWhenHealthy(h, degraded)
    ensures LowWhenHealthy(AfterRegistration(Some(h)), degraded) <==> !(h.status == Dead && h.penalty >= degraded)
  {
  }

  lemma RevivedWorkerKeepsPenalty()
    ensures AfterRegistration(Some(Health(Dead, 7.0, 3, 1))) == Health(Healthy, 7.0, 0, 1)
    ensures !LowWhenHealthy(AfterRegistration(Some(Health(Dead, 7.0, 3, 1))), 3.0)
  {
  }

  class WorkerRegistry {
    const degradedThreshold: real
    const suspectThreshold: real
    var workers: map<nat, Worker>
    var hashIndex: Buckets
    var workerHashes: Inventories
    var health: map<nat, Health>

    ghost predicate Valid()
      reads this
    {
      && workers.Keys == workerHashes.Keys <= health.Keys
      && (forall w :: w in workers ==> workers[w].id == w && workers[w].inventory == workerHashes[w])
      && (forall w :: w in workers ==> health[w].status != Dead)
      && Inverse(hashIndex, workerHashes)
    }

    constructor (degradedThreshold: real, suspectThreshold: real)
      ensures Valid() && workerHashes == map[]
    {
      this.degradedThreshold, this.suspectThreshold := degradedThreshold, suspectThreshold;
      workers, hashIndex, workerHashes, health := map[], map[], map[], map[];
    }

    // Index maintenance --------------------------------------------------------------------------

    method RemoveWorkerFromIndex(w: nat)
      requires w in workerHashes && Inverse(hashIndex, workerHashes)
      modifies this`hashIndex, this`workerHashes
      ensures workerHashes == old(workerHashes) - {w} && Inverse(hashIndex, workerHashes)
    {
      var hashes := workerHashes[w];
      ghost var inv: Inventories := workerHashes;
      workerHashes := workerHashes - {w};
      SameHoldings(hashIndex, inv, inv[w := hashes]);
      while hashes != {}
        invariant Inverse(hashIndex, inv[w := hashes]) && workerHashes == inv - {w}
        decreases hashes
      {
        var h :| h in hashes;
        DroppedKeepsInverse(hashIndex, inv[w := hashes], h, w);
        assert inv[w := hashes][w := hashes - {h}] == inv[w := hashes - {h}];
        hashIndex := Dropped(hashIndex, h, w);
        hashes := hashes - {h};
      }
      SameHoldings(hashIndex, inv[w := {}], workerHashes);
    }

    method AddHash(w: nat, h: nat) returns (isNew: bool)
      requires w in workerHashes && Inverse(hashIndex, workerHashes)
      modifies this`hashIndex, this`workerHashes
      ensures Inverse(hashIndex, workerHashes) && isNew == (h !in old(workerHashes)[w])
      ensures workerHashes == old(workerHashes)[w := old(workerHashes)[w] + {h}]
      ensures |workerHashes[w]| == |old(workerHashes)[w]| + if isNew then 1 else 0
    {
      isNew := h !in workerHashes[w];
      if isNew {
        AddedKeepsInverse(hashIndex, workerHashes, h, w);
        hashIndex := Added(hashIndex, h, w);
        workerHashes := workerHashes[w := workerHashes[w] + {h}];
      } else {
        assert workerHashes[w] + {h} == workerHashes[w];
      }
    }

    method RemoveHash(w: nat, h: nat) returns (present: bool)
      requires w in workerHashes && Inverse(hashIndex, workerHashes)
      modifies this`hashIndex, this`workerHashes
      ensures Inverse(hashIndex, workerHashes) && present == (h in old(workerHashes)[w])
      ensures workerHashes == old(workerHashes)[w := old(workerHashes)[w] - {h}]
    {
      present := h in workerHashes[w];
      if present {
        DroppedKeepsInverse(hashIndex, workerHashes, h, w);
        hashIndex := Dropped(hashIndex, h, w);
        workerHashes := workerHashes[w := workerHashes[w] - {h}];
      } else {
        assert workerHashes[w] - {h} == workerHashes[w];
      }
    }

    // Adds every well-formed digest; malformed ones are skipped.
    method AddHashesLocked(w: nat, digests: set<Digest>) returns (added: nat)
      requires Valid()
      modifies this`hashIndex, this`workerHashes, this`workers
      ensures Valid() && workers.Keys == old(workers).Keys
      ensures w !in old(workers) ==> added == 0 && workers == old(workers) && workerHashes == old(workerHashes)
      ensures w in old(workers) ==>
        && Stocked(old(workers), old(workerHashes), workers, workerHashes, w, old(workerHashes)[w] + Normalised(digests))
        && added == |workerHashes[w]| - |old(workerHashes)[w]|
    {
      added := 0;
      if w !in workers {
        return;
      }
      var todo := digests;
      ghost var inv: Inventories, start: set<nat> := workerHashes, workerHashes[w];
      NothingDone(digests);
      assert start + {} == start && inv[w := start] == inv;
      while todo != {}
        invariant todo <= digests && workers == old(workers)
        invariant w in workerHashes && workerHashes == inv[w := start + Normalised(digests - todo)]
        invariant Inverse(hashIndex, workerHashes)
        invariant added == |workerHashes[w]| - |start|
        decreases todo
      {
        var d :| d in todo;
        ghost var done := Normalised(digests - todo);
        NormalisedSplits(digests, todo, d);
        if d.Hex? {
          var isNew := AddHash(w, d.hash);
          assert (start + done) + {d.hash} == start + (done + {d.hash});
          added := added + if isNew then 1 else 0;
        }
        todo := todo - {d};
      }
      assert digests - {} == digests;
      workers := workers[w := workers[w].(inventory := workerHashes[w])];
    }

    method RemoveEach(w: nat, digests: set<Digest>) returns (removed: nat)
      requires w in workerHashes && Inverse(hashIndex, workerHashes)
      modifies this`hashIndex, this`workerHashes
      ensures workerHashes == old(workerHashes)[w := old(workerHashes)[w] - Normalised(digests)]
      ensures Inverse(hashIndex, workerHashes) && removed == |old(workerHashes)[w]| - |workerHashes[w]|
    {
      removed := 0;
      var todo := digests;
      ghost var inv: Inventories, start: set<nat> := workerHashes, workerHashes[w];
      NothingDone(digests);
      assert start - {} == start && inv[w := start] == inv;
      while todo != {}
        invariant todo <= digests
        invariant w in workerHashes && workerHashes == inv[w := start - Normalised(digests - todo)]
        invariant Inverse(hashIndex, workerHashes)
        invariant removed == |start| - |workerHashes[w]|
        decreases todo
      {
        var d :| d in todo;
        ghost var done := Normalised(digests - todo);
        NormalisedSplits(digests, todo, d);
        if d.Hex? {
          var present := RemoveHash(w, d.hash);
          assert (start - done) - {d.hash} == start - (done + {d.hash});
          removed := removed + if present then 1 else 0;
        }
        todo := todo - {d};
      }
      assert digests - {} == digests;
    }

    method RemoveHashesLocked(w: nat, digests: set<Digest>) returns (removed: nat)
      requires Valid()
      modifies this`hashIndex, this`workerHashes, this`workers
      ensures Valid() && workers.Keys == old(workers).Keys
      ensures w !in old(workers) ==> removed == 0 && workers == old(workers) && workerHashes == old(workerHashes)
      ensures w in old(workers) ==>
        && Stocked(old(workers), old(workerHashes), workers, workerHashes, w, old(workerHashes)[w] - Normalised(digests))
        && removed == |old(workerHashes)[w]| - |workerHashes[w]|
    {
      removed := 0;
      if w in workers {
        removed := RemoveEach(w, digests);
        workers := workers[w := workers[w].(inventory := workerHashes[w])];
      }
    }

    // Registration and liveness ------------------------------------------------------------------

    // Clears the way for a (re-)registration: the worker is known, with nothing in its inventory.
    method AdmitWorker(info: Worker)
      requires Valid()
      modifies this
      ensures Valid()
      ensures workerHashes == old(workerHashes)[info.id := {}]
      ensures workers == old(workers)[info.id := info.(inventory := {})]
      ensures health == old(health)[info.id := AfterRegistration(if info.id in old(health) then Some(old(health)[info.id]) else None)]
    {
      var w := info.id;
      if w in workerHashes {
        RemoveWorkerFromIndex(w);
      }
      SameHoldings(hashIndex, workerHashes, workerHashes[w := {}]);
      workers := workers[w := info.(inventory := {})];
      workerHashes := workerHashes[w := {}];
      health := health[w := AfterRegistration(if w in health then Some(health[w]) else None)];
    }

    // Registers or replaces a worker; its old inventory leaves the index first. A registration that
    // carries no heartbeat counts as one now.
    method RegisterWorker(info: Worker, digests: set<Digest>, now: real)
      requires Valid()
      modifies this
      ensures Valid()
      ensures workerHashes == old(workerHashes)[info.id := Normalised(digests)]
      ensures workers == old(workers)[info.id :=
        info.(inventory := Normalised(digests), lastBeat := if info.lastBeat <= 0.0 then now else info.lastBeat)]
      ensures health == old(health)[info.id := AfterRegistration(if info.id in old(health) then Some(old(health)[info.id]) else None)]
    {
      var stamped := if info.lastBeat <= 0.0 then info.(lastBeat := now) else info;
      ghost var workers0 := workers;
      AdmitWorker(stamped);
      ghost var workers1, inv1 := workers, workerHashes;
      var _ := AddHashesLocked(info.id, digests);
      StockedAfter(workers0, inv1, workers1, workers, workerHashes, info.id, stamped.(inventory := {}), inv1[info.id] + Normalised(digests));
      assert {} + Normalised(digests) == Normalised(digests);
    }

    method UnregisterWorker(w: nat) returns (found: bool)
      requires Valid()
      modifies this
      ensures Valid() && found == (w in old(workers))
      ensures workers == old(workers) - {w} && workerHashes == old(workerHashes) - {w}
      ensures health == if found then old(health)[w := old(health)[w].(status := Dead)] else old(health)
    {
      found := w in workers;
      if found {
        workers := workers - {w};
        RemoveWorkerFromIndex(w);
        health := health[w := health[w].(status := Dead)];
      }
    }

    // Replaces an inventory by a target set; returns how many hashes came and went.
    method SyncInventory(w: nat, target: set<Digest>) returns (added: nat, removed: nat)
      requires Valid()
      modifies this`hashIndex, this`workerHashes, this`workers
      ensures Valid() && workers.Keys == old(workers).Keys
      ensures w !in old(workers) ==> workers == old(workers) && workerHashes == old(workerHashes) && (added, removed) == (0, 0)
      ensures w in old(workers) ==>
        && Stocked(old(workers), old(workerHashes), workers, workerHashes, w, Normalised(target))
        && added == |Normalised(target) - old(workerHashes)[w]| && removed == |old(workerHashes)[w] - Normalised(target)|
    {
      added, removed := 0, 0;
      if w !in workers {
        return;
      }
      var goal, current := Normalised(target), workerHashes[w];
      var toAdd := set h | h in goal - current :: Hex(h, 0);
      var toRemove := set h | h in current - goal :: Hex(h, 0);
      HexesNormalise(goal - current, toAdd);
      HexesNormalise(current - goal, toRemove);
      added, removed := Exchange(w, toAdd, toRemove);
      assert (current + (goal - current)) - (current - goal) == goal;
      SyncCounts(current, goal);
    }

    // Adds one set of digests and then removes another.
    method Exchange(w: nat, toAdd: set<Digest>, toRemove: set<Digest>) returns (added: nat, removed: nat)
      requires Valid() && w in workers
      modifies this`hashIndex, this`workerHashes, this`workers
      ensures Valid() && workers.Keys == old(workers).Keys
      ensures Stocked(old(workers), old(workerHashes), workers, workerHashes, w, old(workerHashes)[w] + Normalised(toAdd) - Normalised(toRemove))
      ensures added == |old(workerHashes)[w] + Normalised(toAdd)| - |old(workerHashes)[w]|
      ensures removed == |old(workerHashes)[w] + Normalised(toAdd)| - |workerHashes[w]|
    {
      ghost var workers0, inv0 := workers, workerHashes;
      added := AddHashesLocked(w, toAdd);
      ghost var workers1, inv1 := workers, workerHashes;
      removed := RemoveHashesLocked(w, toRemove);
      StockedTwice(workers0, inv0, workers1, inv1, workers, workerHashes, w, inv1[w], workerHashes[w]);
    }

    // A worker restored from a store is offline until it proves alive.
    method Promote(w: nat)
      requires Valid() && w in workers
      modifies this`workers
      ensures Valid()
      ensures workers == old(workers)[w := old(workers)[w].(status := AfterHeartbeat(old(workers)[w].status))]
    {
      if workers[w].status == Offline {
        workers := workers[w := workers[w].(status := Active)];
      }
    }

    // A heartbeat proves liveness, applies the inventory deltas and revives a restored worker.
    method RecordHeartbeat(w: nat, now: real, added: set<Digest>, removed: set<Digest>) returns (known: bool)
      requires Valid()
      modifies this`hashIndex, this`workerHashes, this`workers
      ensures Valid() && known == (w in old(workers)) && workers.Keys == old(workers).Keys
      ensures !known ==> workers == old(workers) && workerHashes == old(workerHashes)
      ensures known ==> workerHashes == old(workerHashes)[w := old(workerHashes)[w] + Normalised(added) - Normalised(removed)]
      ensures known ==> workers[w] == old(workers)[w].(lastBeat := now, inventory := workerHashes[w],
        status := if old(workers)[w].status == Offline then Active else old(workers)[w].status)
      ensures forall v :: v in workers && v != w ==> workers[v] == old(workers)[v]
    {
      known := w in workers;
      if known {
        workers := workers[w := workers[w].(lastBeat := now)];
        var _, _ := Exchange(w, added, removed);
        Promote(w);
      }
    }

    // Unregisters every worker whose last heartbeat is older than the cutoff.
    method EvictExpiredWorkers(cutoff: real) returns (evicted: set<nat>)
      requires Valid()
      modifies this
      ensures Valid()
      ensures evicted == set w | w in old(workers) && old(workers)[w].lastBeat < cutoff
      ensures workers == old(workers) - evicted && workerHashes == old(workerHashes) - evicted
      ensures forall w :: w in health <==> w in old(health)
      ensures forall w :: w in health ==> health[w] == if w in evicted then old(health)[w].(status := Dead) else old(health)[w]
    {
      var expired := set w | w in workers && workers[w].lastBeat < cutoff;
      evicted := {};
      while evicted != expired
        invariant evicted <= expired <= old(workers).Keys
        invariant Valid() && workers == old(workers) - evicted && workerHashes == old(workerHashes) - evicted
        invariant forall w :: w in health <==> w in old(health)
        invariant forall w :: w in health ==> health[w] == if w in evicted then old(health)[w].(status := Dead) else old(health)[w]
        decreases expired - evicted
      {
        var remaining := expired - evicted;
        assert evicted + remaining == expired;
        var w :| w in remaining;
        var _ := UnregisterWorker(w);
        evicted := evicted + {w};
      }
    }

    // Health ---------------------------------------------------------------------------------------

    method RecordFailure(w: nat, penalty: real)
      requires Valid()
      modifies this`health, this`workers
      ensures Valid()
      ensures w !in old(health) ==> health == old(health) && workers == old(workers)
      ensures w in old(health) ==>
        health == old(health)[w := AfterFailure(old(health)[w], penalty, degradedThreshold, suspectThreshold)]
      ensures workers == if w !in old(workers) then old(workers) else
        old(workers)[w := Blamed(old(workers)[w], health[w].penalty, degradedThreshold, suspectThreshold)]
    {
      if w in health {
        var record := AfterFailure(health[w], penalty, degradedThreshold, suspectThreshold);
        if w in workers {
          var status := if record.penalty >= suspectThreshold then Unhealthy
                        else if record.penalty >= degradedThreshold then DegradedWorker else workers[w].status;
          workers := workers[w := workers[w].(penalty := record.penalty, status := status)];
        }
        health := health[w := record];
      }
    }

    method RecordSuccess(w: nat)
      requires Valid()
      modifies this`health, this`workers
      ensures Valid()
      ensures w in old(health) ==> health == old(health)[w := AfterSuccess(old(health)[w], degradedThreshold)]
      ensures w !in old(health) ==> health == old(health)
      ensures workers == if w !in old(workers) then old(workers) else
        old(workers)[w := Credited(old(workers)[w], old(health)[w].status, health[w].penalty, degradedThreshold)]
    {
      if w in health {
        var record := AfterSuccess(health[w], degradedThreshold);
        if w in workers {
          var status := if record.penalty < degradedThreshold && health[w].status == Degraded then Active else workers[w].status;
          workers := workers[w := workers[w].(penalty := record.penalty, status := status)];
        }
        health := health[w := record];
      }
    }

    // A corrupt transfer penalises the worker and withdraws the hash it served.
    method RecordCorruption(w: nat, digest: Digest, penalty: real)
      requires Valid()
      modifies this
      ensures Valid()
      ensures w in old(workers) ==> workerHashes == old(workerHashes)[w := old(workerHashes)[w] - Normalised({digest})]
      ensures w !in old(workers) ==> workerHashes == old(workerHashes)
      ensures health == if w !in old(health) then old(health) else
        old(health)[w := AfterFailure(old(health)[w].(corruptions := old(health)[w].corruptions + 1), penalty, degradedThreshold, suspectThreshold)]
      ensures workers == if w !in old(workers) then old(workers) else
        old(workers)[w := Blamed(old(workers)[w], health[w].penalty, degradedThreshold, suspectThreshold).(inventory := workerHashes[w])]
    {
      if w !in health {
        return;
      }
      ghost var workers0, inv0 := workers, workerHashes;
      CountCorruption(w);
      RecordFailure(w, penalty);
      ghost var workers1 := workers;
      Withdraw(w, digest);
      if w in workers0 {
        StockedAfter(workers0, inv0, workers1, workers, workerHashes, w, workers1[w], inv0[w] - Normalised({digest}));
      }
    }

    method CountCorruption(w: nat)
      requires Valid() && w in health
      modifies this`health
      ensures Valid() && health == old(health)[w := old(health)[w].(corruptions := old(health)[w].corruptions + 1)]
    {
      health := health[w := health[w].(corruptions := health[w].corruptions + 1)];
    }

    method Withdraw(w: nat, digest: Digest)
      requires Valid()
      modifies this`hashIndex, this`workerHashes, this`workers
      ensures Valid() && workers.Keys == old(workers).Keys
      ensures w !in old(workers) ==> workers == old(workers) && workerHashes == old(workerHashes)
      ensures w in old(workers) ==>
        Stocked(old(workers), old(workerHashes), workers, workerHashes, w, old(workerHashes)[w] - Normalised({digest}))
    {
      if digest.Hex? {
        var _ := RemoveHashesLocked(w, {digest});
      } else if w in workers {
        assert workerHashes[w] - {} == workerHashes[w];
        assert Normalised({digest}) == {};
      }
    }

    // Queries --------------------------------------------------------------------------------------

    // The batch lookup answers exactly what a scan of all inventories would.
    method LocateHashes(hashes: seq<nat>) returns (located: map<nat, set<nat>>)
      requires Valid()
      ensures forall h :: h in located <==> h in hashes && exists w :: Holds(workerHashes, w, h)
      ensures forall h, w :: h in located ==> (w in located[h] <==> w in workers && h in workers[w].inventory)
    {
      located := map[];
      var i := 0;
      while i < |hashes|
        invariant 0 <= i <= |hashes|
        invariant forall h :: h in located <==> h in hashes[..i] && h in hashIndex
        invariant forall h :: h in located ==> located[h] == hashIndex[h]
      {
        assert hashes[..i + 1] == hashes[..i] + [hashes[i]];
        if hashes[i] in hashIndex {
          located := located[hashes[i] := hashIndex[hashes[i]]];
        }
        i := i + 1;
      }
      assert hashes[..i] == hashes;
      forall h ensures h in hashIndex <==> exists w :: Holds(workerHashes, w, h) {
        IndexedIffHeld(h);
      }
      forall h, w | h in located ensures w in located[h] <==> w in workers && h in workers[w].inventory {
        assert Lists(hashIndex, h, w) <==> Holds(workerHashes, w, h);
      }
    }

    lemma IndexedIffHeld(h: nat)
      requires Valid()
      ensures h in hashIndex <==> exists w :: Holds(workerHashes, w, h)
    {
      if h in hashIndex {
        var w :| w in hashIndex[h];
        assert Lists(hashIndex, h, w);
      }
      if w :| Holds(workerHashes, w, h) {
        assert Lists(hashIndex, h, w);
      }
    }

    // Any run of registry operations keeps the index the exact inverse of the inventories, and every
    // event moves the health records as its transition says.
    method RunHistory(events: seq<Event>) returns (healths: seq<map<nat, Health>>)
      requires Valid()
      modifies this
      ensures Valid()
      ensures HealthRun(events, healths, degradedThreshold, suspectThreshold)
      ensures healths[0] == old(health) && healths[|events|] == health
    {
      healths := [health];
      for i := 0 to |events|
        invariant Valid() && |healths| == i + 1 && healths[0] == old(health) && healths[i] == health
        invariant HealthRun(events[..i], healths, degradedThreshold, suspectThreshold)
      {
        RunEvent(events[i]);
        HealthRunStep(events, i, healths, health, degradedThreshold, suspectThreshold);
        healths := healths + [health];
      }
      assert events[..|events|] == events;
    }

    method RunEvent(e: Event)
      requires Valid()
      modifies this
      ensures Valid() && HealthStep(e, old(health), health, degradedThreshold, suspectThreshold)
    {
      match e {
        case Register(info, digests, now) => RegisterWorker(info, digests, now);
        case Unregister(w) => var _ := UnregisterWorker(w);
        case Heartbeat(w, now, added, removed) => var _ := RecordHeartbeat(w, now, added, removed);
        case Sync(w, target) => var _, _ := SyncInventory(w, target);
        case AddHashes(w, digests) => var _ := AddHashesLocked(w, digests);
        case RemoveHashes(w, digests) => var _ := RemoveHashesLocked(w, digests);
        case Corruption(w, digest, penalty) => RecordCorruption(w, digest, penalty);
        case Failed(w, penalty) => RecordFailure(w, penalty);
        case Succeeded(w) => RecordSuccess(w);
        case Expire(cutoff) => var _ := EvictExpiredWorkers(cutoff);
      }
    }
  }

  // How one event moves the health records; a worker that leaves is marked dead.
  ghost predicate HealthStep(e: Event, h0: map<nat, Health>, h1: map<nat, Health>, degraded: real, suspect: real) {
    match e
    case Register(info, _, _) => h1 == h0[info.id := AfterRegistration(if info.id in h0 then Some(h0[info.id]) else None)]
    case Unregister(w) => h1 == h0 || (w in h0 && h1 == h0[w := h0[w].(status := Dead)])
    case Corruption(w, _, p) =>
      h1 == if w in h0 then h0[w := AfterFailure(h0[w].(corruptions := h0[w].corruptions + 1), p, degraded, suspect)] else h0
    case Failed(w, p) => h1 == if w in h0 then h0[w := AfterFailure(h0[w], p, degraded, suspect)] else h0
    case Succeeded(w) => h1 == if w in h0 then h0[w := AfterSuccess(h0[w], degraded)] else h0
    case Expire(_) => h1.Keys == h0.Keys && forall w :: w in h0 ==> h1[w] == h0[w] || h1[w] == h0[w].(status := Dead)
    case _ => h1 == h0
  }

  ghost predicate HealthRun(events: seq<Event>, healths: seq<map<nat, Health>>, degraded: real, suspect: real) {
    && |healths| == |events| + 1
    && forall i :: 0 <= i < |events| ==> HealthStep(events[i], healths[i], healths[i + 1], degraded, suspect)
  }

  lemma HealthRunStep(events: seq<Event>, i: nat, healths: seq<map<nat, Health>>, h: map<nat, Health>, degraded: real, suspect: real)
    requires i < |events| && HealthRun(events[..i], healths, degraded, suspect)
    requires HealthStep(events[i], healths[i], h, degraded, suspect)
    ensures HealthRun(events[..i + 1], healths + [h], degraded, suspect)
  {
    forall k | 0 <= k <= i ensures HealthStep(events[..i + 1][k], (healths + [h])[k], (healths + [h])[k + 1], degraded, suspect) {
      assert k < i ==> HealthStep(events[..i][k], healths[k], healths[k + 1], degraded, suspect);
    }
  }

  predicate AllLowWhenHealthy(hs: map<nat, Health>, degraded: real) {
    forall w :: w in hs ==> LowWhenHealthy(hs[w], degraded)
  }

  // A registration that brings a dead record with a degrading penalty back to life.
  predicate Revives(e: Event, hs: map<nat, Health>, degraded: real) {
    e.Register? && e.info.id in hs && hs[e.info.id].status == Dead && hs[e.info.id].penalty >= degraded
  }

  // Of all events only such a registration makes a healthy record carry a degrading penalty.
  lemma HonestStepIff(e: Event, h0: map<nat, Health>, h1: map<nat, Health>, degraded: real, suspect: real)
    requires 0.0 < degraded <= suspect && AllLowWhenHealthy(h0, degraded) && HealthStep(e, h0, h1, degraded, suspect)
    ensures AllLowWhenHealthy(h1, degraded) <==> !Revives(e, h0, degraded)
  {
    if Revives(e, h0, degraded) {
      assert !LowWhenHealthy(h1[e.info.id], degraded);
    } else {
      forall w | w in h1 ensures LowWhenHealthy(h1[w], degraded) {
        assert w in h0 ==> LowWhenHealthy(h0[w], degraded);
      }
    }
  }

  // Over any run: healthy means a penalty below the degrading one, throughout, if and only if no
  // registration of the run revives a record with a degrading penalty.
  lemma {:induction false} HonestRunIff(events: seq<Event>, healths: seq<map<nat, Health>>, degraded: real, suspect: real)
    requires 0.0 < degraded <= suspect && HealthRun(events, healths, degraded, suspect) && AllLowWhenHealthy(healths[0], degraded)
    ensures (forall i :: 0 <= i <= |events| ==> AllLowWhenHealthy(healths[i], degraded)) <==>
            (forall i :: 0 <= i < |events| ==> !Revives(events[i], healths[i], degraded))
  {
    if forall i :: 0 <= i < |events| ==> !Revives(events[i], healths[i], degraded) {
      var n := 0;
      while n < |events|
        invariant 0 <= n <= |events| && forall i :: 0 <= i <= n ==> AllLowWhenHealthy(healths[i], degraded)
      {
        HonestStepIff(events[n], healths[n], healths[n + 1], degraded, suspect);
        n := n + 1;
      }
    }
    if forall i :: 0 <= i <= |events| ==> AllLowWhenHealthy(healths[i], degraded) {
      forall i | 0 <= i < |events| ensures !Revives(events[i], healths[i], degraded) {
        HonestStepIff(events[i], healths[i], healths[i + 1], degraded, suspect);
      }
    }
  }

  datatype Event =
    | Register(info: Worker, digests: set<Digest>, now: real)
    | Unregister(worker: nat)
    | Heartbeat(worker: nat, now: real, added: set<Digest>, removed: set<Digest>)
    | Sync(worker: nat, target: set<Digest>)
    | AddHashes(worker: nat, digests: set<Digest>)
    | RemoveHashes(worker: nat, digests: set<Digest>)
    | Corruption(worker: nat, digest: Digest, penalty: real)
    | Failed(worker: nat, penalty: real)
    | Succeeded(worker: nat)
    | Expire(cutoff: real)

  lemma HexesNormalise(hs: set<nat>, ds: set<Digest>)
    requires ds == set h | h in hs :: Hex(h, 0)
    ensures Normalised(ds) == hs
  {
    forall h | h in hs ensures h in Normalised(ds) {
      assert Hex(h, 0) in ds;
    }
  }

  lemma SyncCounts(current: set<nat>, goal: set<nat>)
    ensures |current + (goal - current)| - |current| == |goal - current|
    ensures |current + (goal - current)| - |goal| == |current - goal|
  {
    var all := current + (goal - current);
    assert |all| == |current| + |goal - current|;
    assert all == goal + (current - goal);
    assert |all| == |goal| + |current - goal|;
  }

  lemma NothingDone(digests: set<Digest>)
    ensures Normalised(digests - digests) == {}
  {
    assert digests - digests == {};
  }

  lemma NormalisedSplits(digests: set<Digest>, todo: set<Digest>, d: Digest)
    requires todo <= digests && d in todo
    ensures Normalised(digests - (todo - {d})) == Normalised(digests - todo) + if d.Hex? then {d.hash} else {}
  {
    assert digests - (todo - {d}) == (digests - todo) + {d};
  }
}
