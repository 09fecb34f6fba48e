/** Least-recently-used eviction under a byte quota. */
module CacheEviction {
  import opened Wrappers
  import opened Ordering
  import opened CacheIndex
  import opened CacheStorage

  const BATCH_SIZE: nat := 100

  function SizeOf(m: Rows, hs: seq<nat>): nat
    requires forall i :: 0 <= i < |hs| ==> hs[i] in m
  {
    if hs == [] then 0 else m[hs[0]].size + SizeOf(m, hs[1..])
  }

  predicate AllIn(m: Rows, hs: seq<nat>) {
    forall i :: 0 <= i < |hs| ==> hs[i] in m
  }

  // The rows eviction removes when no file is locked: oldest first, skipping rows in a state
  // that cannot be evicted, until the target is met or a whole batch of skipped rows has piled up.
  function Victims(m: Rows, order: seq<nat>, stuck: nat, target: int): (v: seq<nat>)
    requires AllIn(m, order)
    ensures AllIn(m, v)
  {
    if order == [] || target <= 0 || stuck >= BATCH_SIZE then []
    else if Evictable(m[order[0]].state) then
      [order[0]] + Victims(m, order[1..], stuck, target - m[order[0]].size)
    else Victims(m, order[1..], stuck + 1, target)
  }

  lemma {:induction false} ByIndex(m: Rows, order: seq<nat>)
    requires forall h :: h in order <==> h in m
    ensures AllIn(m, order)
  {
    forall i | 0 <= i < |order| ensures order[i] in m {
      assert order[i] in order;
    }
  }

  lemma {:induction false} OrderAllIn(m: Rows)
    ensures AllIn(m, LruOrder(m))
  {
    LruOrderListsRows(m);
    ByIndex(m, LruOrder(m));
  }

  function Planned(m: Rows, target: int): seq<nat> {
    OrderAllIn(m);
    Victims(m, LruOrder(m), 0, target)
  }

  // The planned rows are gone and nothing else has changed.
  ghost predicate EvictedFor(m: Rows, target: int, rows: Rows) {
    rows == m - Elements(Planned(m, target))
  }

  // What eviction may do to the index and the disk, whatever is locked: drop rows that can be evicted
  // with their files, and record an access to rows whose files could not be deleted.
  ghost predicate Shrunk(m0: Rows, o0: map<nat, Bytes>, m1: Rows, o1: map<nat, Bytes>) {
    && m1.Keys <= m0.Keys
    && (forall h :: h in m1 ==> m1[h].size == m0[h].size && m1[h].state == m0[h].state)
    && (forall h :: h in m1 ==> m1[h] == m0[h] || (m1[h].hits > m0[h].hits && Evictable(m0[h].state) && h in o1))
    && (forall h :: h in m0 && h !in m1 ==> Evictable(m0[h].state))
    && o1 == o0 - (m0.Keys - m1.Keys)
  }

  // Rows were dropped only while the target was not met: without the last one it still would not be.
  ghost predicate Lean(m0: Rows, m1: Rows, freed: int, target: int) {
    m1.Keys == m0.Keys || exists h :: h in m0 && h !in m1 && freed - m0[h].size < target
  }

  lemma LeanTwice(m0: Rows, o0: map<nat, Bytes>, m1: Rows, o1: map<nat, Bytes>, m2: Rows, o2: map<nat, Bytes>,
                  freed1: int, freed2: int, target: int)
    requires Shrunk(m0, o0, m1, o1) && Shrunk(m1, o1, m2, o2)
    requires Lean(m0, m1, freed1, target) && Lean(m1, m2, freed2, target) && (m2.Keys == m1.Keys ==> freed2 == freed1)
    ensures Lean(m0, m2, freed2, target)
  {
    if m2.Keys != m1.Keys {
      var h :| h in m1 && h !in m2 && freed2 - m1[h].size < target;
      assert h in m0 && m1[h].size == m0[h].size;
    }
  }

  lemma ShrunkTransitive(m0: Rows, o0: map<nat, Bytes>, m1: Rows, o1: map<nat, Bytes>, m2: Rows, o2: map<nat, Bytes>)
    requires Shrunk(m0, o0, m1, o1) && Shrunk(m1, o1, m2, o2)
    ensures Shrunk(m0, o0, m2, o2)
  {
    assert m0.Keys - m2.Keys == (m0.Keys - m1.Keys) + (m1.Keys - m2.Keys);
  }

  lemma {:induction false} SameSizesSameTotal(m0: Rows, m1: Rows)
    requires m1.Keys == m0.Keys && forall h :: h in m1 ==> m1[h].size == m0[h].size
    ensures TotalSize(m1) == TotalSize(m0)
    decreases |m0|
  {
    if m0 != map[] {
      var h :| h in m0;
      TotalRemove(m0, h);
      TotalRemove(m1, h);
      SameSizesSameTotal(m0 - {h}, m1 - {h});
    } else {
      assert m1 == map[];
    }
  }

  // What an eviction has done to index and disk so far.
  ghost predicate Carried(m0: Rows, o0: map<nat, Bytes>, m: Rows, o: map<nat, Bytes>, target: int, freed: int) {
    Shrunk(m0, o0, m, o) && freed == TotalSize(m0) - TotalSize(m) && Lean(m0, m, freed, target)
  }

  lemma CarriedOn(m0: Rows, o0: map<nat, Bytes>, m1: Rows, o1: map<nat, Bytes>, m2: Rows, o2: map<nat, Bytes>,
                  target: int, freed1: int, freed2: int, progress: bool)
    requires Carried(m0, o0, m1, o1, target, freed1) && Accounted(m1, o1, m2, o2, freed2 - freed1, progress) && Lean(m1, m2, freed2, target)
    ensures Carried(m0, o0, m2, o2, target, freed2)
  {
    ShrunkTransitive(m0, o0, m1, o1, m2, o2);
    if m2.Keys == m1.Keys { SameKeys(m1, m2); }
    LeanTwice(m0, o0, m1, o1, m2, o2, freed1, freed2, target);
  }

  lemma HeldIsShrunk(m0: Rows, m1: Rows, o: map<nat, Bytes>, h: nat)
    requires Touched(m0, m1, h) && Evictable(m0[h].state) && h in o
    ensures Shrunk(m0, o, m1, o) && m1.Keys == m0.Keys && TotalSize(m1) == TotalSize(m0)
  {
    SameSizesSameTotal(m0, m1);
    assert m0.Keys - m1.Keys == {} && o - {} == o;
  }

  lemma DroppedIsShrunk(m0: Rows, o0: map<nat, Bytes>, h: nat)
    requires h in m0 && Evictable(m0[h].state)
    ensures Shrunk(m0, o0, m0 - {h}, o0 - {h}) && TotalSize(m0 - {h}) == TotalSize(m0) - m0[h].size
  {
    TotalRemove(m0, h);
    assert m0.Keys - (m0 - {h}).Keys == {h};
  }

  lemma NothingIsShrunk(m: Rows, o: map<nat, Bytes>)
    ensures Shrunk(m, o, m, o)
  {
    assert m.Keys - m.Keys == {} && o - {} == o;
  }

  class LruEvictor {
    const storage: ObjectStorage
    const index: MetadataIndex
    const quota: Option<int>

    constructor (storage: ObjectStorage, index: MetadataIndex, quota: Option<int>)
      ensures this.storage == storage && this.index == index && this.quota == quota
    {
      this.storage, this.index, this.quota := storage, index, quota;
    }

    // The state of a row forbids its eviction, or its file may be held by another process.
    ghost predicate NotTaken(rows: Rows, objects: map<nat, Bytes>, h: nat) {
      h in rows && (!Evictable(rows[h].state) || (storage.lockable && h in objects))
    }

    // So it is with every row of the next batch.
    ghost predicate Stalled(rows: Rows, objects: map<nat, Bytes>) {
      forall i :: 0 <= i < |LruOrder(rows)| && i < BATCH_SIZE ==> NotTaken(rows, objects, LruOrder(rows)[i])
    }

    // Why an eviction stopped short: the rows it saw last are the ones that are left, and its last
    // batch of them could not be taken.
    ghost predicate StoppedShort(seen: Rows, rows: Rows, objects: map<nat, Bytes>) {
      && rows.Keys == seen.Keys && (forall h :: h in rows ==> rows[h].state == seen[h].state && rows[h].size == seen[h].size)
      && Stalled(seen, objects)
    }

    // One candidate: mark it, delete its file, drop its row; a locked file puts the row back
    // and moves it down the order.
    method EvictCandidate(h: nat) returns (freed: Option<nat>)
      requires h in index.rows
      modifies index, storage
      ensures Shrunk(old(index.rows), old(storage.objects), index.rows, storage.objects)
      ensures freed.Some? ==> index.rows == old(index.rows) - {h} && freed.value == old(index.rows)[h].size
      ensures freed.None? ==> index.rows.Keys == old(index.rows).Keys
      ensures TotalSize(index.rows) == TotalSize(old(index.rows)) - if freed.Some? then freed.value else 0
      ensures !storage.lockable ==> (freed.Some? <==> Evictable(old(index.rows)[h].state))
      ensures !storage.lockable && freed.None? ==> index.rows == old(index.rows)
      ensures freed.None? && !Evictable(old(index.rows)[h].state) ==> index.rows == old(index.rows)
      ensures freed.None? && Evictable(old(index.rows)[h].state) ==> Touched(old(index.rows), index.rows, h)
      ensures freed.None? ==> NotTaken(old(index.rows), old(storage.objects), h)
    {
      var rows0 := index.rows;
      var row := index.rows[h];
      var marked := index.UpdateStatus(h, Evicting);
      if marked.Failure? {
        NothingIsShrunk(rows0, storage.objects);
        return None;
      }
      var deleted := storage.Delete(h);
      if deleted.Failure? {
        var restored := index.UpdateStatus(h, row.state);
        var _ := index.Touch(h);
        HeldIsShrunk(rows0, index.rows, storage.objects, h);
        return None;
      }
      var _ := index.Remove(h);
      assert index.rows == rows0 - {h};
      DroppedIsShrunk(rows0, old(storage.objects), h);
      freed := Some(row.size);
    }

    ghost predicate InBatch(m0: Rows, rows0: Rows, objects0: map<nat, Bytes>, candidates: seq<nat>, tr0: Trace, tr: Trace,
                            j: nat, target: int, freed0: nat, freed: nat, progress: bool)
      reads index, storage
    {
      && Accounted(rows0, objects0, index.rows, storage.objects, freed - freed0, progress)
      && Handled(rows0, objects0, index.rows, candidates, j, progress) && Lean(rows0, index.rows, freed, target)
      && (!storage.lockable ==> Tracking(m0, index.rows, tr0, tr, j, target, freed0, freed, progress))
    }

    // The candidates still to come have their rows; without progress none so far could be taken.
    ghost predicate Handled(rows0: Rows, objects0: map<nat, Bytes>, rows: Rows, candidates: seq<nat>, j: nat, progress: bool) {
      && j <= |candidates| && (forall i :: j <= i < |candidates| ==> candidates[i] in rows)
      && (!progress ==> forall i :: 0 <= i < j ==> NotTaken(rows0, objects0, candidates[i]))
    }

    lemma HandledStep(rows0: Rows, objects0: map<nat, Bytes>, rows1: Rows, rows2: Rows, candidates: seq<nat>, j: nat, progress1: bool, progress2: bool)
      requires Handled(rows0, objects0, rows1, candidates, j, progress1) && j < |candidates| && Distinct(candidates)
      requires rows1.Keys - {candidates[j]} <= rows2.Keys && (progress1 ==> progress2)
      requires !progress2 ==> NotTaken(rows0, objects0, candidates[j])
      ensures Handled(rows0, objects0, rows2, candidates, j + 1, progress2)
    {
      forall i | j + 1 <= i < |candidates| ensures candidates[i] in rows2 {
        assert candidates[i] in rows1.Keys - {candidates[j]};
      }
    }

    lemma NotTakenEarlier(rows0: Rows, objects0: map<nat, Bytes>, rows1: Rows, objects1: map<nat, Bytes>, freed: int, h: nat)
      requires Accounted(rows0, objects0, rows1, objects1, freed, false) && NotTaken(rows1, objects1, h)
      ensures NotTaken(rows0, objects0, h)
    {
    }

    lemma LeanStep(rows0: Rows, objects0: map<nat, Bytes>, rows1: Rows, objects1: map<nat, Bytes>, rows2: Rows, h: nat, freed: nat,
                   out: Option<nat>, target: int)
      requires Shrunk(rows0, objects0, rows1, objects1) && Lean(rows0, rows1, freed, target) && freed < target && h in rows1
      requires if out.Some? then rows2 == rows1 - {h} && out.value == rows1[h].size else rows2.Keys == rows1.Keys
      ensures Lean(rows0, rows2, freed + if out.Some? then out.value else 0, target)
    {
      assert h in rows0 && rows0[h].size == rows1[h].size;
    }

    method BatchStep(candidates: seq<nat>, j: nat, target: int, freed0: nat, freed1: nat, progress1: bool, ghost m0: Rows,
                     ghost rows0: Rows, ghost objects0: map<nat, Bytes>, ghost tr0: Trace, ghost tr1: Trace)
      returns (freed: nat, progress: bool, ghost tr: Trace)
      requires InBatch(m0, rows0, objects0, candidates, tr0, tr1, j, target, freed0, freed1, progress1)
      requires j < |candidates| <= BATCH_SIZE && Distinct(candidates) && freed1 < target
      requires !storage.lockable ==> candidates <= tr0.stuck + tr0.rest && PassedOver(m0, tr0.stuck)
      modifies index, storage
      ensures InBatch(m0, rows0, objects0, candidates, tr0, tr, j + 1, target, freed0, freed, progress)
    {
      ghost var rows1, objects1 := index.rows, storage.objects;
      var outcome := EvictCandidate(candidates[j]);
      freed := freed1 + if outcome.Some? then outcome.value else 0;
      progress := progress1 || outcome.Some?;
      AccountStep(rows0, objects0, rows1, objects1, index.rows, storage.objects, freed1 - freed0, freed - freed1, progress1, outcome.Some?);
      if !progress {
        NotTakenEarlier(rows0, objects0, rows1, objects1, freed1 - freed0, candidates[j]);
      }
      HandledStep(rows0, objects0, rows1, index.rows, candidates, j, progress1, progress);
      LeanStep(rows0, objects0, rows1, objects1, index.rows, candidates[j], freed1, outcome, target);
      tr := tr1;
      if !storage.lockable {
        tr := Advance(m0, rows1, index.rows, candidates, tr0, tr1, j, target, freed0, freed1, freed, progress1, progress);
      }
    }

    // One batch of candidates. The ghost trace describes what happens when no file is locked.
    method EvictBatch(candidates: seq<nat>, target: int, freed0: nat, ghost m0: Rows, ghost tr0: Trace)
      returns (freed: nat, progress: bool, ghost tr: Trace)
      requires AllIn(index.rows, candidates) && Distinct(candidates) && |candidates| <= BATCH_SIZE
      requires !storage.lockable ==> Front(m0, index.rows, tr0) && candidates <= tr0.stuck + tr0.rest
      modifies index, storage
      ensures Accounted(old(index.rows), old(storage.objects), index.rows, storage.objects, freed - freed0, progress)
      ensures Lean(old(index.rows), index.rows, freed, target)
      ensures !storage.lockable ==> Front(m0, index.rows, tr) && SamePlan(m0, target, freed0, tr0, freed, tr)
      ensures !storage.lockable && freed < target && !progress ==> |tr.stuck| >= |candidates|
      ensures freed < target && !progress ==>
        forall i :: 0 <= i < |candidates| ==> NotTaken(old(index.rows), old(storage.objects), candidates[i])
    {
      freed, progress, tr := freed0, false, tr0;
      var j := 0;
      ghost var rows0, objects0 := index.rows, storage.objects;
      while j < |candidates| && freed < target
        invariant InBatch(m0, rows0, objects0, candidates, tr0, tr, j, target, freed0, freed, progress)
      {
        freed, progress, tr := BatchStep(candidates, j, target, freed0, freed, progress, m0, rows0, objects0, tr0, tr);
        j := j + 1;
      }
    }

    // Where an eviction stands: what it did to index and disk, and how far the plan is carried out.
    ghost predicate Underway(m0: Rows, objects0: map<nat, Bytes>, tr: Trace, target: int, freed: nat, progress: bool)
      reads index, storage
    {
      && Carried(m0, objects0, index.rows, storage.objects, target, freed)
      && (!storage.lockable ==> OnPlan(m0, index.rows, tr, target, freed, progress))
    }

    lemma ShortBatch(rows1: Rows, objects1: map<nat, Bytes>, rows2: Rows, objects2: map<nat, Bytes>, candidates: seq<nat>)
      requires Accounted(rows1, objects1, rows2, objects2, 0, false)
      requires candidates == LruOrder(rows1)[..if |rows1| < BATCH_SIZE then |rows1| else BATCH_SIZE]
      requires forall i :: 0 <= i < |candidates| ==> NotTaken(rows1, objects1, candidates[i])
      ensures StoppedShort(rows1, rows2, objects2)
    {
      NothingRemoved(rows1, objects1, rows2, objects2);
      forall i | 0 <= i < |LruOrder(rows1)| && i < BATCH_SIZE ensures NotTaken(rows1, objects2, LruOrder(rows1)[i]) {
        assert candidates[i] == LruOrder(rows1)[i];
      }
    }

    // The oldest rows of the index as it is now; false when nothing came free.
    method EvictOldest(target: int, freed0: nat, ghost m0: Rows, ghost objects0: map<nat, Bytes>, ghost tr0: Trace)
      returns (freed: nat, progress: bool, ghost tr: Trace)
      requires freed0 < target && Underway(m0, objects0, tr0, target, freed0, true)
      modifies index, storage
      ensures Underway(m0, objects0, tr, target, freed, progress)
      ensures progress ==> |index.rows| < |old(index.rows)|
      ensures freed < target && !progress ==> StoppedShort(old(index.rows), index.rows, storage.objects)
    {
      ghost var rows1, objects1 := index.rows, storage.objects;
      var candidates := index.GetLruCandidates(BATCH_SIZE);
      freed, progress, tr := freed0, false, tr0;
      if candidates == [] {
        if !storage.lockable { OnPlanStep(m0, rows1, tr0, freed0, rows1, tr0, freed0, false, target, 0); }
        return;
      }
      CandidatesFacts(rows1, candidates);
      freed, progress, tr := EvictBatch(candidates, target, freed, m0, tr);
      CarriedOn(m0, objects0, rows1, objects1, index.rows, storage.objects, target, freed0, freed, progress);
      if freed < target && !progress { ShortBatch(rows1, objects1, index.rows, storage.objects, candidates); }
      if !storage.lockable {
        if !progress { SameKeys(rows1, index.rows); }
        OnPlanStep(m0, rows1, tr0, freed0, index.rows, tr, freed, progress, target, |candidates|);
      }
    }

    // Evicts in batches of the oldest rows until the target is met or a batch frees nothing.
    method EvictToFree(target: int) returns (freed: nat)
      modifies index, storage
      ensures Shrunk(old(index.rows), old(storage.objects), index.rows, storage.objects)
      ensures freed == TotalSize(old(index.rows)) - TotalSize(index.rows)
      ensures target <= 0 ==> freed == 0 && index.rows == old(index.rows)
      ensures Lean(old(index.rows), index.rows, freed, target)
      ensures !storage.lockable ==> EvictedFor(old(index.rows), target, index.rows)
      ensures freed < target ==> exists seen :: StoppedShort(seen, index.rows, storage.objects)
    {
      if target <= 0 {
        return 0;
      }
      ghost var m0 := index.rows;
      ghost var tr, progress;
      freed, progress, tr := EvictRepeatedly(target);
      if !storage.lockable {
        RowsLeft(m0, index.rows, tr, target, freed, progress);
      }
    }

    method EvictRepeatedly(target: int) returns (freed: nat, progress: bool, ghost tr: Trace)
      requires target > 0
      modifies index, storage
      ensures Underway(old(index.rows), old(storage.objects), tr, target, freed, progress)
      ensures freed < target ==> !progress && exists seen :: StoppedShort(seen, index.rows, storage.objects)
    {
      ghost var m0, objects0 := index.rows, storage.objects;
      freed, progress := 0, true;
      tr := FrontAtStart(m0, target);
      ghost var seen := m0;
      while freed < target && progress
        invariant Underway(m0, objects0, tr, target, freed, progress)
        invariant freed < target && !progress ==> StoppedShort(seen, index.rows, storage.objects)
        decreases if progress then |index.rows| + 1 else 0
      {
        seen := index.rows;
        freed, progress, tr := EvictOldest(target, freed, m0, objects0, tr);
      }
    }

    // Makes room for incoming bytes. A quota that is absent or not positive bounds nothing.
    method EnforceQuota(incoming: nat) returns (r: Result<nat, CacheError>)
      modifies index, storage
      ensures Shrunk(old(index.rows), old(storage.objects), index.rows, storage.objects)
      ensures r.Success? ==> r.value == TotalSize(old(index.rows)) - TotalSize(index.rows)
      ensures r.Failure? ==> r.error.QuotaExceeded?
      ensures Unbounded(quota) || TotalSize(old(index.rows)) + incoming <= quota.value ==> r.Success? && index.rows == old(index.rows)
      ensures !Unbounded(quota) ==>
        Lean(old(index.rows), index.rows, TotalSize(old(index.rows)) - TotalSize(index.rows), TotalSize(old(index.rows)) + incoming - quota.value)
      ensures !Unbounded(quota) ==> (r.Success? <==> TotalSize(index.rows) + incoming <= quota.value)
      ensures !Unbounded(quota) && !storage.lockable ==> (r.Success? <==> CanFit(old(index.rows), incoming, quota.value))
      ensures !Unbounded(quota) && !storage.lockable && incoming <= quota.value ==>
        EvictedFor(old(index.rows), TotalSize(old(index.rows)) + incoming - quota.value, index.rows)
    {
      if quota.None? || quota.value <= 0 {
        return Success(0);
      }
      if incoming > quota.value {
        return Failure(QuotaExceeded);
      }
      var current := index.GetTotalSize();
      var need := current + incoming - quota.value;
      assert TotalSize(index.rows) + incoming - quota.value == need;
      ghost var m0 := index.rows;
      r := MakeRoom(incoming, need);
      if !storage.lockable {
        RoomIff(m0, index.rows, need, incoming, quota.value);
      }
    }

    method MakeRoom(incoming: nat, need: int) returns (r: Result<nat, CacheError>)
      requires !Unbounded(quota) && incoming <= quota.value && need == TotalSize(index.rows) + incoming - quota.value
      modifies index, storage
      ensures Shrunk(old(index.rows), old(storage.objects), index.rows, storage.objects)
      ensures r.Success? ==> r.value == TotalSize(old(index.rows)) - TotalSize(index.rows)
      ensures r.Failure? ==> r.error.QuotaExceeded?
      ensures r.Success? <==> TotalSize(index.rows) + incoming <= quota.value
      ensures need <= 0 ==> index.rows == old(index.rows)
      ensures Lean(old(index.rows), index.rows, TotalSize(old(index.rows)) - TotalSize(index.rows), need)
      ensures !storage.lockable ==> EvictedFor(old(index.rows), need, index.rows)
    {
      if need <= 0 {
        NothingPlanned(index.rows, need);
        return Success(0);
      }
      var freed := EvictToFree(need);
      var size := index.GetTotalSize();
      if size + incoming > quota.value {
        return Failure(QuotaExceeded);
      }
      r := Success(freed);
    }
  }

  // Without locked files there is room for incoming bytes exactly if they fit the quota by
  // themselves and together with everything eviction cannot reach.
  ghost predicate CanFit(m: Rows, incoming: nat, quota: int) {
    incoming <= quota && TotalSize(m) + incoming - ReachableBytes(m) <= quota
  }

  lemma RowsLeft(m0: Rows, rows: Rows, tr: Trace, target: int, freed: nat, progress: bool)
    requires OnPlan(m0, rows, tr, target, freed, progress) && (freed < target ==> !progress)
    ensures EvictedFor(m0, target, rows)
  {
    assert Planned(m0, target) == tr.taken;
  }

  lemma NothingRemoved(m0: Rows, o0: map<nat, Bytes>, m1: Rows, o1: map<nat, Bytes>)
    requires Shrunk(m0, o0, m1, o1) && m1.Keys == m0.Keys
    ensures o1 == o0
  {
    assert m0.Keys - m1.Keys == {};
  }

  // The rows taken so far and the victims still to come are the plan made at the start.
  ghost predicate OnPlan(m0: Rows, rows: Rows, tr: Trace, target: int, freed: int, progress: bool) {
    && Front(m0, rows, tr)
    && Planned(m0, target) == tr.taken + Victims(m0, tr.rest, |tr.stuck|, target - freed)
    && (freed < target && !progress ==> Victims(m0, tr.rest, |tr.stuck|, target - freed) == [])
  }

  lemma {:induction false} OnPlanStep(m0: Rows, rows0: Rows, tr0: Trace, freed0: nat, rows: Rows, tr: Trace, freed: nat,
                                      progress: bool, target: int, n: nat)
    requires OnPlan(m0, rows0, tr0, target, freed0, true)
    requires Front(m0, rows, tr) && SamePlan(m0, target, freed0, tr0, freed, tr)
    requires freed < target && !progress ==> |tr.stuck| >= n && |rows| == |rows0|
    requires n >= BATCH_SIZE || n == |rows0|
    ensures OnPlan(m0, rows, tr, target, freed, progress)
  {
    if freed < target && !progress {
      Exhausted(m0, rows, tr, n, target - freed);
    }
  }

  // Once a full batch, or every row there is, has been passed over, nothing more can be evicted.
  lemma Exhausted(m0: Rows, rows: Rows, tr: Trace, n: nat, room: int)
    requires Front(m0, rows, tr) && |tr.stuck| >= n && (n >= BATCH_SIZE || n == |rows|)
    ensures Victims(m0, tr.rest, |tr.stuck|, room) == []
  {
    assert |LruOrder(rows)| == |tr.stuck| + |tr.rest|;
  }

  lemma PrefixFacts(rows: Rows, order: seq<nat>, candidates: seq<nat>)
    requires AllIn(rows, order) && Distinct(order) && candidates <= order
    ensures AllIn(rows, candidates) && Distinct(candidates)
  {
    assert forall i :: 0 <= i < |candidates| ==> candidates[i] == order[i];
  }

  lemma CandidatesFacts(rows: Rows, candidates: seq<nat>)
    requires candidates <= LruOrder(rows)
    ensures AllIn(rows, candidates) && Distinct(candidates)
  {
    OrderAllIn(rows);
    LruOrderListsRows(rows);
    PrefixFacts(rows, LruOrder(rows), candidates);
  }

  ghost predicate PassedOver(m0: Rows, hs: seq<nat>) {
    AllIn(m0, hs) && forall i :: 0 <= i < |hs| ==> !Evictable(m0[hs[i]].state)
  }

  ghost predicate Accounted(m0: Rows, o0: map<nat, Bytes>, m1: Rows, o1: map<nat, Bytes>, freed: int, progress: bool) {
    && Shrunk(m0, o0, m1, o1)
    && freed == TotalSize(m0) - TotalSize(m1)
    && if progress then |m1| < |m0| else m1.Keys == m0.Keys && freed == 0
  }

  lemma FewerKeys(m0: Rows, m1: Rows, h: nat)
    requires h in m0 && m1.Keys == m0.Keys - {h}
    ensures |m1| < |m0|
  {
    assert |m1.Keys| == |m0.Keys| - 1;
  }

  lemma SameKeys(m0: Rows, m1: Rows)
    requires m1.Keys == m0.Keys
    ensures |m1| == |m0|
  {
    assert |m1.Keys| == |m0.Keys|;
  }

  lemma AccountStep(m0: Rows, o0: map<nat, Bytes>, m1: Rows, o1: map<nat, Bytes>, m2: Rows, o2: map<nat, Bytes>,
                    freed: int, size: nat, progress: bool, out: bool)
    requires Accounted(m0, o0, m1, o1, freed, progress)
    requires Shrunk(m1, o1, m2, o2) && TotalSize(m2) == TotalSize(m1) - size && (!out ==> size == 0)
    requires if out then exists h :: h in m1 && m2.Keys == m1.Keys - {h} else m2.Keys == m1.Keys
    ensures Accounted(m0, o0, m2, o2, freed + size, progress || out)
  {
    ShrunkTransitive(m0, o0, m1, o1, m2, o2);
    if out {
      var h :| h in m1 && m2.Keys == m1.Keys - {h};
      FewerKeys(m1, m2, h);
      if !progress { SameKeys(m0, m1); }
    } else {
      SameKeys(m1, m2);
    }
  }

  // The course of an eviction without locked files: rows passed over, rows not yet looked at,
  // rows evicted.
  datatype Trace = Trace(stuck: seq<nat>, rest: seq<nat>, taken: seq<nat>)

  // The rows left in the index start with rows that were passed over; the rest is untouched.
  ghost predicate Front(m0: Rows, rows: Rows, tr: Trace) {
    && rows.Keys <= m0.Keys && (forall h :: h in rows ==> rows[h] == m0[h])
    && LruOrder(rows) == tr.stuck + tr.rest
    && AllIn(m0, tr.rest) && PassedOver(m0, tr.stuck)
    && AllIn(m0, tr.taken) && rows.Keys == m0.Keys - Elements(tr.taken)
  }

  // What is still to be evicted, added to what was taken, is the same plan as before.
  ghost predicate SamePlan(m0: Rows, target: int, freed0: nat, tr0: Trace, freed: nat, tr: Trace)
    requires AllIn(m0, tr0.rest) && AllIn(m0, tr.rest)
  {
    tr0.taken + Victims(m0, tr0.rest, |tr0.stuck|, target - freed0) == tr.taken + Victims(m0, tr.rest, |tr.stuck|, target - freed)
  }

  // After j candidates the batch has consumed j - |stuck| rows of the rest.
  ghost predicate Cursor(tr0: Trace, tr: Trace, j: nat) {
    if j <= |tr0.stuck| then tr.stuck == tr0.stuck && tr.rest == tr0.rest
    else j - |tr0.stuck| <= |tr0.rest| && tr.rest == tr0.rest[j - |tr0.stuck|..] && |tr.stuck| <= j
  }

  lemma CursorHead(candidates: seq<nat>, tr0: Trace, tr: Trace, j: nat)
    requires candidates <= tr0.stuck + tr0.rest && |tr0.stuck| <= j < |candidates| && Cursor(tr0, tr, j)
    ensures tr.rest != [] && tr.rest[0] == candidates[j] && |tr.stuck| <= j
    ensures tr.rest[1..] == tr0.rest[j + 1 - |tr0.stuck|..]
  {
    assert candidates[j] == (tr0.stuck + tr0.rest)[j];
  }

  lemma TakeOrder(rows: Rows, stuck: seq<nat>, rest: seq<nat>)
    requires LruOrder(rows) == stuck + rest && rest != []
    ensures LruOrder(rows - {rest[0]}) == stuck + rest[1..]
  {
    LruOrderRemove(rows, |stuck|);
    assert (stuck + rest)[|stuck|] == rest[0];
    assert Gap(stuck + rest, |stuck|) == stuck + rest[1..];
  }

  lemma {:induction false} TakeFront(m0: Rows, rows: Rows, tr: Trace)
    requires Front(m0, rows, tr) && tr.rest != []
    ensures Front(m0, rows - {tr.rest[0]}, tr.(rest := tr.rest[1..], taken := tr.taken + [tr.rest[0]]))
  {
    var h := tr.rest[0];
    TakeOrder(rows, tr.stuck, tr.rest);
    TakenGrows(m0.Keys, tr.taken, h);
    assert (rows - {h}).Keys == rows.Keys - {h};
  }

  lemma TakenGrows(keys: set<nat>, taken: seq<nat>, h: nat)
    ensures keys - Elements(taken + [h]) == keys - Elements(taken) - {h}
  {
    assert forall x :: x in taken + [h] <==> x in taken || x == h;
  }

  lemma {:induction false} TakeStep(m0: Rows, rows: Rows, tr: Trace, next: Trace, target: int, freed: nat, freed2: nat)
    requires Front(m0, rows, tr) && tr.rest != [] && Evictable(m0[tr.rest[0]].state)
    requires freed < target && |tr.stuck| < BATCH_SIZE && freed2 == freed + m0[tr.rest[0]].size
    requires next == tr.(rest := tr.rest[1..], taken := tr.taken + [tr.rest[0]])
    ensures Front(m0, rows - {tr.rest[0]}, next) && SamePlan(m0, target, freed, tr, freed2, next)
  {
    TakeFront(m0, rows, tr);
    TakePlan(m0, tr.rest, |tr.stuck|, target - freed, target - freed2, tr.taken);
  }

  lemma {:induction false} TakePlan(m0: Rows, rest: seq<nat>, stuck: nat, room: int, left: int, taken: seq<nat>)
    requires AllIn(m0, rest) && rest != [] && Evictable(m0[rest[0]].state)
    requires room > 0 && stuck < BATCH_SIZE && left == room - m0[rest[0]].size
    ensures taken + Victims(m0, rest, stuck, room) == (taken + [rest[0]]) + Victims(m0, rest[1..], stuck, left)
  {
    var later := Victims(m0, rest[1..], stuck, left);
    assert Victims(m0, rest, stuck, room) == [rest[0]] + later;
    assert taken + ([rest[0]] + later) == (taken + [rest[0]]) + later;
  }

  lemma {:induction false} SkipStep(m0: Rows, rows: Rows, tr: Trace, next: Trace, target: int, freed: nat)
    requires Front(m0, rows, tr) && tr.rest != [] && !Evictable(m0[tr.rest[0]].state)
    requires |tr.stuck| < BATCH_SIZE
    requires next == tr.(stuck := tr.stuck + [tr.rest[0]], rest := tr.rest[1..])
    ensures Front(m0, rows, next) && SamePlan(m0, target, freed, tr, freed, next)
  {
    assert tr.stuck + tr.rest == next.stuck + next.rest;
    assert |next.stuck| == |tr.stuck| + 1;
  }

  ghost predicate Tracking(m0: Rows, rows: Rows, tr0: Trace, tr: Trace, j: nat, target: int, freed0: nat, freed: nat, progress: bool) {
    && Front(m0, rows, tr) && AllIn(m0, tr0.rest) && SamePlan(m0, target, freed0, tr0, freed, tr)
    && Cursor(tr0, tr, j) && (!progress ==> |tr.stuck| >= j)
  }

  // Follows one candidate: a row passed over earlier, the next victim, or a row to pass over now.
  lemma Advance(m0: Rows, rows1: Rows, rows2: Rows, candidates: seq<nat>, tr0: Trace, tr1: Trace, j: nat, target: int,
                freed0: nat, freed1: nat, freed2: nat, progress1: bool, progress2: bool)
    returns (tr2: Trace)
    requires Tracking(m0, rows1, tr0, tr1, j, target, freed0, freed1, progress1) && PassedOver(m0, tr0.stuck)
    requires candidates <= tr0.stuck + tr0.rest && j < |candidates| <= BATCH_SIZE && freed1 < target
    requires candidates[j] in rows1
    requires if Evictable(rows1[candidates[j]].state)
             then rows2 == rows1 - {candidates[j]} && freed2 == freed1 + rows1[candidates[j]].size && progress2
             else rows2 == rows1 && freed2 == freed1 && progress2 == progress1
    ensures Tracking(m0, rows2, tr0, tr2, j + 1, target, freed0, freed2, progress2)
  {
    var h := candidates[j];
    assert rows1[h] == m0[h];
    if j < |tr0.stuck| {
      assert h == tr0.stuck[j];
      tr2 := tr1;
    } else {
      CursorHead(candidates, tr0, tr1, j);
      tr2 := if Evictable(m0[h].state)
             then tr1.(rest := tr1.rest[1..], taken := tr1.taken + [h])
             else tr1.(stuck := tr1.stuck + [h], rest := tr1.rest[1..]);
      AdvanceRest(m0, rows1, rows2, tr0, tr1, tr2, j, target, freed0, freed1, freed2, progress1, progress2);
    }
  }

  lemma {:induction false} AdvanceRest(m0: Rows, rows1: Rows, rows2: Rows, tr0: Trace, tr1: Trace, tr2: Trace, j: nat, target: int,
                                       freed0: nat, freed1: nat, freed2: nat, progress1: bool, progress2: bool)
    requires Tracking(m0, rows1, tr0, tr1, j, target, freed0, freed1, progress1)
    requires tr1.rest != [] && freed1 < target && |tr1.stuck| <= j < BATCH_SIZE && j >= |tr0.stuck|
    requires tr1.rest[1..] == tr0.rest[j + 1 - |tr0.stuck|..]
    requires tr1.rest[0] in rows1 && rows1[tr1.rest[0]] == m0[tr1.rest[0]]
    requires if Evictable(m0[tr1.rest[0]].state)
             then rows2 == rows1 - {tr1.rest[0]} && freed2 == freed1 + m0[tr1.rest[0]].size && progress2
             else rows2 == rows1 && freed2 == freed1 && progress2 == progress1
    requires tr2 == if Evictable(m0[tr1.rest[0]].state)
                    then tr1.(rest := tr1.rest[1..], taken := tr1.taken + [tr1.rest[0]])
                    else tr1.(stuck := tr1.stuck + [tr1.rest[0]], rest := tr1.rest[1..])
    ensures Tracking(m0, rows2, tr0, tr2, j + 1, target, freed0, freed2, progress2)
  {
    if Evictable(m0[tr1.rest[0]].state) {
      TakeStep(m0, rows1, tr1, tr2, target, freed1, freed2);
    } else {
      SkipStep(m0, rows1, tr1, tr2, target, freed1);
    }
    CursorStep(tr0, tr1, tr2, j);
  }

  lemma CursorStep(tr0: Trace, tr1: Trace, tr2: Trace, j: nat)
    requires Cursor(tr0, tr1, j) && tr1.rest != [] && |tr0.stuck| <= j && |tr1.stuck| <= j
    requires tr1.rest[1..] == tr0.rest[j + 1 - |tr0.stuck|..]
    requires tr2.rest == tr1.rest[1..] && |tr2.stuck| <= |tr1.stuck| + 1
    ensures Cursor(tr0, tr2, j + 1)
  {
  }

  lemma {:induction false} FrontAtStart(m0: Rows, target: int) returns (tr: Trace)
    ensures OnPlan(m0, m0, tr, target, 0, true)
  {
    OrderAllIn(m0);
    tr := Trace([], LruOrder(m0), []);
    assert m0.Keys == m0.Keys - Elements([]);
    assert [] + LruOrder(m0) == LruOrder(m0);
    assert [] + Victims(m0, tr.rest, 0, target - 0) == Victims(m0, tr.rest, 0, target);
  }

  lemma {:induction false} NothingPlanned(m: Rows, target: int)
    requires target <= 0
    ensures EvictedFor(m, target, m)
  {
    assert m - Elements([]) == m;
  }

  predicate Unbounded(quota: Option<int>) {
    quota.None? || quota.value <= 0
  }

  // What the plan amounts to -------------------------------------------------------------------

  // Every row eviction could reach: evictable, with fewer than a batch of skipped rows before it.
  function Reachable(m: Rows, order: seq<nat>, stuck: nat): (v: seq<nat>)
    requires AllIn(m, order)
    ensures AllIn(m, v)
  {
    if order == [] || stuck >= BATCH_SIZE then []
    else if Evictable(m[order[0]].state) then [order[0]] + Reachable(m, order[1..], stuck)
    else Reachable(m, order[1..], stuck + 1)
  }

  // How many rows of the order eviction would have to pass over.
  function Skipped(m: Rows, order: seq<nat>): nat
    requires AllIn(m, order)
  {
    if order == [] then 0 else (if Evictable(m[order[0]].state) then 0 else 1) + Skipped(m, order[1..])
  }

  lemma {:induction false} SkippedBound(m: Rows, order: seq<nat>, i: nat)
    requires AllIn(m, order) && i <= |order|
    ensures AllIn(m, order[..i]) && (i > 0 ==> order[..i][1..] == order[1..][..i - 1])
  {
  }

  // A row is reachable exactly when it is VALID or EVICTING and fewer than a hundred rows that
  // are neither come before it.
  lemma {:induction false} ReachableExactly(m: Rows, order: seq<nat>, stuck: nat, i: nat)
    requires AllIn(m, order) && Distinct(order) && i < |order|
    ensures AllIn(m, order[..i])
    ensures order[i] in Reachable(m, order, stuck) <==>
      m[order[i]].state in {Valid, Evicting} && stuck + Skipped(m, order[..i]) < 100
  {
    SkippedBound(m, order, i);
    ReachableFromOrder(m, order[1..], if Evictable(m[order[0]].state) then stuck else stuck + 1);
    if i > 0 {
      ReachableExactly(m, order[1..], if Evictable(m[order[0]].state) then stuck else stuck + 1, i - 1);
    }
  }

  lemma {:induction false} ReachableFromOrder(m: Rows, order: seq<nat>, stuck: nat)
    requires AllIn(m, order)
    ensures forall h :: h in Reachable(m, order, stuck) ==> h in order
  {
    if order != [] && stuck < BATCH_SIZE {
      ReachableFromOrder(m, order[1..], if Evictable(m[order[0]].state) then stuck else stuck + 1);
    }
  }

  // The victims are the shortest prefix of the reachable rows that meets the target, or all of them.
  lemma {:induction false} VictimsAreShortestPrefix(m: Rows, order: seq<nat>, stuck: nat, target: int)
    requires AllIn(m, order)
    ensures Victims(m, order, stuck, target) <= Reachable(m, order, stuck)
    ensures SizeOf(m, Victims(m, order, stuck, target)) < target ==> Victims(m, order, stuck, target) == Reachable(m, order, stuck)
    ensures var v := Victims(m, order, stuck, target); v != [] ==> SizeOf(m, v[..|v| - 1]) < target
  {
    if order == [] || target <= 0 || stuck >= BATCH_SIZE {
    } else if Evictable(m[order[0]].state) {
      var t := target - m[order[0]].size;
      VictimsAreShortestPrefix(m, order[1..], stuck, t);
      var w := Victims(m, order[1..], stuck, t);
      var v := Victims(m, order, stuck, target);
      assert v == [order[0]] + w;
      if w != [] {
        assert v[..|v| - 1] == [order[0]] + w[..|w| - 1];
      } else {
        assert v[..|v| - 1] == [];
      }
    } else {
      VictimsAreShortestPrefix(m, order[1..], stuck + 1, target);
    }
  }

  // When every row is valid the whole least-recently-used order is reachable.
  lemma {:induction false} AllValidIsReachable(m: Rows, order: seq<nat>)
    requires AllIn(m, order) && forall h :: h in m ==> m[h].state == Valid
    ensures Reachable(m, order, 0) == order
  {
    if order != [] {
      AllValidIsReachable(m, order[1..]);
    }
  }

  // With every row valid, eviction removes the shortest prefix of the order that meets the target.
  lemma {:induction false} AllValidPlan(m: Rows, target: int)
    requires forall h :: h in m ==> m[h].state == Valid
    ensures AllIn(m, Planned(m, target)) && Planned(m, target) <= LruOrder(m)
    ensures SizeOf(m, Planned(m, target)) < target ==> Planned(m, target) == LruOrder(m)
    ensures var v := Planned(m, target); v != [] ==> SizeOf(m, v[..|v| - 1]) < target
  {
    OrderAllIn(m);
    AllValidFrom(m, LruOrder(m), target);
  }

  lemma {:induction false} AllValidFrom(m: Rows, order: seq<nat>, target: int)
    requires AllIn(m, order) && forall h :: h in m ==> m[h].state == Valid
    ensures Victims(m, order, 0, target) <= order
    ensures SizeOf(m, Victims(m, order, 0, target)) < target ==> Victims(m, order, 0, target) == order
    ensures var v := Victims(m, order, 0, target); v != [] ==> SizeOf(m, v[..|v| - 1]) < target
  {
    AllValidIsReachable(m, order);
    VictimsAreShortestPrefix(m, order, 0, target);
  }

  lemma {:induction false} RemovingVictims(m: Rows, v: seq<nat>)
    requires AllIn(m, v) && Distinct(v)
    ensures TotalSize(m) - TotalSize(m - Elements(v)) == SizeOf(m, v)
  {
    if v == [] {
      assert m - Elements(v) == m;
    } else {
      var less := m - {v[0]};
      TotalRemove(m, v[0]);
      RemovingVictims(less, v[1..]);
      SizeOfSmallerMap(m, less, v[1..]);
      assert Elements(v) == {v[0]} + Elements(v[1..]);
      assert less - Elements(v[1..]) == m - Elements(v);
    }
  }

  lemma {:induction false} SizeOfSmallerMap(m: Rows, less: Rows, v: seq<nat>)
    requires AllIn(m, v) && AllIn(less, v) && forall h :: h in less ==> h in m && less[h] == m[h]
    ensures SizeOf(less, v) == SizeOf(m, v)
  {
    if v != [] {
      SizeOfSmallerMap(m, less, v[1..]);
    }
  }

  lemma {:induction false} VictimsDistinct(m: Rows, order: seq<nat>, stuck: nat, target: int)
    requires AllIn(m, order) && Distinct(order)
    ensures Distinct(Victims(m, order, stuck, target))
    ensures forall h :: h in Victims(m, order, stuck, target) ==> h in order
  {
    if order == [] || target <= 0 || stuck >= BATCH_SIZE {
    } else if Evictable(m[order[0]].state) {
      VictimsDistinct(m, order[1..], stuck, target - m[order[0]].size);
      assert order[0] !in order[1..];
    } else {
      VictimsDistinct(m, order[1..], stuck + 1, target);
    }
  }

  // The index total drops by exactly the sizes of the planned victims.
  lemma {:induction false} PlannedFrees(m: Rows, target: int)
    ensures AllIn(m, Planned(m, target))
    ensures TotalSize(m) - TotalSize(m - Elements(Planned(m, target))) == SizeOf(m, Planned(m, target))
  {
    LruOrderListsRows(m);
    VictimsDistinct(m, LruOrder(m), 0, target);
    RemovingVictims(m, Planned(m, target));
  }

  function ReachableBytes(m: Rows): nat {
    OrderAllIn(m);
    SizeOf(m, Reachable(m, LruOrder(m), 0))
  }

  // Without locked files eviction meets its target exactly when enough bytes are reachable.
  lemma {:induction false} TargetMetIffReachable(m: Rows, target: int)
    ensures TotalSize(m) - TotalSize(m - Elements(Planned(m, target))) >= target <==> ReachableBytes(m) >= target
  {
    PlannedFrees(m, target);
    OrderAllIn(m);
    VictimsAreShortestPrefix(m, LruOrder(m), 0, target);
    SizeOfPrefix(m, Planned(m, target), Reachable(m, LruOrder(m), 0));
  }

  lemma {:induction false} RoomIff(m: Rows, rows: Rows, need: int, incoming: nat, quota: int)
    requires need == TotalSize(m) + incoming - quota && EvictedFor(m, need, rows) && incoming <= quota
    ensures TotalSize(rows) + incoming <= quota <==> CanFit(m, incoming, quota)
  {
    TargetMetIffReachable(m, need);
  }

  lemma {:induction false} SizeOfPrefix(m: Rows, v: seq<nat>, w: seq<nat>)
    requires AllIn(m, w) && v <= w
    ensures AllIn(m, v) && SizeOf(m, v) <= SizeOf(m, w)
  {
    if v != [] {
      SizeOfPrefix(m, v[1..], w[1..]);
    }
  }

  // When every row is valid, all bytes are reachable.
  lemma AllValidBytes(m: Rows)
    requires forall h :: h in m ==> m[h].state == Valid
    ensures ReachableBytes(m) == TotalSize(m)
  {
    LruOrderListsRows(m);
    var order := LruOrder(m);
    assert forall i :: 0 <= i < |order| ==> order[i] in order;
    AllValidIsReachable(m, order);
    RemovingVictims(m, order);
    assert m - Elements(order) == map[];
  }

  // Eviction can stop short although the index holds enough bytes: a corrupted row is skipped.
  lemma CorruptedRowBlocksEviction()
    ensures var m: Rows := map[7 := Row(10, 0.0, 1, Corrupted)];
      TotalSize(m) == 10 && Elements(Planned(m, 10)) == {} && ReachableBytes(m) == 0
  {
    var m: Rows := map[7 := Row(10, 0.0, 1, Corrupted)];
    TotalRemove(m, 7);
    assert m - {7} == map[];
    LruOrderListsRows(m);
    assert |m| == 1;
    assert LruOrder(m)[0] in LruOrder(m);
    assert LruOrder(m) == [7];
  }
}
