/** Integrity checks of single entries and of the whole cache. */
module CacheVerifier {
  import opened Wrappers
  import opened CacheIndex
  import opened CacheStorage

  // Rows may be dropped or change state, but no row is added or resized.
  ghost predicate Smaller(m0: Rows, m1: Rows) {
    m1.Keys <= m0.Keys && forall h :: h in m1 ==> m1[h].size == m0[h].size
  }

  lemma {:induction false} SmallerTotal(m0: Rows, m1: Rows)
    requires Smaller(m0, m1)
    ensures TotalSize(m1) <= TotalSize(m0)
    decreases |m0|
  {
    if m0 == map[] {
      assert m1 == map[];
    } else {
      var h :| h in m0;
      TotalRemove(m0, h);
      if h in m1 {
        TotalRemove(m1, h);
        SmallerTotal(m0 - {h}, m1 - {h});
      } else {
        assert m1.Keys <= (m0 - {h}).Keys;
        SmallerTotal(m0 - {h}, m1);
      }
    }
  }

  datatype Verdict = Verified | Missing | Damaged

  // The condition of an entry on disk; without the deep check only the size is compared.
  function Condition(sha: Bytes -> nat, objects: map<nat, Bytes>, h: nat, size: nat, deep: bool): Verdict {
    if h !in objects then Missing
    else if |objects[h]| == size && (deep ==> sha(objects[h]) == h) then Verified
    else Damaged
  }

  function StateFor(v: Verdict): RowState {
    match v case Verified => Valid case Missing => Absent case Damaged => Corrupted
  }

  // The row a scrub leaves behind, if any.
  function Scrubbed(row: Row, v: Verdict, autoEvict: bool): Option<Row> {
    if v != Verified && autoEvict then None else Some(row.(state := StateFor(v)))
  }

  // A scrub of this entry is refused by the state machine.
  predicate Refused(row: Row, v: Verdict, autoEvict: bool) {
    Scrubbed(row, v, autoEvict).Some? && !Allowed(row.state, StateFor(v))
  }

  predicate ScrubAborts(sha: Bytes -> nat, rows: Rows, objects: map<nat, Bytes>, deep: bool, autoEvict: bool) {
    exists h :: h in rows && Refused(rows[h], Condition(sha, objects, h, rows[h].size, deep), autoEvict)
  }

  class IntegrityVerifier {
    const storage: ObjectStorage
    const index: MetadataIndex

    constructor (storage: ObjectStorage, index: MetadataIndex)
      ensures this.storage == storage && this.index == index
    {
      this.storage, this.index := storage, index;
    }

    // Inspects one entry on disk. A file that cannot be read counts as damaged.
    method Inspect(h: nat, size: nat, deep: bool) returns (v: Verdict)
      ensures v == Missing <==> h !in storage.objects
      ensures v == Verified ==> Condition(storage.sha, storage.objects, h, size, deep) == Verified
      ensures !storage.lockable ==> v == Condition(storage.sha, storage.objects, h, size, deep)
    {
      if h !in storage.objects {
        return Missing;
      }
      if |storage.objects[h]| != size {
        return Damaged;
      }
      if deep {
        var digest := storage.ComputeSha(h);
        if digest != Some(h) {
          return Damaged;
        }
      }
      v := Verified;
    }

    // Records a verdict: drop the entry (deleting a damaged file if possible) or update its state.
    method Settle(h: nat, v: Verdict, autoEvict: bool) returns (refused: bool)
      requires h in index.rows
      modifies index, storage
      ensures refused <==> Refused(old(index.rows)[h], v, autoEvict)
      ensures refused ==> index.rows == old(index.rows) && storage.objects == old(storage.objects)
      ensures !refused ==> var kept := Scrubbed(old(index.rows)[h], v, autoEvict);
        index.rows == if kept.Some? then old(index.rows)[h := kept.value] else old(index.rows) - {h}
      ensures v == Damaged && autoEvict ==> storage.objects == old(storage.objects) - {h} || (storage.lockable && storage.objects == old(storage.objects))
      ensures !(v == Damaged && autoEvict) ==> storage.objects == old(storage.objects)
    {
      refused := false;
      if v != Verified && autoEvict {
        if v == Damaged {
          var _ := storage.Delete(h);  // a locked file is left behind
        }
        var _ := index.Remove(h);
      } else {
        var updated := index.UpdateStatus(h, StateFor(v));
        refused := updated.Failure?;
      }
    }

    // Checks one entry, passing through the verifying state. Only an entry that is being
    // evicted refuses to be verified.
    method VerifyEntry(h: nat, deep: bool, autoEvict: bool) returns (r: Result<bool, CacheError>)
      modifies index, storage
      ensures r.Failure? <==> h in old(index.rows) && old(index.rows)[h].state == Evicting
      ensures r.Failure? || h !in old(index.rows) ==> index.rows == old(index.rows) && storage.objects == old(storage.objects)
      ensures h !in old(index.rows) ==> r == Success(false)
      ensures r == Success(true) ==>
        && Condition(storage.sha, storage.objects, h, old(index.rows)[h].size, deep) == Verified
        && index.rows == old(index.rows)[h := old(index.rows)[h].(state := Valid)]
      ensures r == Success(true) || !autoEvict ==> storage.objects == old(storage.objects)
      ensures r == Success(false) && h in old(index.rows) && autoEvict ==> index.rows == old(index.rows) - {h}
      ensures r == Success(false) && h in old(index.rows) && !autoEvict ==>
        h in index.rows && index.rows[h].state == (if h in storage.objects then Corrupted else Absent) &&
        index.rows == old(index.rows)[h := old(index.rows)[h].(state := index.rows[h].state)]
      ensures storage.objects == old(storage.objects) || storage.objects == old(storage.objects) - {h}
      ensures Smaller(old(index.rows), index.rows) && index.rows - {h} == old(index.rows) - {h}
      ensures h in old(index.rows) && !storage.lockable && r.Success? ==>
        (r.value <==> Condition(storage.sha, old(storage.objects), h, old(index.rows)[h].size, deep) == Verified)
    {
      var entry := index.Get(h);
      if entry.None? {
        return Success(false);
      }
      var begun := index.UpdateStatus(h, Verifying);
      if begun.Failure? {
        return Failure(InvalidTransition);
      }
      var v := Inspect(h, entry.value.size, deep);
      var refused := Settle(h, v, autoEvict);
      r := Success(v == Verified);
    }

    // One entry of the batch scrub; unlike VerifyEntry it does not pass through verifying.
    method ScrubEntry(h: nat, deep: bool, autoEvict: bool) returns (v: Verdict, refused: bool)
      requires h in index.rows
      modifies index, storage
      ensures v == Verified ==> Condition(storage.sha, old(storage.objects), h, old(index.rows)[h].size, deep) == Verified
      ensures !storage.lockable ==> v == Condition(storage.sha, old(storage.objects), h, old(index.rows)[h].size, deep)
      ensures refused <==> Refused(old(index.rows)[h], v, autoEvict)
      ensures refused ==> index.rows == old(index.rows) && storage.objects == old(storage.objects)
      ensures !refused ==> var kept := Scrubbed(old(index.rows)[h], v, autoEvict);
        index.rows == if kept.Some? then old(index.rows)[h := kept.value] else old(index.rows) - {h}
      ensures storage.objects == old(storage.objects) || storage.objects == old(storage.objects) - {h}
      ensures v == Verified || !autoEvict ==> storage.objects == old(storage.objects)
      ensures v == Damaged && autoEvict && !storage.lockable ==> storage.objects == old(storage.objects) - {h}
    {
      v := Inspect(h, index.rows[h].size, deep);
      refused := Settle(h, v, autoEvict);
    }

    // The batch scrub. `verdicts` is what each inspection found, in the order the rows were
    // read; the scrub stops at the first row whose transition the state machine refuses.
    method VerifyAll(deep: bool, autoEvict: bool) returns (r: Result<map<nat, Verdict>, CacheError>)
      modifies index, storage
      ensures Smaller(old(index.rows), index.rows)
      ensures r.Success? ==> r.value.Keys == old(index.rows).Keys
      ensures r.Success? ==> forall h :: h in old(index.rows) ==>
        var kept := Scrubbed(old(index.rows)[h], r.value[h], autoEvict);
        (h in index.rows <==> kept.Some?) && (kept.Some? ==> index.rows[h] == kept.value)
      ensures forall h :: h in storage.objects ==> h in old(storage.objects) && storage.objects[h] == old(storage.objects)[h]
      ensures forall h :: h in old(storage.objects) && h !in old(index.rows) ==> h in storage.objects
      ensures !autoEvict ==> storage.objects == old(storage.objects)
      ensures r.Success? ==> forall h :: h in r.value && r.value[h] == Verified ==>
        Condition(storage.sha, storage.objects, h, old(index.rows)[h].size, deep) == Verified
      ensures !storage.lockable && r.Success? ==> forall h :: h in r.value ==>
        && r.value[h] == Condition(storage.sha, old(storage.objects), h, old(index.rows)[h].size, deep)
        && (r.value[h] == Damaged && autoEvict ==> h !in storage.objects)
      ensures !storage.lockable ==>
        (r.Failure? <==> ScrubAborts(storage.sha, old(index.rows), old(storage.objects), deep, autoEvict))
    {
      var verdicts: map<nat, Verdict> := map[];
      var todo := index.rows.Keys;
      ghost var rows0, objects0 := index.rows, storage.objects;
      while todo != {}
        invariant Scrubbing(rows0, objects0, todo, verdicts, deep, autoEvict)
        decreases todo
      {
        var h :| h in todo;
        var v, refused := ScrubNext(h, rows0, objects0, todo, verdicts, deep, autoEvict);
        if refused {
          return Failure(InvalidTransition);
        }
        verdicts := verdicts[h := v];
        todo := todo - {h};
      }
      r := Success(verdicts);
    }

    // A scrub underway: rows outside `todo` have their verdict and look as it demands.
    ghost predicate Scrubbing(rows0: Rows, objects0: map<nat, Bytes>, todo: set<nat>, verdicts: map<nat, Verdict>, deep: bool, autoEvict: bool)
      reads index, storage
    {
      && todo <= rows0.Keys && verdicts.Keys == rows0.Keys - todo
      && Smaller(rows0, index.rows) && FilesLeft(rows0, objects0, autoEvict)
      && (forall h :: h in todo ==> h in index.rows && index.rows[h] == rows0[h] && (h in storage.objects <==> h in objects0))
      && (forall h :: h in verdicts ==> JudgedAs(rows0, objects0, h, verdicts[h], deep, autoEvict))
    }

    // Only files of judged entries may be gone, and only under self-healing.
    ghost predicate FilesLeft(rows0: Rows, objects0: map<nat, Bytes>, autoEvict: bool)
      reads storage
    {
      && (forall h :: h in storage.objects ==> h in objects0 && storage.objects[h] == objects0[h])
      && (forall h :: h in objects0 && h !in rows0 ==> h in storage.objects)
      && (!autoEvict ==> storage.objects == objects0)
    }

    ghost predicate JudgedAs(rows0: Rows, objects0: map<nat, Bytes>, h: nat, v: Verdict, deep: bool, autoEvict: bool)
      requires h in rows0
      reads index, storage
    {
      && (h in index.rows <==> Scrubbed(rows0[h], v, autoEvict).Some?)
      && (h in index.rows ==> index.rows[h] == Scrubbed(rows0[h], v, autoEvict).value)
      && (v == Verified ==> h in storage.objects && Condition(storage.sha, objects0, h, rows0[h].size, deep) == Verified)
      && (!storage.lockable ==> v == Condition(storage.sha, objects0, h, rows0[h].size, deep) && !Refused(rows0[h], v, autoEvict))
      && (!storage.lockable && v == Damaged && autoEvict ==> h !in storage.objects)
    }

    method ScrubNext(h: nat, ghost rows0: Rows, ghost objects0: map<nat, Bytes>, ghost todo: set<nat>, ghost verdicts: map<nat, Verdict>,
                     deep: bool, autoEvict: bool) returns (v: Verdict, refused: bool)
      requires Scrubbing(rows0, objects0, todo, verdicts, deep, autoEvict) && h in todo
      modifies index, storage
      ensures refused ==> index.rows == old(index.rows) && storage.objects == old(storage.objects) && Refused(rows0[h], v, autoEvict)
      ensures refused && !storage.lockable ==> v == Condition(storage.sha, objects0, h, rows0[h].size, deep)
      ensures !refused ==> Scrubbing(rows0, objects0, todo - {h}, verdicts[h := v], deep, autoEvict)
    {
      ghost var rows1, objects1 := index.rows, storage.objects;
      v, refused := ScrubEntry(h, deep, autoEvict);
      if !refused {
        forall k | k in verdicts ensures JudgedAs(rows0, objects0, k, verdicts[k], deep, autoEvict) {
          assert k != h;
        }
      }
    }
  }

  // With self-healing the scrub aborts exactly when an intact file belongs to a row that is absent,
  // transferring or already marked corrupted; without it also when a damaged file belongs to a row
  // that is absent, transferring or being evicted.
  lemma ScrubRefusals(row: Row, v: Verdict)
    ensures Refused(row, v, true) <==> v == Verified && row.state in {Absent, Transferring, Corrupted}
    ensures Refused(row, v, false) <==>
      || (v == Verified && row.state in {Absent, Transferring, Corrupted})
      || (v == Damaged && row.state in {Absent, Transferring, Evicting})
  {
  }
}
