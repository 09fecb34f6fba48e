/** The disk cache store: puts, reads, removals and index/disk reconciliation. Every operation
holds the process lock, so each is one atomic step. */
module CacheStore {
  import opened Wrappers
  import opened CacheIndex
  import opened CacheStorage
  import opened CacheEviction
  import opened CacheVerifier
  import opened Ordering

  // Which object a put ended with, and whether it was there before.
  datatype Put = Put(hash: nat, size: nat, duplicate: bool)

  datatype Report = Report(dangling: nat, orphans: nat, corrupted: nat, verified: nat)

  // The authoritative definition of a valid cache entry.
  predicate EntryValid(rows: Rows, objects: map<nat, Bytes>, h: nat) {
    h in rows && rows[h].state == Valid && h in objects && |objects[h]| == rows[h].size
  }

  ghost predicate CollisionFree(sha: Bytes -> nat) {
    forall a, b :: sha(a) == sha(b) ==> a == b
  }

  lemma ShrunkIsSmaller(m0: Rows, o0: map<nat, Bytes>, m1: Rows, o1: map<nat, Bytes>)
    requires Shrunk(m0, o0, m1, o1)
    ensures Smaller(m0, m1) && TotalSize(m1) <= TotalSize(m0)
  {
    SmallerTotal(m0, m1);
  }

  class DiskCacheStore {
    const storage: ObjectStorage
    const index: MetadataIndex
    const quota: Option<int>
    const evictor: LruEvictor
    const verifier: IntegrityVerifier

    predicate Wired() {
      evictor.storage == storage && evictor.index == index && evictor.quota == quota &&
      verifier.storage == storage && verifier.index == index
    }

    constructor (sha: Bytes -> nat, lockable: bool, quota: Option<int>)
      ensures Wired() && this.quota == quota && fresh(index) && fresh(storage)
      ensures storage.sha == sha && storage.lockable == lockable && index.rows == map[] && storage.objects == map[]
      ensures WithinQuota() && storage.Addressed()
    {
      var s := new ObjectStorage(sha, lockable);
      var i := new MetadataIndex();
      this.storage, this.index, this.quota := s, i, quota;
      evictor := new LruEvictor(s, i, quota);
      verifier := new IntegrityVerifier(s, i);
    }

    ghost predicate WithinQuota()
      reads index
    {
      Unbounded(quota) || TotalSize(index.rows) <= quota.value
    }

    // Room for more bytes: without eviction, or after evicting everything that can be reached.
    ghost predicate FitsAsIs(rows: Rows, size: nat) {
      Unbounded(quota) || TotalSize(rows) + size <= quota.value
    }

    ghost predicate Fits(rows: Rows, size: nat) {
      Unbounded(quota) || CanFit(rows, size, quota.value)
    }

    // Storing the data means replacing an object that another process may hold open.
    predicate Replaces(objects: map<nat, Bytes>, data: Bytes) {
      storage.lockable && storage.sha(data) in objects
    }

    // The answer to data that was checked with the given verdict. Only a lack of room or a stale
    // object held open can still refuse it, and without locked files exactly a lack of room does.
    ghost predicate Answers(r: Result<Put, CacheError>, rows: Rows, objects: map<nat, Bytes>, data: Bytes, verdict: Option<CacheError>) {
      match verdict
      case Some(e) => r == Failure(e)
      case None =>
        && (r.Success? ==> r.value.hash == storage.sha(data) && r.value.duplicate == EntryValid(rows, objects, storage.sha(data)))
        && (r.Failure? ==> !EntryValid(rows, objects, storage.sha(data)))
        && (r.Failure? ==> (r.error == QuotaExceeded && !FitsAsIs(rows, |data|)) || (r.error == LockedFile && Replaces(objects, data)))
        && (!storage.lockable ==> (r.Success? <==> EntryValid(rows, objects, storage.sha(data)) || Fits(rows, |data|)))
    }

    // What making room may do: nothing when the data fits as it is; otherwise only evictable rows go,
    // with their files and only as long as room is lacking, and without locked files exactly the rows
    // the eviction plan names.
    ghost predicate MadeRoom(rows0: Rows, objects0: map<nat, Bytes>, size: nat, rows: Rows, objects: map<nat, Bytes>) {
      && Shrunk(rows0, objects0, rows, objects)
      && (FitsAsIs(rows0, size) ==> rows == rows0)
      && (!FitsAsIs(rows0, size) ==>
        && Lean(rows0, rows, TotalSize(rows0) - TotalSize(rows), TotalSize(rows0) + size - quota.value)
        && (!storage.lockable && size <= quota.value ==> EvictedFor(rows0, TotalSize(rows0) + size - quota.value, rows)))
    }

    // On top of that the data was stored: only its own row and object changed.
    predicate PutOn(rows1: Rows, objects1: map<nat, Bytes>, data: Bytes, rows: Rows, objects: map<nat, Bytes>) {
      var h := storage.sha(data);
      && h in rows && rows[h].size == |data| && rows[h].state == Valid
      && rows[h].hits == (if h in rows1 then rows1[h].hits + 1 else 1)
      && rows == rows1[h := rows[h]] && objects == objects1[h := data]
    }

    ghost predicate Placed(rows0: Rows, objects0: map<nat, Bytes>, data: Bytes, rows: Rows, objects: map<nat, Bytes>) {
      exists rows1, objects1 :: MadeRoom(rows0, objects0, |data|, rows1, objects1) && PutOn(rows1, objects1, data, rows, objects)
    }

    // What a put of data that passed its checks does to index and disk.
    ghost predicate Stored(r: Result<Put, CacheError>, rows0: Rows, objects0: map<nat, Bytes>, data: Bytes, rows: Rows, objects: map<nat, Bytes>) {
      if EntryValid(rows0, objects0, storage.sha(data)) then Touched(rows0, rows, storage.sha(data)) && objects == objects0
      else if r.Success? then Placed(rows0, objects0, data, rows, objects)
      else MadeRoom(rows0, objects0, |data|, rows, objects)
    }

    // The room a put of new data made before its own row and object went in.
    lemma RoomFor(rows0: Rows, objects0: map<nat, Bytes>, data: Bytes, rows: Rows, objects: map<nat, Bytes>)
      returns (rows1: Rows, objects1: map<nat, Bytes>)
      requires Placed(rows0, objects0, data, rows, objects)
      ensures MadeRoom(rows0, objects0, |data|, rows1, objects1)
      ensures PutOn(rows1, objects1, data, rows, objects)
      ensures rows - {storage.sha(data)} == rows1 - {storage.sha(data)} && objects - {storage.sha(data)} == objects1 - {storage.sha(data)}
    {
      rows1, objects1 :| MadeRoom(rows0, objects0, |data|, rows1, objects1) && PutOn(rows1, objects1, data, rows, objects);
      OthersUntouched(rows1, objects1, data, rows, objects);
    }

    lemma OthersUntouched(rows1: Rows, objects1: map<nat, Bytes>, data: Bytes, rows: Rows, objects: map<nat, Bytes>)
      requires PutOn(rows1, objects1, data, rows, objects)
      ensures rows - {storage.sha(data)} == rows1 - {storage.sha(data)} && objects - {storage.sha(data)} == objects1 - {storage.sha(data)}
    {
    }

    // New data that fits as it is disturbs no other entry.
    lemma FittingDataDisturbsNothing(rows0: Rows, objects0: map<nat, Bytes>, data: Bytes, rows: Rows, objects: map<nat, Bytes>)
      requires Placed(rows0, objects0, data, rows, objects) && (Unbounded(quota) || TotalSize(rows0) + |data| <= quota.value)
      ensures rows - {storage.sha(data)} == rows0 - {storage.sha(data)}
      ensures objects == objects0[storage.sha(data) := data]
    {
      var rows1, objects1 := RoomFor(rows0, objects0, data, rows, objects);
      NothingRemoved(rows0, objects0, rows1, objects1);
    }

    // The rows an eviction plan for incoming data leaves.
    ghost function LeftByPlan(rows0: Rows, size: nat): Rows
      requires quota.Some?
    {
      rows0 - Elements(Planned(rows0, TotalSize(rows0) + size - quota.value))
    }

    lemma RoomOnPlan(rows0: Rows, objects0: map<nat, Bytes>, size: nat, rows1: Rows, objects1: map<nat, Bytes>)
      requires MadeRoom(rows0, objects0, size, rows1, objects1) && !storage.lockable
      requires !Unbounded(quota) && size <= quota.value < TotalSize(rows0) + size
      ensures rows1 == LeftByPlan(rows0, size) && objects1 == objects0 - (rows0.Keys - rows1.Keys)
    {
    }

    // Otherwise, without locked files, the other rows that are left are those of the eviction plan.
    lemma CrowdedDataFollowsPlan(rows0: Rows, objects0: map<nat, Bytes>, data: Bytes, rows: Rows, objects: map<nat, Bytes>)
      requires Placed(rows0, objects0, data, rows, objects) && !storage.lockable
      requires !Unbounded(quota) && |data| <= quota.value < TotalSize(rows0) + |data|
      ensures rows - {storage.sha(data)} == LeftByPlan(rows0, |data|) - {storage.sha(data)}
      ensures objects == (objects0 - (rows0.Keys - LeftByPlan(rows0, |data|).Keys))[storage.sha(data) := data]
    {
      var rows1, objects1 := RoomFor(rows0, objects0, data, rows, objects);
      RoomOnPlan(rows0, objects0, |data|, rows1, objects1);
    }

    // Whatever is locked: every other entry that is left is as it was, only evictable rows and their
    // files are gone, and they went only while room was lacking.
    lemma OthersStayOrGo(rows0: Rows, objects0: map<nat, Bytes>, data: Bytes, rows: Rows, objects: map<nat, Bytes>, k: nat)
      requires Placed(rows0, objects0, data, rows, objects) && k != storage.sha(data)
      ensures k in rows ==> k in rows0 && rows[k].size == rows0[k].size && rows[k].state == rows0[k].state
      ensures k in rows0 && k !in rows ==> rows0[k].state in {Valid, Evicting} && k !in objects
      ensures k in objects <==> k in objects0 && (k in rows || k !in rows0)
      ensures k in objects ==> objects[k] == objects0[k]
    {
      var rows1, objects1 := RoomFor(rows0, objects0, data, rows, objects);
      assert k in rows <==> k in rows1;
      assert k in objects <==> k in objects1;
    }

    // A hash that is already valid is taken for the content without looking at it.
    predicate Known(rows: Rows, objects: map<nat, Bytes>, expected: Option<nat>) {
      expected.Some? && EntryValid(rows, objects, expected.value)
    }

    // What a streamed put does to index and disk: a known hash is touched, refused data changes nothing.
    ghost predicate Ingested(r: Result<Put, CacheError>, rows0: Rows, objects0: map<nat, Bytes>, data: Bytes, expected: Option<nat>,
                             size: Option<nat>, cap: Option<int>, rows: Rows, objects: map<nat, Bytes>) {
      if Known(rows0, objects0, expected) then Touched(rows0, rows, expected.value) && objects == objects0
      else if StreamVerdict(storage.sha, data, expected, size, cap).Some? then rows == rows0 && objects == objects0
      else Stored(r, rows0, objects0, data, rows, objects)
    }

    // When a streamed put succeeds, given the cap its route puts on the stream.
    ghost predicate Accepts(rows: Rows, objects: map<nat, Bytes>, data: Bytes, expected: Option<nat>, size: Option<nat>, cap: Option<int>) {
      || Known(rows, objects, expected)
      || (StreamVerdict(storage.sha, data, expected, size, cap).None?
          && (EntryValid(rows, objects, storage.sha(data)) || Fits(rows, |data|)))
    }

    // The stream route and the file route take the same content unless the content is longer than the
    // quota the stream is capped at and the file route does not refuse it for that: because the quota
    // is not positive and so bounds nothing, or because the content is there already.
    lemma RoutesAgreeIff(rows: Rows, objects: map<nat, Bytes>, data: Bytes, expected: Option<nat>, size: Option<nat>)
      requires size.Some? ==> size.value == |data|
      ensures (Accepts(rows, objects, data, expected, size, quota) <==> Accepts(rows, objects, data, expected, Some(|data|), None)) <==>
        !(&& quota.Some? && data != [] && |data| > quota.value
          && (quota.value <= 0 || EntryValid(rows, objects, storage.sha(data)))
          && !Known(rows, objects, expected) && (expected.Some? ==> expected.value == storage.sha(data)))
    {
      var over := quota.Some? && data != [] && |data| > quota.value;
      assert StreamVerdict(storage.sha, data, expected, Some(|data|), None).None? <==> (expected.Some? ==> expected.value == storage.sha(data));
      assert StreamVerdict(storage.sha, data, expected, size, quota).None? <==>
        !over && (expected.Some? ==> expected.value == storage.sha(data));
      assert over && quota.value > 0 ==> !Fits(rows, |data|);
      assert quota.Some? && quota.value <= 0 ==> Fits(rows, |data|);
    }

    // New content under no expectation: the routes differ exactly for a quota that is not positive.
    lemma NewContentAgreesIff(rows: Rows, objects: map<nat, Bytes>, data: Bytes, size: Option<nat>)
      requires (size.Some? ==> size.value == |data|) && !EntryValid(rows, objects, storage.sha(data))
      ensures (Accepts(rows, objects, data, None, size, quota) <==> Accepts(rows, objects, data, None, Some(|data|), None)) <==>
        !(quota.Some? && quota.value <= 0 && data != [])
    {
      RoutesAgreeIff(rows, objects, data, None, size);
    }

    // A quota of zero: one byte is refused by the stream route and taken by the file route.
    lemma ZeroQuotaDiffers()
      requires quota == Some(0)
      ensures !Accepts(map[], map[], [0], None, None, quota) && Accepts(map[], map[], [0], None, Some(1), None)
    {
    }

    predicate IsCacheValid(h: nat)
      reads index, storage
    {
      EntryValid(index.rows, storage.objects, h)
    }

    // A read records the access to a valid entry and returns its object, unless the file is held.
    method GetBytes(h: nat) returns (r: Result<Option<Bytes>, CacheError>)
      modifies index
      ensures r.Failure? ==> r.error == LockedFile && storage.lockable && old(IsCacheValid(h))
      ensures r.Success? ==> r.value == if old(IsCacheValid(h)) then Some(storage.objects[h]) else None
      ensures if old(IsCacheValid(h)) then Touched(old(index.rows), index.rows, h) else index.rows == old(index.rows)
      ensures Smaller(old(index.rows), index.rows) && IsCacheValid(h) == old(IsCacheValid(h))
      ensures TotalSize(index.rows) == TotalSize(old(index.rows))
    {
      if !IsCacheValid(h) {
        return Success(None);
      }
      ghost var rows0 := index.rows;
      var _ := index.Touch(h);
      SameSizesSameTotal(rows0, index.rows);
      var data := storage.ReadBytes(h);
      r := if data.Success? then Success(Some(data.value)) else Failure(data.error);
    }

    // The part the three put routes share once the data is staged and checked: a valid
    // duplicate is only touched; otherwise room is made, the file is renamed into place and
    // the row is upserted.
    method Admit(data: Bytes) returns (r: Result<Put, CacheError>)
      requires Wired()
      modifies index, storage
      ensures old(WithinQuota()) ==> WithinQuota()
      ensures old(storage.Addressed()) ==> storage.Addressed()
      ensures old(IsCacheValid(storage.sha(data))) ==>
        r.Success? && r.value.duplicate && r.value.hash == storage.sha(data) && storage.objects == old(storage.objects)
        && TotalSize(index.rows) == TotalSize(old(index.rows)) && IsCacheValid(r.value.hash)
      ensures r.Success? && !old(IsCacheValid(storage.sha(data))) ==>
        r.value == Put(storage.sha(data), |data|, false) && IsCacheValid(r.value.hash) && storage.objects[r.value.hash] == data
        && WithinQuota()
      ensures Stored(r, old(index.rows), old(storage.objects), data, index.rows, storage.objects)
      ensures Answers(r, old(index.rows), old(storage.objects), data, None)
    {
      var h := storage.sha(data);
      ghost var rows0, objects0 := index.rows, storage.objects;
      if IsCacheValid(h) {
        var _ := index.Touch(h);
        SameSizesSameTotal(rows0, index.rows);
        return Success(Put(h, index.rows[h].size, true));
      }
      r := Insert(data);
    }

    // Makes room, renames the file into place and upserts the row.
    method Insert(data: Bytes) returns (r: Result<Put, CacheError>)
      requires Wired()
      modifies index, storage
      ensures old(WithinQuota()) ==> WithinQuota()
      ensures old(storage.Addressed()) ==> storage.Addressed()
      ensures r.Success? ==> r.value == Put(storage.sha(data), |data|, false) && WithinQuota()
      ensures r.Success? ==> Placed(old(index.rows), old(storage.objects), data, index.rows, storage.objects)
      ensures r.Failure? ==> MadeRoom(old(index.rows), old(storage.objects), |data|, index.rows, storage.objects)
      ensures r.Failure? ==>
        (r.error == QuotaExceeded && !FitsAsIs(old(index.rows), |data|)) || (r.error == LockedFile && Replaces(old(storage.objects), data))
      ensures !storage.lockable ==> (r.Success? <==> Fits(old(index.rows), |data|))
    {
      var room := MakeRoom(|data|);
      if room.Failure? {
        return Failure(room.error);
      }
      var put := PutRow(data);
      r := if put.Failure? then Failure(put.error) else Success(Put(storage.sha(data), |data|, false));
    }

    method MakeRoom(size: nat) returns (room: Result<nat, CacheError>)
      requires Wired()
      modifies index, storage
      ensures old(WithinQuota()) ==> WithinQuota()
      ensures old(storage.Addressed()) ==> storage.Addressed()
      ensures MadeRoom(old(index.rows), old(storage.objects), size, index.rows, storage.objects)
      ensures room.Success? ==> FitsAsIs(index.rows, size)
      ensures room.Failure? ==> room.error == QuotaExceeded && !FitsAsIs(old(index.rows), size)
      ensures !storage.lockable ==> (room.Success? <==> Fits(old(index.rows), size))
    {
      ghost var rows0, objects0 := index.rows, storage.objects;
      room := evictor.EnforceQuota(size);
      ShrunkIsSmaller(rows0, objects0, index.rows, storage.objects);
    }

    method PutRow(data: Bytes) returns (r: Result<(), CacheError>)
      modifies index, storage
      ensures old(storage.Addressed()) ==> storage.Addressed()
      ensures r.Failure? ==> r.error == LockedFile && storage.lockable && storage.sha(data) in old(storage.objects)
      ensures r.Failure? ==> index.rows == old(index.rows) && storage.objects == old(storage.objects)
      ensures r.Success? ==> PutOn(old(index.rows), old(storage.objects), data, index.rows, storage.objects)
      ensures r.Success? && old(FitsAsIs(index.rows, |data|)) ==> WithinQuota()
    {
      ghost var rows1 := index.rows;
      r := storage.Install(data);
      if r.Success? {
        var now: real := *;
        index.Put(storage.sha(data), |data|, now, Valid);
        TotalPut(rows1, storage.sha(data), index.rows[storage.sha(data)]);
      }
    }

    method PutBytes(data: Bytes, expected: Option<nat>) returns (r: Result<Put, CacheError>)
      requires Wired()
      modifies index, storage
      ensures old(WithinQuota()) ==> WithinQuota()
      ensures old(storage.Addressed()) ==> storage.Addressed()
      ensures expected.Some? && expected.value != storage.sha(data) ==>
        r == Failure(HashMismatch) && index.rows == old(index.rows) && storage.objects == old(storage.objects)
      ensures r.Success? ==> r.value.hash == storage.sha(data) && IsCacheValid(r.value.hash)
      ensures r.Success? ==> r.value.duplicate == old(IsCacheValid(storage.sha(data)))
      ensures r.Success? && r.value.duplicate ==> TotalSize(index.rows) == TotalSize(old(index.rows))
      ensures r.Success? && !r.value.duplicate ==> WithinQuota() && storage.objects[r.value.hash] == data
      ensures r.Success? && old(storage.Addressed()) && CollisionFree(storage.sha) ==> storage.objects[r.value.hash] == data
      ensures !(expected.Some? && expected.value != storage.sha(data)) ==>
        Stored(r, old(index.rows), old(storage.objects), data, index.rows, storage.objects)
      ensures Answers(r, old(index.rows), old(storage.objects), data, StreamVerdict(storage.sha, data, expected, None, None))
    {
      if expected.Some? && storage.sha(data) != expected.value {
        return Failure(HashMismatch);
      }
      r := Admit(data);
    }

    // Ingests a stream. A hash that is already valid is accepted without reading the stream.
    method Ingest(chunks: seq<Bytes>, size: Option<nat>, expected: Option<nat>, maxBytes: Option<int>)
      returns (r: Result<Put, CacheError>)
      requires Wired()
      modifies index, storage
      ensures old(WithinQuota()) ==> WithinQuota()
      ensures old(storage.Addressed()) ==> storage.Addressed()
      ensures expected.Some? && old(IsCacheValid(expected.value)) ==>
        r.Success? && r.value.duplicate && r.value.hash == expected.value && TotalSize(index.rows) == TotalSize(old(index.rows))
      ensures Ingested(r, old(index.rows), old(storage.objects), Content(chunks), expected, size, maxBytes, index.rows, storage.objects)
      ensures var verdict := StreamVerdict(storage.sha, Content(chunks), expected, size, maxBytes);
        !(expected.Some? && old(IsCacheValid(expected.value))) && verdict.Some? ==>
          r == Failure(verdict.value) && index.rows == old(index.rows) && storage.objects == old(storage.objects)
      ensures r.Success? && !r.value.duplicate ==>
        WithinQuota() && IsCacheValid(r.value.hash) && storage.objects[r.value.hash] == Content(chunks)
        && r.value.hash == storage.sha(Content(chunks)) && (expected.Some? ==> r.value.hash == expected.value)
      ensures r.Success? && r.value.duplicate ==> TotalSize(index.rows) == TotalSize(old(index.rows))
      ensures !Known(old(index.rows), old(storage.objects), expected) ==>
        Answers(r, old(index.rows), old(storage.objects), Content(chunks), StreamVerdict(storage.sha, Content(chunks), expected, size, maxBytes))
      ensures !storage.lockable ==>
        (r.Success? <==> Accepts(old(index.rows), old(storage.objects), Content(chunks), expected, size, maxBytes))
    {
      if expected.Some? && IsCacheValid(expected.value) {
        ghost var rows0 := index.rows;
        var _ := index.Touch(expected.value);
        SameSizesSameTotal(rows0, index.rows);
        return Success(Put(expected.value, index.rows[expected.value].size, true));
      }
      var staged := storage.StageStream(chunks, expected, size, maxBytes);
      if staged.Failure? {
        return Failure(staged.error);
      }
      r := Admit(staged.value);
    }

    // The streaming route caps the stream at the quota, also when the quota is zero.
    method PutStream(chunks: seq<Bytes>, size: Option<nat>, expected: Option<nat>) returns (r: Result<Put, CacheError>)
      requires Wired()
      modifies index, storage
      ensures old(WithinQuota()) ==> WithinQuota()
      ensures old(storage.Addressed()) ==> storage.Addressed()
      ensures r.Success? && !r.value.duplicate ==>
        WithinQuota() && IsCacheValid(r.value.hash) && storage.objects[r.value.hash] == Content(chunks)
        && r.value.hash == storage.sha(Content(chunks)) && (expected.Some? ==> r.value.hash == expected.value)
        && (size.Some? ==> |Content(chunks)| == size.value)
      ensures r.Success? && r.value.duplicate ==> TotalSize(index.rows) == TotalSize(old(index.rows))
      ensures Known(old(index.rows), old(storage.objects), expected) ==> r.Success? && r.value.duplicate && r.value.hash == expected.value
      ensures Ingested(r, old(index.rows), old(storage.objects), Content(chunks), expected, size, quota, index.rows, storage.objects)
      ensures !Known(old(index.rows), old(storage.objects), expected) ==>
        Answers(r, old(index.rows), old(storage.objects), Content(chunks), StreamVerdict(storage.sha, Content(chunks), expected, size, quota))
      ensures !Known(old(index.rows), old(storage.objects), expected) ==>
        (r == Failure(StreamTooLarge) <==> quota.Some? && Content(chunks) != [] && |Content(chunks)| > quota.value)
      ensures !storage.lockable ==>
        (r.Success? <==> Accepts(old(index.rows), old(storage.objects), Content(chunks), expected, size, quota))
    {
      r := Ingest(chunks, size, expected, quota);
    }

    // Ingesting a file is streaming it with the size the file system reports, and no cap.
    method PutFile(chunks: seq<Bytes>, fileSize: nat, expected: Option<nat>) returns (r: Result<Put, CacheError>)
      requires Wired()
      modifies index, storage
      ensures old(WithinQuota()) ==> WithinQuota()
      ensures old(storage.Addressed()) ==> storage.Addressed()
      ensures r.Success? && !r.value.duplicate ==>
        WithinQuota() && IsCacheValid(r.value.hash) && storage.objects[r.value.hash] == Content(chunks) && |Content(chunks)| == fileSize
        && r.value.hash == storage.sha(Content(chunks)) && (expected.Some? ==> r.value.hash == expected.value)
      ensures r.Success? && r.value.duplicate ==> TotalSize(index.rows) == TotalSize(old(index.rows))
      ensures Known(old(index.rows), old(storage.objects), expected) ==> r.Success? && r.value.duplicate && r.value.hash == expected.value
      ensures Ingested(r, old(index.rows), old(storage.objects), Content(chunks), expected, Some(fileSize), None, index.rows, storage.objects)
      ensures !Known(old(index.rows), old(storage.objects), expected) ==>
        Answers(r, old(index.rows), old(storage.objects), Content(chunks), StreamVerdict(storage.sha, Content(chunks), expected, Some(fileSize), None))
      ensures !storage.lockable ==>
        (r.Success? <==> Accepts(old(index.rows), old(storage.objects), Content(chunks), expected, Some(fileSize), None))
    {
      r := Ingest(chunks, Some(fileSize), expected, None);
    }

    method Remove(h: nat) returns (r: Result<bool, CacheError>)
      modifies index, storage
      ensures old(WithinQuota()) ==> WithinQuota()
      ensures old(storage.Addressed()) ==> storage.Addressed()
      ensures r.Failure? ==> storage.lockable && index.rows == old(index.rows) && storage.objects == old(storage.objects)
      ensures r.Success? ==> index.rows == old(index.rows) - {h} && storage.objects == old(storage.objects) - {h}
      ensures r.Success? ==> (r.value <==> h in old(storage.objects) || h in old(index.rows))
    {
      var deleted := storage.Delete(h);
      if deleted.Failure? {
        return Failure(deleted.error);
      }
      ghost var rows0 := index.rows;
      var dropped := index.Remove(h);
      SmallerTotal(rows0, index.rows);
      r := Success(deleted.value || dropped);
    }

    method EvictLru(target: int) returns (freed: nat)
      requires Wired()
      modifies index, storage
      ensures old(WithinQuota()) ==> WithinQuota()
      ensures old(storage.Addressed()) ==> storage.Addressed()
      ensures freed == TotalSize(old(index.rows)) - TotalSize(index.rows)
      ensures Shrunk(old(index.rows), old(storage.objects), index.rows, storage.objects)
      ensures Lean(old(index.rows), index.rows, freed, target)
      ensures !storage.lockable ==> EvictedFor(old(index.rows), target, index.rows)
    {
      freed := evictor.EvictToFree(target);
    }

    method Verify(h: nat, deep: bool) returns (r: Result<bool, CacheError>)
      requires Wired()
      modifies index, storage
      ensures old(WithinQuota()) ==> WithinQuota()
      ensures old(storage.Addressed()) ==> storage.Addressed()
      ensures r == Success(true) ==> IsCacheValid(h) && (deep ==> storage.sha(storage.objects[h]) == h)
      ensures r.Failure? <==> h in old(index.rows) && old(index.rows)[h].state == Evicting
      ensures storage.objects == old(storage.objects)
      ensures r.Failure? || h !in old(index.rows) ==> index.rows == old(index.rows)
      ensures r.Success? && !storage.lockable ==>
        (r.value <==> h in old(index.rows) && h in storage.objects && |storage.objects[h]| == old(index.rows)[h].size
                      && (deep ==> storage.sha(storage.objects[h]) == h))
      ensures r.Success? && h in old(index.rows) ==>
        index.rows == old(index.rows)[h := old(index.rows)[h].(state := if r.value then Valid else if h in storage.objects then Corrupted else Absent)]
    {
      ghost var rows0 := index.rows;
      r := verifier.VerifyEntry(h, deep, false);
      SmallerTotal(rows0, index.rows);
    }

    method Scrub(autoEvict: bool) returns (r: Result<map<nat, Verdict>, CacheError>)
      requires Wired()
      modifies index, storage
      ensures old(WithinQuota()) ==> WithinQuota()
      ensures old(storage.Addressed()) ==> storage.Addressed()
      ensures r.Success? && autoEvict ==> Sound(index.rows, storage.objects)
      ensures r.Success? && !storage.lockable ==> ScrubbedSoundly(old(index.rows), old(storage.objects), index.rows, storage.objects, autoEvict)
    {
      ghost var rows0, objects0 := index.rows, storage.objects;
      r := verifier.VerifyAll(true, autoEvict);
      SmallerTotal(rows0, index.rows);
      if r.Success? && autoEvict {
        forall h | h in index.rows
          ensures IsCacheValid(h) && storage.sha(storage.objects[h]) == h
        {
          assert h in rows0 && r.value[h] == Verified;
        }
      }
      if r.Success? && !storage.lockable {
        forall h | h in rows0 ensures LeftAs(rows0, objects0, index.rows, storage.objects, autoEvict, h) {
          assert r.value[h] == Condition(storage.sha, objects0, h, rows0[h].size, true);
        }
      }
    }

    // A row whose object is there with the right size and digest.
    predicate Intact(rows: Rows, objects: map<nat, Bytes>, h: nat) {
      h in rows && h in objects && |objects[h]| == rows[h].size && storage.sha(objects[h]) == h
    }

    // An intact entry becomes valid and keeps its object; any other is dropped with its file, or marked.
    predicate LeftAs(rows0: Rows, objects0: map<nat, Bytes>, rows: Rows, objects: map<nat, Bytes>, autoEvict: bool, h: nat)
      requires h in rows0
    {
      if Intact(rows0, objects0, h) then h in rows && rows[h] == rows0[h].(state := Valid) && h in objects && objects[h] == objects0[h]
      else if autoEvict then h !in rows && h !in objects
      else h in rows && rows[h] == rows0[h].(state := if h in objects0 then Corrupted else Absent)
    }

    // A completed scrub judged every entry, added none, and left files without a row alone.
    ghost predicate ScrubbedSoundly(rows0: Rows, objects0: map<nat, Bytes>, rows: Rows, objects: map<nat, Bytes>, autoEvict: bool) {
      && rows.Keys <= rows0.Keys && (forall h :: h in rows0 ==> LeftAs(rows0, objects0, rows, objects, autoEvict, h))
      && (forall h :: h in objects ==> h in objects0 && objects[h] == objects0[h])
      && (forall h :: h in objects0 && h !in rows0 ==> h in objects)
    }

    // Every row is valid and describes its object: state, size and digest.
    ghost predicate Sound(rows: Rows, objects: map<nat, Bytes>) {
      forall h :: h in rows ==> EntryValid(rows, objects, h) && storage.sha(objects[h]) == h
    }

    // What a reconciliation aims for.
    ghost predicate Consistent(rows: Rows, objects: map<nat, Bytes>, verifyHashes: bool) {
      rows.Keys == objects.Keys && (verifyHashes ==> Sound(rows, objects))
    }

    // The rows a reconciliation keeps when no file is locked.
    predicate Keeps(rows: Rows, objects: map<nat, Bytes>, h: nat, verifyHashes: bool) {
      && h in rows && h in objects
      && (verifyHashes ==> rows[h].state != Evicting && Condition(storage.sha, objects, h, rows[h].size, true) == Verified)
    }

    method DropDangling(dangling: set<nat>) returns (count: nat)
      modifies index
      ensures index.rows == old(index.rows) - dangling && count == |dangling|
    {
      var todo := dangling;
      count := 0;
      ghost var rows0 := index.rows;
      while todo != {}
        invariant todo <= dangling && count + |todo| == |dangling|
        invariant index.rows == rows0 - (dangling - todo)
        decreases todo
      {
        var h :| h in todo;
        var _ := index.Remove(h);
        todo := todo - {h};
        count := count + 1;
      }
    }

    method DropOrphans(orphans: set<nat>) returns (r: Result<nat, CacheError>)
      modifies storage
      ensures r.Success? ==> storage.objects == old(storage.objects) - orphans && r.value == |orphans|
      ensures r.Failure? ==> storage.lockable
      ensures forall h :: h in storage.objects ==> h in old(storage.objects) && storage.objects[h] == old(storage.objects)[h]
    {
      var todo, count := orphans, 0;
      ghost var objects0 := storage.objects;
      while todo != {}
        invariant todo <= orphans && count + |todo| == |orphans|
        invariant storage.objects == objects0 - (orphans - todo)
        decreases todo
      {
        var h :| h in todo;
        var deleted := storage.Delete(h);
        if deleted.Failure? {
          return Failure(deleted.error);
        }
        todo := todo - {h};
        count := count + 1;
      }
      r := Success(count);
    }

    // Size and digest of one entry; a bad entry loses its row and then its file.
    method CheckEntry(h: nat) returns (r: Result<bool, CacheError>)
      requires Wired() && h in index.rows && h in storage.objects
      modifies index, storage
      ensures r.Failure? ==> storage.lockable && index.rows == old(index.rows) - {h} && storage.objects == old(storage.objects)
      ensures r == Success(true) ==>
        && index.rows == old(index.rows)[h := old(index.rows)[h].(state := Valid)] && storage.objects == old(storage.objects)
        && Keeps(old(index.rows), old(storage.objects), h, true)
      ensures r == Success(false) ==>
        && index.rows == old(index.rows) - {h} && storage.objects == old(storage.objects) - {h}
        && (!storage.lockable ==> !Keeps(old(index.rows), old(storage.objects), h, true))
    {
      ghost var rows0 := index.rows;
      var bad := |storage.objects[h]| != index.rows[h].size;
      if !bad {
        var verified := verifier.VerifyEntry(h, true, false);
        bad := verified != Success(true);
      }
      if !bad {
        return Success(true);
      }
      var _ := index.Remove(h);
      assert index.rows == rows0 - {h};
      var deleted := storage.Delete(h);
      r := if deleted.Failure? then Failure(deleted.error) else Success(false);
    }

    // Progress of the full check: entries outside `todo` have been judged.
    ghost predicate Judged(rows0: Rows, objects0: map<nat, Bytes>, todo: set<nat>)
      reads index, storage
    {
      && todo <= index.rows.Keys == storage.objects.Keys <= rows0.Keys
      && (forall h :: h in todo ==> index.rows[h] == rows0[h])
      && (forall h :: h in storage.objects ==> h in objects0 && storage.objects[h] == objects0[h])
      && (forall h :: h in index.rows && h !in todo ==>
        index.rows[h] == rows0[h].(state := Valid) && Keeps(rows0, objects0, h, true))
      && (!storage.lockable ==> forall h :: h in rows0 && h !in index.rows ==> !Keeps(rows0, objects0, h, true))
    }

    method JudgeNext(h: nat, ghost rows0: Rows, ghost objects0: map<nat, Bytes>, todo: set<nat>) returns (r: Result<bool, CacheError>)
      requires Wired() && h in todo && Judged(rows0, objects0, todo)
      modifies index, storage
      ensures r.Failure? ==> storage.lockable && Smaller(old(index.rows), index.rows) && storage.objects == old(storage.objects)
      ensures r.Success? ==> Judged(rows0, objects0, todo - {h})
      ensures r.Success? ==> |index.rows.Keys| == |old(index.rows).Keys| - if r.value then 0 else 1
    {
      ghost var keys := index.rows.Keys;
      assert h in keys && |keys - {h}| == |keys| - 1;
      r := CheckEntry(h);
      if r.Success? {
        assert index.rows.Keys == if r.value then keys else keys - {h};
      }
    }

    method CheckEntries() returns (r: Result<(nat, nat), CacheError>)
      requires Wired() && index.rows.Keys == storage.objects.Keys
      modifies index, storage
      ensures Smaller(old(index.rows), index.rows)
      ensures r.Failure? ==> storage.lockable && storage.objects.Keys <= old(storage.objects).Keys
      ensures forall h :: h in storage.objects ==> h in old(storage.objects) && storage.objects[h] == old(storage.objects)[h]
      ensures r.Success? ==> Judged(old(index.rows), old(storage.objects), {})
      ensures r.Success? ==> r.value == (|old(index.rows).Keys| - |index.rows.Keys|, |index.rows.Keys|)
    {
      var todo, corrupted, verified := index.rows.Keys, 0, 0;
      ghost var rows0, objects0 := index.rows, storage.objects;
      while todo != {}
        invariant Judged(rows0, objects0, todo)
        invariant |index.rows.Keys| == verified + |todo| && |rows0.Keys| == |index.rows.Keys| + corrupted
        decreases todo
      {
        var h :| h in todo;
        var judged := JudgeNext(h, rows0, objects0, todo);
        if judged.Failure? {
          return Failure(judged.error);
        }
        todo := todo - {h};
        if judged.value {
          verified := verified + 1;
        } else {
          corrupted := corrupted + 1;
        }
      }
      r := Success((corrupted, verified));
    }

    // What a completed reconciliation leaves: the surviving rows and their untouched objects.
    ghost predicate Reconciled(rows0: Rows, objects0: map<nat, Bytes>, rows: Rows, objects: map<nat, Bytes>, verifyHashes: bool) {
      && rows.Keys == objects.Keys <= rows0.Keys * objects0.Keys
      && (forall h :: h in rows ==> objects[h] == objects0[h])
      && (forall h :: h in rows ==> rows[h] == if verifyHashes then rows0[h].(state := Valid) else rows0[h])
      && (forall h :: h in rows ==> Keeps(rows0, objects0, h, verifyHashes))
      && (!storage.lockable ==> forall h :: Keeps(rows0, objects0, h, verifyHashes) ==> h in rows)
    }

    // Counts of what was removed and kept.
    ghost predicate Reports(rows0: Rows, objects0: map<nat, Bytes>, rows: Rows, verifyHashes: bool, report: Report) {
      && report.dangling == |rows0.Keys - objects0.Keys|
      && report.orphans == |objects0.Keys - rows0.Keys|
      && report.corrupted == |rows0.Keys * objects0.Keys| - |rows.Keys|
      && report.verified == if verifyHashes then |rows.Keys| else 0
    }

    // Drops rows without a file and files without a row.
    method Align() returns (dangling: nat, orphans: Result<nat, CacheError>)
      modifies index, storage
      ensures index.rows == old(index.rows) - (old(index.rows).Keys - old(storage.objects).Keys)
      ensures dangling == |old(index.rows).Keys - old(storage.objects).Keys|
      ensures orphans.Failure? ==> storage.lockable
      ensures forall h :: h in storage.objects ==> h in old(storage.objects) && storage.objects[h] == old(storage.objects)[h]
      ensures orphans.Success? ==>
        && storage.objects == old(storage.objects) - (old(storage.objects).Keys - old(index.rows).Keys)
        && orphans.value == |old(storage.objects).Keys - old(index.rows).Keys|
    {
      var missingFiles := index.rows.Keys - storage.objects.Keys;
      var missingRows := storage.objects.Keys - index.rows.Keys;
      dangling := DropDangling(missingFiles);
      orphans := DropOrphans(missingRows);
    }

    // Index and disk are brought to agree; with verifyHashes every surviving row is re-verified.
    method Reconcile(verifyHashes: bool) returns (r: Result<Report, CacheError>)
      requires Wired()
      modifies index, storage
      ensures old(WithinQuota()) ==> WithinQuota()
      ensures old(storage.Addressed()) ==> storage.Addressed()
      ensures r.Failure? ==> storage.lockable
      ensures r.Success? ==> Consistent(index.rows, storage.objects, verifyHashes)
      ensures r.Success? ==> Reconciled(old(index.rows), old(storage.objects), index.rows, storage.objects, verifyHashes)
      ensures r.Success? ==> Reports(old(index.rows), old(storage.objects), index.rows, verifyHashes, r.value)
    {
      ghost var rows0, objects0 := index.rows, storage.objects;
      var dangling, orphans := Align();
      ghost var rows1, objects1 := index.rows, storage.objects;
      SmallerTotal(rows0, rows1);
      if orphans.Failure? {
        return Failure(orphans.error);
      }
      assert rows1.Keys == objects1.Keys == rows0.Keys * objects0.Keys;
      if !verifyHashes {
        return Success(Report(dangling, orphans.value, 0, 0));
      }
      var checked := CheckEntries();
      SmallerTotal(rows1, index.rows);
      if checked.Failure? {
        return Failure(checked.error);
      }
      JudgedIsConsistent(rows1, objects1);
      JudgedIsReconciled(rows0, objects0, rows1, objects1);
      r := Success(Report(dangling, orphans.value, checked.value.0, checked.value.1));
    }

    lemma JudgedIsReconciled(rows0: Rows, objects0: map<nat, Bytes>, rows1: Rows, objects1: map<nat, Bytes>)
      requires Judged(rows1, objects1, {})
      requires rows1 == rows0 - (rows0.Keys - objects0.Keys) && objects1 == objects0 - (objects0.Keys - rows0.Keys)
      ensures Reconciled(rows0, objects0, index.rows, storage.objects, true)
    {
      forall h ensures Keeps(rows0, objects0, h, true) == Keeps(rows1, objects1, h, true) {}
    }

    lemma JudgedIsConsistent(rows1: Rows, objects1: map<nat, Bytes>)
      requires Judged(rows1, objects1, {})
      ensures Consistent(index.rows, storage.objects, true)
    {
      forall h | h in index.rows
        ensures EntryValid(index.rows, storage.objects, h) && storage.sha(storage.objects[h]) == h
      {
        assert Keeps(rows1, objects1, h, true);
      }
    }

    lemma ConsistentLosesNothing(rows1: Rows, objects1: map<nat, Bytes>, rows2: Rows, objects2: map<nat, Bytes>, verifyHashes: bool, report: Report)
      requires !storage.lockable && Consistent(rows1, objects1, verifyHashes)
      requires Reconciled(rows1, objects1, rows2, objects2, verifyHashes) && Reports(rows1, objects1, rows2, verifyHashes, report)
      ensures rows2 == rows1 && report.dangling == report.orphans == report.corrupted == 0
    {
      assert rows1.Keys - objects1.Keys == {} && objects1.Keys - rows1.Keys == {};
      forall h | h in rows1 ensures h in rows2 && rows2[h] == rows1[h] {
        assert Keeps(rows1, objects1, h, verifyHashes);
      }
      assert rows2.Keys == rows1.Keys * objects1.Keys;
    }

    // Reconciling again, with the same or a weaker check, removes nothing and changes no row.
    method ReconcileAgain(first: bool, second: bool) returns (a: Result<Report, CacheError>, b: Result<Report, CacheError>)
      requires Wired() && !storage.lockable && (second ==> first)
      modifies index, storage
      ensures a.Success? && b.Success?
      ensures b.value.dangling == b.value.orphans == b.value.corrupted == 0
    {
      a := Reconcile(first);
      ghost var rows1, objects1 := index.rows, storage.objects;
      b := Reconcile(second);
      ConsistentLosesNothing(rows1, objects1, index.rows, storage.objects, second, b.value);
    }

    // Any sequence of operations, whatever their outcomes, keeps the cache within its quota and
    // every object under its own hash.
    method RunHistory(ops: seq<Op>)
      requires Wired() && WithinQuota() && storage.Addressed()
      modifies index, storage
      ensures WithinQuota() && storage.Addressed()
    {
      for i := 0 to |ops|
        invariant WithinQuota() && storage.Addressed()
      {
        match ops[i] {
          case DoPutBytes(data, expected) => var _ := PutBytes(data, expected);
          case DoPutFile(chunks, size, expected) => var _ := PutFile(chunks, size, expected);
          case DoPutStream(chunks, size, expected) => var _ := PutStream(chunks, size, expected);
          case DoGet(h) => var _ := GetBytes(h);
          case DoRemove(h) => var _ := Remove(h);
          case DoEvict(target) => var _ := EvictLru(target);
          case DoVerify(h, deep) => var _ := Verify(h, deep);
          case DoScrub(autoEvict) => var _ := Scrub(autoEvict);
          case DoReconcile(verifyHashes) => var _ := Reconcile(verifyHashes);
        }
      }
    }
  }

  datatype Op =
    | DoPutBytes(data: Bytes, expected: Option<nat>)
    | DoPutFile(chunks: seq<Bytes>, size: nat, expected: Option<nat>)
    | DoPutStream(chunks: seq<Bytes>, streamSize: Option<nat>, expected: Option<nat>)
    | DoGet(hash: nat)
    | DoRemove(hash: nat)
    | DoEvict(target: int)
    | DoVerify(hash: nat, deep: bool)
    | DoScrub(autoEvict: bool)
    | DoReconcile(verifyHashes: bool)
}
