/** Records of workload outputs and the three-stage collection of the ones no job needs. */
module Artifacts {
  import opened Wrappers
  import opened Ordering

  // A content digest; whatever its alphabet, it holds no separator.
  type Digest = s: string | ':' !in s

  datatype Life = Created | Available | GcEligible | Deleted

  datatype Artifact = Artifact(workload: string, hash: Digest, job: Option<string>, life: Life, size: Option<nat>)

  type Records = map<string, Artifact>
  type ByHash = map<Digest, set<string>>

  function MakeArtifactId(workload: string, hash: Digest): string {
    workload + ":" + hash
  }

  // The separator that was put in is the last one there is.
  lemma LastSeparator(workload: string, hash: Digest)
    ensures var id := MakeArtifactId(workload, hash);
      |id| > |workload| && id[|workload|] == ':' && forall i :: |workload| < i < |id| ==> id[i] != ':'
  {
    var id := MakeArtifactId(workload, hash);
    forall i | |workload| < i < |id| ensures id[i] != ':' {
      assert id[i] == hash[i - |workload| - 1];
    }
  }

  // Two outputs share an identifier only if they are the same pair, separators in workload ids included.
  lemma ArtifactIdInjective(w1: string, h1: Digest, w2: string, h2: Digest)
    requires MakeArtifactId(w1, h1) == MakeArtifactId(w2, h2)
    ensures w1 == w2 && h1 == h2
  {
    var a, b := MakeArtifactId(w1, h1), MakeArtifactId(w2, h2);
    LastSeparator(w1, h1);
    LastSeparator(w2, h2);
    assert |w1| == |w2|;
    assert a[..|w1|] == w1 && b[..|w2|] == w2;
    assert a[|w1| + 1..] == h1 && b[|w2| + 1..] == h2;
  }

  ghost predicate Keyed(m: Records) {
    forall id :: id in m ==> id == MakeArtifactId(m[id].workload, m[id].hash)
  }

  predicate Has(m: Records, h: Digest, id: string) {
    id in m && m[id].hash == h
  }

  predicate Points(ix: ByHash, h: Digest, id: string) {
    h in ix && id in ix[h]
  }

  // The by-hash index lists exactly the records of each hash and has no empty entry.
  ghost predicate Indexed(ix: ByHash, m: Records) {
    && (forall h: Digest :: h in ix ==> ix[h] != {})
    && (forall h: Digest, id :: Points(ix, h, id) <==> Has(m, h, id))
  }

  function Entry(ix: ByHash, h: Digest): set<string> {
    if h in ix then ix[h] else {}
  }

  function Unlisted(ix: ByHash, h: Digest, id: string): ByHash {
    if h !in ix then ix
    else if ix[h] - {id} == {} then ix - {h}
    else ix[h := ix[h] - {id}]
  }

  lemma IndexAdd(ix: ByHash, m: Records, id: string, a: Artifact)
    requires Indexed(ix, m) && (id in m ==> m[id].hash == a.hash)
    ensures Indexed(ix[a.hash := Entry(ix, a.hash) + {id}], m[id := a])
  {
    var ix2, m2 := ix[a.hash := Entry(ix, a.hash) + {id}], m[id := a];
    forall h: Digest, k ensures Points(ix2, h, k) <==> Has(m2, h, k) {
      assert Points(ix, h, k) <==> Has(m, h, k);
    }
  }

  lemma IndexRemove(ix: ByHash, m: Records, id: string)
    requires Indexed(ix, m) && id in m
    ensures Indexed(Unlisted(ix, m[id].hash, id), m - {id})
  {
    var h0 := m[id].hash;
    forall h: Digest, k ensures Points(Unlisted(ix, h0, id), h, k) <==> Has(m - {id}, h, k) {
      assert Points(ix, h, k) <==> Has(m, h, k);
      assert Points(ix, h0, k) && k != id ==> k in ix[h0] - {id};
    }
  }

  // Changing life stages moves no hash.
  lemma IndexRestage(ix: ByHash, m: Records, n: Records)
    requires Indexed(ix, m) && n.Keys == m.Keys && forall id :: id in m ==> n[id].hash == m[id].hash
    ensures Indexed(ix, n)
  {
    forall h: Digest, k ensures Points(ix, h, k) <==> Has(n, h, k) {
      assert Points(ix, h, k) <==> Has(m, h, k);
    }
  }

  function Recorded(m: Records, workload: string, job: Option<string>, hashes: seq<Digest>, sizes: map<Digest, nat>): Records {
    if hashes == [] then m else
      var before := Recorded(m, workload, job, hashes[..|hashes| - 1], sizes);
      var h := hashes[|hashes| - 1];
      var id := MakeArtifactId(workload, h);
      if id in before then before
      else before[id := Artifact(workload, h, job, Available, if h in sizes then Some(sizes[h]) else None)]
  }

  function Restaged(m: Records, ids: set<string>, to: Life): Records {
    map id | id in m :: if id in ids then m[id].(life := to) else m[id]
  }

  lemma RestageOne(m: Records, ids: set<string>, id: string, to: Life)
    requires id in m && id !in ids
    ensures Restaged(m, ids + {id}, to) == Restaged(m, ids, to)[id := m[id].(life := to)]
  {
  }

  lemma MarkStep(m: Records, marked: set<string>, id: string)
    ensures var now := Restaged(m, marked, GcEligible);
      if id in InStage(m, Available) && id !in marked
      then id in InStage(now, Available) && now[id := now[id].(life := GcEligible)] == Restaged(m, marked + {id}, GcEligible)
      else id !in InStage(now, Available)
  {
    if id in InStage(m, Available) && id !in marked {
      RestageOne(m, marked, id, GcEligible);
    }
  }

  function InStage(m: Records, life: Life): set<string> {
    set id | id in m && m[id].life == life
  }

  // Some job still needs the artifact; one recorded outside any job is always kept.
  predicate Referenced(a: Artifact, protectedJobs: set<string>) {
    a.job.None? || a.job.value in protectedJobs
  }

  function Unreferenced(m: Records, protectedJobs: set<string>): set<string> {
    set id | id in m && m[id].life == Available && !Referenced(m[id], protectedJobs)
  }

  // The store lacks at most the named records of memory.
  ghost predicate Unwritten(m: Records, store: Records, ids: seq<string>) {
    && store.Keys <= m.Keys && (forall id :: id in ids ==> id in m)
    && forall id :: id in m ==> id in ids || (id in store && store[id] == m[id])
  }

  class ArtifactRegistry {
    var artifacts: Records
    var byHash: ByHash
    var store: Records

    // Index and store agree with memory, and every record sits under its own identifier.
    ghost predicate Valid()
      reads this
    {
      Keyed(artifacts) && Indexed(byHash, artifacts) && store == artifacts
    }

    constructor ()
      ensures Valid() && artifacts == map[]
    {
      artifacts, byHash, store := map[], map[], map[];
    }

    // Restores every persisted row, in whatever order the store yields them.
    constructor FromStore(rows: Records)
      requires Keyed(rows)
      ensures Valid() && artifacts == rows
    {
      artifacts, byHash, store := map[], map[], rows;
      new;
      var todo := rows.Keys;
      while todo != {}
        invariant todo <= rows.Keys && artifacts == (map id | id in rows && id !in todo :: rows[id])
        invariant Indexed(byHash, artifacts) && store == rows
        decreases |todo|
      {
        var id :| id in todo;
        IndexAdd(byHash, artifacts, id, rows[id]);
        RestoreArtifact(id, rows[id]);
        todo := todo - {id};
      }
      assert artifacts == rows;
    }

    method RestoreArtifact(id: string, a: Artifact)
      modifies this`artifacts, this`byHash
      ensures artifacts == old(artifacts)[id := a]
      ensures byHash == old(byHash)[a.hash := Entry(old(byHash), a.hash) + {id}]
    {
      artifacts := artifacts[id := a];
      byHash := byHash[a.hash := Entry(byHash, a.hash) + {id}];
    }

    // Records the outputs in memory, then writes the new rows through; a pair already known is left alone.
    method RecordArtifacts(workload: string, job: Option<string>, hashes: seq<Digest>, sizes: map<Digest, nat>)
      requires Valid()
      modifies this
      ensures Valid() && artifacts == Recorded(old(artifacts), workload, job, hashes, sizes)
    {
      var created: seq<string> := [];
      var i := 0;
      while i < |hashes|
        invariant 0 <= i <= |hashes| && Keyed(artifacts) && Indexed(byHash, artifacts)
        invariant artifacts == Recorded(old(artifacts), workload, job, hashes[..i], sizes)
        invariant Unwritten(artifacts, store, created)
      {
        assert hashes[..i + 1][..i] == hashes[..i];
        var id := MakeArtifactId(workload, hashes[i]);
        if id !in artifacts {
          RecordNew(id, Artifact(workload, hashes[i], job, Available, if hashes[i] in sizes then Some(sizes[hashes[i]]) else None), created);
          created := created + [id];
        }
        i := i + 1;
      }
      assert hashes[..i] == hashes;
      PersistAll(created);
    }

    method RecordNew(id: string, a: Artifact, ghost created: seq<string>)
      requires Keyed(artifacts) && Indexed(byHash, artifacts) && Unwritten(artifacts, store, created)
      requires id !in artifacts && id == MakeArtifactId(a.workload, a.hash)
      modifies this`artifacts, this`byHash
      ensures Keyed(artifacts) && Indexed(byHash, artifacts) && Unwritten(artifacts, store, created + [id])
      ensures artifacts == old(artifacts)[id := a]
    {
      IndexAdd(byHash, artifacts, id, a);
      RestoreArtifact(id, a);
    }

    // Writes the named records through.
    method PersistAll(ids: seq<string>)
      requires Unwritten(artifacts, store, ids)
      modifies this`store
      ensures store == artifacts
    {
      var i := 0;
      while i < |ids|
        invariant 0 <= i <= |ids| && store.Keys <= artifacts.Keys
        invariant forall id :: id in artifacts ==> id in ids[i..] || (id in store && store[id] == artifacts[id])
      {
        store := store[ids[i] := artifacts[ids[i]]];
        i := i + 1;
      }
    }

    method ListInStage(life: Life) returns (ids: seq<string>)
      ensures forall id :: id in ids <==> id in InStage(artifacts, life)
    {
      ids := [];
      var todo := artifacts.Keys;
      while todo != {}
        invariant todo <= artifacts.Keys
        invariant forall id :: id in ids <==> id in InStage(artifacts, life) && id !in todo
        decreases |todo|
      {
        var id :| id in todo;
        if artifacts[id].life == life { ids := ids + [id]; }
        todo := todo - {id};
      }
    }

    method ComputeGcEligible(protectedJobs: set<string>) returns (ids: seq<string>)
      ensures forall id :: id in ids <==> id in Unreferenced(artifacts, protectedJobs)
    {
      ids := [];
      var todo := artifacts.Keys;
      while todo != {}
        invariant todo <= artifacts.Keys
        invariant forall id :: id in ids <==> id in Unreferenced(artifacts, protectedJobs) && id !in todo
        decreases |todo|
      {
        var id :| id in todo;
        var a := artifacts[id];
        if a.life == Available && a.job.Some? && a.job.value !in protectedJobs { ids := ids + [id]; }
        todo := todo - {id};
      }
    }

    // Moves the available ones among the named records and lists them for the write that follows.
    method MarkInMemory(ids: seq<string>) returns (changed: seq<string>, count: nat)
      modifies this`artifacts
      ensures var marked := InStage(old(artifacts), Available) * Elements(ids);
        artifacts == Restaged(old(artifacts), marked, GcEligible) && count == |marked| && Elements(changed) == marked
    {
      changed, count := [], 0;
      ghost var was := artifacts;
      ghost var all := InStage(was, Available);
      ghost var marked: set<string> := {};
      assert artifacts == Restaged(was, marked, GcEligible);
      var i := 0;
      while i < |ids|
        invariant 0 <= i <= |ids| && count == |marked| && Elements(changed) == marked
        invariant marked == all * Elements(ids[..i]) && artifacts == Restaged(was, marked, GcEligible)
      {
        var id := ids[i];
        HitStep(all, ids, i);
        MarkStep(was, marked, id);
        if id in artifacts && artifacts[id].life == Available {
          artifacts := artifacts[id := artifacts[id].(life := GcEligible)];
          ElementsAdd(changed, id);
          count, marked, changed := count + 1, marked + {id}, changed + [id];
        }
        i := i + 1;
      }
      assert ids[..i] == ids;
    }

    method MarkGcEligible(ids: seq<string>) returns (count: nat)
      requires Valid()
      modifies this
      ensures Valid()
      ensures var marked := InStage(old(artifacts), Available) * Elements(ids);
        artifacts == Restaged(old(artifacts), marked, GcEligible) && count == |marked|
    {
      ghost var was := artifacts;
      var changed;
      changed, count := MarkInMemory(ids);
      IndexRestage(byHash, was, artifacts);
      assert forall id :: id in changed <==> id in Elements(changed);
      PersistAll(changed);
    }

    method MarkDeleted(id: string) returns (ok: bool)
      requires Valid()
      modifies this
      ensures Valid() && (ok <==> id in InStage(old(artifacts), GcEligible))
      ensures artifacts == Restaged(old(artifacts), if ok then {id} else {}, Deleted)
    {
      ghost var was := artifacts;
      ok := id in artifacts && artifacts[id].life == GcEligible;
      if ok {
        artifacts := artifacts[id := artifacts[id].(life := Deleted)];
        store := store[id := artifacts[id]];
      }
      assert artifacts == Restaged(was, if ok then {id} else {}, Deleted);
      IndexRestage(byHash, was, artifacts);
    }

    // Deletes the stored row first, then the record in memory and its index entry.
    method PurgeOne(id: string) returns (ok: bool)
      requires Valid()
      modifies this
      ensures Valid() && (ok <==> id in InStage(old(artifacts), Deleted))
      ensures artifacts == old(artifacts) - if ok then {id} else {}
    {
      ok := id in artifacts && artifacts[id].life == Deleted;
      if ok {
        store := store - {id};
        IndexRemove(byHash, artifacts, id);
        byHash := Unlisted(byHash, artifacts[id].hash, id);
        artifacts := artifacts - {id};
      }
    }

    method PurgeDeleted(ids: seq<string>) returns (count: nat)
      requires Valid()
      modifies this
      ensures Valid()
      ensures var purged := InStage(old(artifacts), Deleted) * Elements(ids);
        artifacts == old(artifacts) - purged && count == |purged|
    {
      count := 0;
      ghost var was := artifacts;
      ghost var all := InStage(was, Deleted);
      ghost var gone: set<string> := {};
      assert was - gone == was;
      var i := 0;
      while i < |ids|
        invariant 0 <= i <= |ids| && Valid() && count == |gone|
        invariant gone == all * Elements(ids[..i]) && Left(was, gone, artifacts)
      {
        HitStep(all, ids, i);
        LeftStep(was, gone, ids[i]);
        var ok := PurgeOne(ids[i]);
        if ok { count, gone := count + 1, gone + {ids[i]}; }
        i := i + 1;
      }
      assert ids[..i] == ids;
    }
  }

  predicate Left(was: Records, gone: set<string>, now: Records) {
    now == was - gone
  }

  lemma LeftStep(was: Records, gone: set<string>, id: string)
    ensures id in InStage(was - gone, Deleted) <==> id in InStage(was, Deleted) && id !in gone
    ensures Left(was, gone + {id}, was - gone - {id})
    ensures was - gone - {} == was - gone
  {
  }

  lemma ElementsAdd(ids: seq<string>, id: string)
    ensures Elements(ids + [id]) == Elements(ids) + {id}
  {
  }

  lemma HitStep(all: set<string>, ids: seq<string>, i: nat)
    requires i < |ids|
    ensures var hits := all * Elements(ids[..i]);
      all * Elements(ids[..i + 1]) == if ids[i] in all && ids[i] !in hits then hits + {ids[i]} else hits
  {
    assert ids[..i + 1] == ids[..i] + [ids[i]];
  }
}
