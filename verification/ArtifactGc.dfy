/** The coordinator's collection tick over the artifact registry, and what whole runs of ticks do. */
module ArtifactGc {
  import opened Wrappers
  import opened Jobs
  import opened Artifacts
  import opened Ordering

  // A job shields its artifacts until it is over and its retention window, if there is one, has passed.
  predicate Shields(job: Job, ws: Workloads, now: real, retention: real) {
    !IsTerminal(Summary(job, ws).state) || (retention > 0.0 && now - job.createdAt < retention)
  }

  function ProtectedJobs(jobs: map<string, Job>, ws: Workloads, now: real, retention: real): set<string> {
    set j | j in jobs && Shields(jobs[j], ws, now, retention)
  }

  function Ticked(m: Records, protectedJobs: set<string>): Records {
    map id | id in m && m[id].life != Deleted ::
      if m[id].life == GcEligible then m[id].(life := Deleted)
      else if m[id].life == Available && !Referenced(m[id], protectedJobs) then m[id].(life := GcEligible)
      else m[id]
  }

  datatype World = World(records: Records, jobs: map<string, Job>, workloads: Workloads)

  datatype Event =
    | Output(workload: string, producer: Option<string>, hashes: seq<Digest>, sizes: map<Digest, nat>)
    | Tick(now: real)
    | Progress(workloads: Workloads)
    | Submit(id: string, job: Job)

  // One event of the coordinator's life; creating a job that exists changes nothing.
  function Apply(retention: real, w: World, e: Event): World {
    match e
    case Output(workload, job, hashes, sizes) => w.(records := Recorded(w.records, workload, job, hashes, sizes))
    case Tick(now) => w.(records := Ticked(w.records, ProtectedJobs(w.jobs, w.workloads, now, retention)))
    case Progress(ws) => w.(workloads := ws)
    case Submit(id, job) => if id in w.jobs then w else w.(jobs := w.jobs[id := job])
  }

  function Run(retention: real, w: World, es: seq<Event>): World
    decreases |es|
  {
    if es == [] then w else Run(retention, Apply(retention, w, es[0]), es[1..])
  }

  class Collector {
    const registry: ArtifactRegistry
    const retention: real
    var jobs: map<string, Job>
    var workloads: Workloads

    ghost predicate Valid()
      reads this, registry
    {
      registry.Valid()
    }

    function Now(): World
      reads this, registry
    {
      World(registry.artifacts, jobs, workloads)
    }

    constructor (registry: ArtifactRegistry, retention: real, jobs: map<string, Job>, workloads: Workloads)
      ensures this.registry == registry && this.retention == retention && this.jobs == jobs && this.workloads == workloads
    {
      this.registry, this.retention, this.jobs, this.workloads := registry, retention, jobs, workloads;
    }

    method CollectProtected(now: real) returns (r: set<string>)
      ensures r == ProtectedJobs(jobs, workloads, now, retention)
    {
      r := {};
      var todo := jobs.Keys;
      while todo != {}
        invariant todo <= jobs.Keys && r == ProtectedJobs(jobs, workloads, now, retention) - todo
        decreases |todo|
      {
        var j :| j in todo;
        var aggregate := GetAggregate(jobs, workloads, j);
        if aggregate.Some? {
          if !IsTerminal(aggregate.value.state) || (retention > 0.0 && now - jobs[j].createdAt < retention) {
            r := r + {j};
          }
        }
        todo := todo - {j};
      }
    }

    // Purges what is deleted, deletes what was marked, then marks what no job shields any more.
    method CollectOnce(now: real)
      requires Valid()
      modifies registry
      ensures Valid() && Now() == Apply(retention, old(Now()), Tick(now))
    {
      ghost var m := registry.artifacts;
      var dead := registry.ListInStage(Deleted);
      var _ := registry.PurgeDeleted(dead);
      assert InStage(m, Deleted) * Elements(dead) == InStage(m, Deleted);
      DeleteMarked();
      ghost var m2 := registry.artifacts;
      var shielded := CollectProtected(now);
      var free := registry.ComputeGcEligible(shielded);
      var _ := registry.MarkGcEligible(free);
      assert InStage(m2, Available) * Elements(free) == Unreferenced(m2, shielded);
      StagesCompose(m, shielded);
    }

    method DeleteMarked()
      requires Valid()
      modifies registry
      ensures Valid() && registry.artifacts == Restaged(old(registry.artifacts), InStage(old(registry.artifacts), GcEligible), Deleted)
    {
      ghost var m := registry.artifacts;
      ghost var done: set<string> := {};
      var marked := registry.ListInStage(GcEligible);
      assert m == Restaged(m, done, Deleted);
      var i := 0;
      while i < |marked|
        invariant 0 <= i <= |marked| && Valid() && done == Elements(marked[..i])
        invariant done <= InStage(m, GcEligible) && registry.artifacts == Restaged(m, done, Deleted)
      {
        HitStep(InStage(m, GcEligible), marked, i);
        var ok := registry.MarkDeleted(marked[i]);
        RestageTwice(m, done, marked[i]);
        done := done + {marked[i]};
        ElementsAdd(marked[..i], marked[i]);
        assert marked[..i] + [marked[i]] == marked[..i + 1];
        i := i + 1;
      }
      assert marked[..i] == marked;
      assert done == InStage(m, GcEligible);
    }

    method ApplyEvent(e: Event)
      requires Valid()
      modifies this`jobs, this`workloads, registry
      ensures Valid() && Now() == Apply(retention, old(Now()), e)
    {
      match e {
        case Output(workload, job, hashes, sizes) => registry.RecordArtifacts(workload, job, hashes, sizes);
        case Tick(now) => CollectOnce(now);
        case Progress(ws) => workloads := ws;
        case Submit(id, job) => if id !in jobs { jobs := jobs[id := job]; }
      }
    }

    method RunHistory(es: seq<Event>)
      requires Valid()
      modifies this`jobs, this`workloads, registry
      ensures Valid() && Now() == Run(retention, old(Now()), es)
      decreases |es|
    {
      if es != [] {
        ApplyEvent(es[0]);
        RunHistory(es[1..]);
      }
    }
  }

  lemma RestageTwice(m: Records, done: set<string>, id: string)
    requires id in InStage(m, GcEligible)
    ensures var now := Restaged(m, done, Deleted);
      Restaged(now, if id in InStage(now, GcEligible) then {id} else {}, Deleted) == Restaged(m, done + {id}, Deleted)
  {
  }

  // The three phases of a tick touch disjoint stages, so together they move every record once.
  lemma StagesCompose(m: Records, shielded: set<string>)
    ensures var m1 := m - InStage(m, Deleted);
      var m2 := Restaged(m1, InStage(m1, GcEligible), Deleted);
      Restaged(m2, Unreferenced(m2, shielded), GcEligible) == Ticked(m, shielded)
  {
  }

  // How far a record is through its life; 4 stands for gone.
  function Stage(m: Records, id: string): nat {
    if id !in m then 4 else
      match m[id].life
      case Created => 0
      case Available => 1
      case GcEligible => 2
      case Deleted => 3
  }

  function Ticks(es: seq<Event>): nat {
    if es == [] then 0 else (if es[0].Tick? then 1 else 0) + Ticks(es[1..])
  }

  lemma {:induction false} RecordedKeeps(m: Records, workload: string, job: Option<string>, hashes: seq<Digest>, sizes: map<Digest, nat>, id: string)
    requires id in m
    ensures id in Recorded(m, workload, job, hashes, sizes) && Recorded(m, workload, job, hashes, sizes)[id] == m[id]
  {
    if hashes != [] {
      RecordedKeeps(m, workload, job, hashes[..|hashes| - 1], sizes, id);
    }
  }

  predicate Names(workload: string, hashes: seq<Digest>, h: Digest, id: string) {
    h in hashes && id == workload + ":" + h
  }

  // What is recorded is what was there and the pairs named, and a new record is available, of its job,
  // with the size that was reported for it.
  lemma {:induction false} RecordedExactly(m: Records, workload: string, job: Option<string>, hashes: seq<Digest>, sizes: map<Digest, nat>, id: string)
    ensures id in Recorded(m, workload, job, hashes, sizes) <==> id in m || exists h :: Names(workload, hashes, h, id)
    ensures id in Recorded(m, workload, job, hashes, sizes) && id !in m ==>
      exists h :: Names(workload, hashes, h, id)
        && Recorded(m, workload, job, hashes, sizes)[id] == Artifact(workload, h, job, Available, if h in sizes then Some(sizes[h]) else None)
  {
    if hashes != [] {
      var before, last := hashes[..|hashes| - 1], hashes[|hashes| - 1];
      RecordedExactly(m, workload, job, before, sizes, id);
      assert forall h :: Names(workload, hashes, h, id) <==> Names(workload, before, h, id) || (h == last && id == workload + ":" + h);
    }
  }

  // Recording leaves one record for exactly each pair, under the identifier of that pair alone.
  lemma {:induction false} RecordedCovers(m: Records, workload: string, job: Option<string>, hashes: seq<Digest>, sizes: map<Digest, nat>)
    requires Keyed(m)
    ensures Keyed(Recorded(m, workload, job, hashes, sizes))
    ensures forall h: Digest :: h in hashes ==> var r := Recorded(m, workload, job, hashes, sizes);
      var id := MakeArtifactId(workload, h); id in r && r[id].workload == workload && r[id].hash == h
  {
    if hashes != [] {
      RecordedCovers(m, workload, job, hashes[..|hashes| - 1], sizes);
      var r := Recorded(m, workload, job, hashes, sizes);
      forall h: Digest | h in hashes
        ensures var id := MakeArtifactId(workload, h); id in r && r[id].workload == workload && r[id].hash == h
      {
        var id := MakeArtifactId(workload, h);
        assert h == hashes[|hashes| - 1] || h in hashes[..|hashes| - 1];
        ArtifactIdInjective(r[id].workload, r[id].hash, workload, h);
      }
    }
  }

  // A tick changes nothing about a record but its stage, and makes no record.
  lemma TickMovesStagesAlone(retention: real, w: World, now: real, id: string)
    requires id in Apply(retention, w, Tick(now)).records
    ensures id in w.records
    ensures var after := Apply(retention, w, Tick(now)).records[id]; after == w.records[id].(life := after.life)
  {
  }

  // A member workload that is still under way, or that the registry does not know.
  predicate Unfinished(ws: Workloads, member: string) {
    member in ws ==> ws[member].state !in {WorkloadState.Completed, WorkloadState.Failed, WorkloadState.Unschedulable, WorkloadState.Cancelled}
  }

  // Whether the job of an artifact still needs it: it is registered, and has no members, an
  // unfinished member, or time left in its retention window.
  predicate Needs(w: World, job: string, now: real, retention: real) {
    && job in w.jobs
    && (|| w.jobs[job].members == {} || (exists m :: m in w.jobs[job].members && Unfinished(w.workloads, m))
        || (retention > 0.0 && now < w.jobs[job].createdAt + retention))
  }

  // A tick marks an available artifact exactly when it belongs to a job that no longer needs it.
  lemma TickKeepsIff(retention: real, w: World, now: real, id: string)
    requires id in w.records && w.records[id].life == Available
    ensures var next := Apply(retention, w, Tick(now)).records;
      id in next && next[id] ==
        if w.records[id].job.None? || Needs(w, w.records[id].job.value, now, retention) then w.records[id]
        else w.records[id].(life := GcEligible)
  {
    if w.records[id].job.Some? && w.records[id].job.value in w.jobs {
      TerminalIff(w.jobs[w.records[id].job.value], w.workloads);
      assert forall m :: Unfinished(w.workloads, m) <==> !Done(w.workloads, m);
    }
  }

  // One event moves a record at most one stage, only a tick moves it, and out of AVAILABLE only
  // when no job references it.
  lemma EventStep(retention: real, w: World, e: Event, id: string)
    requires id in w.records
    ensures var next := Apply(retention, w, e).records;
      if !e.Tick? then id in next && next[id] == w.records[id]
      else if Stage(w.records, id) == 0 then Stage(next, id) == 0
      else if Stage(w.records, id) == 1 && Referenced(w.records[id], ProtectedJobs(w.jobs, w.workloads, e.now, retention))
      then id in next && next[id] == w.records[id]
      else Stage(next, id) == Stage(w.records, id) + 1
  {
    if e.Output? {
      RecordedKeeps(w.records, e.workload, e.producer, e.hashes, e.sizes, id);
    }
  }

  // No record is collected early: over n ticks it moves at most n stages and never back.
  lemma {:induction false} NeverReapedEarly(retention: real, w: World, es: seq<Event>, id: string)
    requires id in w.records && Stage(w.records, id) + Ticks(es) <= 3
    ensures var after := Run(retention, w, es).records;
      id in after && Stage(w.records, id) <= Stage(after, id) <= Stage(w.records, id) + Ticks(es)
    decreases |es|
  {
    if es != [] {
      EventStep(retention, w, es[0], id);
      NeverReapedEarly(retention, Apply(retention, w, es[0]), es[1..], id);
    }
  }

  // The job of `a` shields it at every tick of the run.
  predicate AlwaysShielded(retention: real, w: World, es: seq<Event>, a: Artifact)
    decreases |es|
  {
    es == [] || ((es[0].Tick? ==> Referenced(a, ProtectedJobs(w.jobs, w.workloads, es[0].now, retention)))
                 && AlwaysShielded(retention, Apply(retention, w, es[0]), es[1..], a))
  }

  lemma {:induction false} ShieldedStays(retention: real, w: World, es: seq<Event>, id: string)
    requires id in w.records && w.records[id].life == Available && AlwaysShielded(retention, w, es, w.records[id])
    ensures var after := Run(retention, w, es).records; id in after && after[id] == w.records[id]
    decreases |es|
  {
    if es != [] {
      EventStep(retention, w, es[0], id);
      ShieldedStays(retention, Apply(retention, w, es[0]), es[1..], id);
    }
  }

  // Once marked, a record goes through on schedule whatever happens between the ticks: neither a job
  // that becomes live again nor a new recording of the same pair brings it back.
  lemma {:induction false} MarkedIsGoneOnSchedule(retention: real, w: World, es: seq<Event>, now: real, id: string)
    requires 2 <= Stage(w.records, id) <= 3 && Stage(w.records, id) + Ticks(es) == 3
    ensures Stage(Run(retention, w, es).records, id) == 3
    ensures id !in Apply(retention, Run(retention, w, es), Tick(now)).records
    decreases |es|
  {
    if es != [] {
      EventStep(retention, w, es[0], id);
      MarkedIsGoneOnSchedule(retention, Apply(retention, w, es[0]), es[1..], now, id);
    }
  }

  // An available record found unreferenced at a tick is gone two ticks later.
  lemma UnreferencedIsGone(retention: real, w: World, first: real, es: seq<Event>, last: real, id: string)
    requires id in w.records && w.records[id].life == Available && Ticks(es) == 1
    requires !Referenced(w.records[id], ProtectedJobs(w.jobs, w.workloads, first, retention))
    ensures id !in Apply(retention, Run(retention, Apply(retention, w, Tick(first)), es), Tick(last)).records
  {
    EventStep(retention, w, Tick(first), id);
    MarkedIsGoneOnSchedule(retention, Apply(retention, w, Tick(first)), es, last, id);
  }

  // A job the registry does not hold shields nothing, however new the artifact is.
  lemma UnknownJobShieldsNothing(retention: real, w: World, now: real, id: string)
    requires id in w.records && w.records[id].life == Available && w.records[id].job.Some? && w.records[id].job.value !in w.jobs
    ensures Stage(Apply(retention, w, Tick(now)).records, id) == 2
  {
    EventStep(retention, w, Tick(now), id);
  }
}
