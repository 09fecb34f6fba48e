/** Jobs: durable membership and policy; the state is always derived from the member workloads. */
module Jobs {
  import opened Wrappers

  datatype WorkloadState =
    | Submitted | Validating | Placing | Placed | SyncingAssets | Ready | Executing | Migrating | Ingesting
    | Completed | Failed | Timeout | Unschedulable | CancellationRequested | Cancelled

  // The states a recovered workload is not driven again from.
  predicate Terminal(s: WorkloadState) {
    s.Completed? || s.Failed? || s.Unschedulable? || s.Cancelled?
  }

  datatype Policy = AllRequired | AnySuccess | Threshold | BestEffort

  datatype Job = Job(members: set<string>, policy: Policy, threshold: Option<int>, createdAt: real)

  // What a job reads of a member workload.
  datatype Progress = Progress(state: WorkloadState, outputs: set<string>)

  type Workloads = map<string, Progress>

  datatype JobState = JobSubmitted | JobRunning | JobPartiallyCompleted | JobCompleted | JobFailed

  datatype Bucket = InCompleted | InFailed | InRunning | InPending

  datatype Aggregate = Aggregate(total: nat, completed: nat, failed: nat, pending: nat, running: nat,
                                 state: JobState, outputs: set<string>)

  predicate IsTerminal(s: JobState) {
    s.JobCompleted? || s.JobFailed? || s.JobPartiallyCompleted?
  }

  // A member the registry does not know, or in a state of no named bucket, counts as pending.
  function BucketOf(ws: Workloads, w: string): Bucket {
    if w !in ws then InPending else
      match ws[w].state
      case Completed => InCompleted
      case Failed => InFailed
      case Unschedulable => InFailed
      case Cancelled => InFailed
      case Placed => InRunning
      case Migrating => InRunning
      case Executing => InRunning
      case SyncingAssets => InRunning
      case Ingesting => InRunning
      case CancellationRequested => InRunning
      case _ => InPending
  }

  function In(members: set<string>, ws: Workloads, b: Bucket): set<string> {
    set w | w in members && BucketOf(ws, w) == b
  }

  function Outputs(members: set<string>, ws: Workloads): set<string> {
    set w, h | w in members && w in ws && ws[w].state == Completed && h in ws[w].outputs :: h
  }

  function DeriveState(job: Job, total: nat, completed: nat, failed: nat, pending: nat, running: nat): JobState {
    if total == 0 then JobSubmitted
    else if pending + running > 0 then
      if completed == 0 && failed == 0 && running == 0 then JobSubmitted else JobRunning
    else
      match job.policy
      case AllRequired => if failed == 0 then JobCompleted else JobFailed
      case AnySuccess => if completed > 0 then JobCompleted else JobFailed
      case Threshold => if completed >= (if job.threshold.Some? then job.threshold.value else 0) then JobCompleted else JobFailed
      case BestEffort =>
        if completed == total then JobCompleted else if completed > 0 then JobPartiallyCompleted else JobFailed
  }

  function Summary(job: Job, ws: Workloads): Aggregate {
    var c, f := |In(job.members, ws, InCompleted)|, |In(job.members, ws, InFailed)|;
    var p, r := |In(job.members, ws, InPending)|, |In(job.members, ws, InRunning)|;
    Aggregate(|job.members|, c, f, p, r, DeriveState(job, |job.members|, c, f, p, r), Outputs(job.members, ws))
  }

  lemma InStep(seen: set<string>, ws: Workloads, w: string, b: Bucket)
    requires w !in seen
    ensures |In(seen + {w}, ws, b)| == |In(seen, ws, b)| + if BucketOf(ws, w) == b then 1 else 0
  {
    assert In(seen + {w}, ws, b) == if BucketOf(ws, w) == b then In(seen, ws, b) + {w} else In(seen, ws, b);
  }

  datatype Tally = Tally(total: nat, completed: nat, failed: nat, pending: nat, running: nat, outputs: set<string>)

  function TallyOf(members: set<string>, ws: Workloads): Tally {
    Tally(|members|, |In(members, ws, InCompleted)|, |In(members, ws, InFailed)|,
          |In(members, ws, InPending)|, |In(members, ws, InRunning)|, Outputs(members, ws))
  }

  function Bump(t: Tally, ws: Workloads, w: string): Tally {
    var u := t.(total := t.total + 1);
    match BucketOf(ws, w)
    case InCompleted => u.(completed := t.completed + 1, outputs := t.outputs + ws[w].outputs)
    case InFailed => u.(failed := t.failed + 1)
    case InRunning => u.(running := t.running + 1)
    case InPending => u.(pending := t.pending + 1)
  }

  lemma OutputsStep(seen: set<string>, ws: Workloads, w: string)
    ensures Outputs(seen + {w}, ws) == Outputs(seen, ws) + if BucketOf(ws, w) == InCompleted then ws[w].outputs else {}
  {
  }

  lemma TallyStep(seen: set<string>, ws: Workloads, w: string)
    requires w !in seen
    ensures TallyOf(seen + {w}, ws) == Bump(TallyOf(seen, ws), ws, w)
  {
    InStep(seen, ws, w, InCompleted);
    InStep(seen, ws, w, InFailed);
    InStep(seen, ws, w, InPending);
    InStep(seen, ws, w, InRunning);
    OutputsStep(seen, ws, w);
  }

  // Counts the members one by one, in whatever order the set yields them.
  method CountMembers(members: set<string>, ws: Workloads) returns (t: Tally)
    ensures t == TallyOf(members, ws)
  {
    t := Tally(0, 0, 0, 0, 0, {});
    var todo, seen: set<string> := members, {};
    assert t == TallyOf({}, ws);
    while todo != {}
      invariant todo !! seen && todo + seen == members && t == TallyOf(seen, ws)
      decreases |todo|
    {
      var w :| w in todo;
      TallyStep(seen, ws, w);
      t := Bump(t, ws, w);
      todo, seen := todo - {w}, seen + {w};
    }
    assert seen == members;
  }

  method GetAggregate(jobs: map<string, Job>, ws: Workloads, id: string) returns (r: Option<Aggregate>)
    ensures r == if id in jobs then Some(Summary(jobs[id], ws)) else None
  {
    if id !in jobs {
      return None;
    }
    var job := jobs[id];
    var t := CountMembers(job.members, ws);
    r := Some(Aggregate(t.total, t.completed, t.failed, t.pending, t.running,
                        DeriveState(job, t.total, t.completed, t.failed, t.pending, t.running), t.outputs));
  }

  lemma EmptyBucket(members: set<string>, ws: Workloads, b: Bucket)
    ensures |In(members, ws, b)| == 0 <==> forall w :: w in members ==> BucketOf(ws, w) != b
  {
    if |In(members, ws, b)| == 0 {
      forall w | w in members ensures BucketOf(ws, w) != b {
        assert w !in In(members, ws, b);
      }
    }
    if forall w :: w in members ==> BucketOf(ws, w) != b {
      assert In(members, ws, b) == {};
    }
  }

  predicate Done(ws: Workloads, w: string) {
    w in ws && Terminal(ws[w].state)
  }

  predicate Succeeded(ws: Workloads, w: string) {
    w in ws && ws[w].state == Completed
  }

  // Under every policy a job is over exactly when it has members and each is known and over.
  lemma TerminalIff(job: Job, ws: Workloads)
    ensures IsTerminal(Summary(job, ws).state) <==> job.members != {} && forall w :: w in job.members ==> Done(ws, w)
  {
    EmptyBucket(job.members, ws, InPending);
    EmptyBucket(job.members, ws, InRunning);
    assert forall w :: Done(ws, w) <==> BucketOf(ws, w) != InPending && BucketOf(ws, w) != InRunning;
    assert |job.members| == 0 <==> job.members == {};
  }

  // A member nothing has been done for yet, as far as the registry knows.
  predicate NotBegun(ws: Workloads, w: string) {
    w in ws ==> ws[w].state in {Submitted, Validating, Placing, Ready, Timeout}
  }

  // A job that is not over is running, unless work has begun on none of its members.
  lemma SubmittedIff(job: Job, ws: Workloads)
    ensures Summary(job, ws).state == JobSubmitted <==> forall w :: w in job.members ==> NotBegun(ws, w)
    ensures Summary(job, ws).state == JobRunning <==>
      (exists w :: w in job.members && !NotBegun(ws, w)) && (exists w :: w in job.members && !Done(ws, w))
  {
    EmptyBucket(job.members, ws, InCompleted);
    EmptyBucket(job.members, ws, InFailed);
    EmptyBucket(job.members, ws, InRunning);
    TerminalIff(job, ws);
    assert forall w :: NotBegun(ws, w) <==> BucketOf(ws, w) == InPending;
    AllIn(job.members, ws, InPending);
    assert |job.members| == 0 <==> job.members == {};
  }

  lemma BucketsPartition(members: set<string>, ws: Workloads)
    ensures |In(members, ws, InCompleted)| + |In(members, ws, InFailed)| + |In(members, ws, InRunning)| + |In(members, ws, InPending)| == |members|
  {
    var c, f, r, p := In(members, ws, InCompleted), In(members, ws, InFailed), In(members, ws, InRunning), In(members, ws, InPending);
    forall w ensures w in members <==> w in c || w in f || w in r || w in p {
      assert BucketOf(ws, w) in {InCompleted, InFailed, InRunning, InPending};
    }
    FourParts(members, c, f, r, p);
  }

  lemma FourParts(all: set<string>, a: set<string>, b: set<string>, c: set<string>, d: set<string>)
    requires forall w :: w in all <==> w in a || w in b || w in c || w in d
    requires a !! b && c !! d && a + b !! c + d
    ensures |a| + |b| + |c| + |d| == |all|
  {
    assert |a + b| == |a| + |b| && |c + d| == |c| + |d|;
    assert all == (a + b) + (c + d);
  }

  // What the counts are counts of, and that every member is in one of them.
  lemma SummaryCounts(job: Job, ws: Workloads)
    ensures var a := Summary(job, ws);
      && a.total == |job.members| && a.completed + a.failed + a.running + a.pending == a.total
      && a.completed == |set w | w in job.members && Succeeded(ws, w)|
      && a.failed == |set w | w in job.members && w in ws && ws[w].state in {Failed, Unschedulable, Cancelled}|
      && a.pending == |set w | w in job.members && NotBegun(ws, w)|
      && forall h :: h in a.outputs <==> exists w :: w in job.members && Succeeded(ws, w) && h in ws[w].outputs
  {
    BucketsPartition(job.members, ws);
    assert In(job.members, ws, InCompleted) == set w | w in job.members && Succeeded(ws, w);
    assert In(job.members, ws, InFailed) == set w | w in job.members && w in ws && ws[w].state in {Failed, Unschedulable, Cancelled};
    assert In(job.members, ws, InPending) == set w | w in job.members && NotBegun(ws, w);
  }

  // What the policies promise of a job that is over.
  lemma OutcomeMeans(job: Job, ws: Workloads)
    requires IsTerminal(Summary(job, ws).state)
    ensures var state := Summary(job, ws).state;
      && (job.policy.AllRequired? ==> (state == JobCompleted <==> forall w :: w in job.members ==> Succeeded(ws, w)))
      && (job.policy.AnySuccess? ==> (state == JobCompleted <==> exists w :: w in job.members && Succeeded(ws, w)))
      && (job.policy.Threshold? && job.threshold.Some? ==>
           (state == JobCompleted <==> |set w | w in job.members && Succeeded(ws, w)| >= job.threshold.value))
      && (job.policy.Threshold? && job.threshold.None? ==> state == JobCompleted)
      && (state == JobPartiallyCompleted <==>
           job.policy.BestEffort? && (exists w :: w in job.members && Succeeded(ws, w)) && (exists w :: w in job.members && !Succeeded(ws, w)))
      && state in {JobCompleted, JobPartiallyCompleted, JobFailed}
      && (job.policy.BestEffort? ==> (state == JobFailed <==> forall w :: w in job.members ==> !Succeeded(ws, w)))
      && (job.policy.BestEffort? ==> (state == JobCompleted <==> forall w :: w in job.members ==> Succeeded(ws, w)))
  {
    TerminalIff(job, ws);
    EmptyBucket(job.members, ws, InFailed);
    EmptyBucket(job.members, ws, InCompleted);
    assert forall w :: Succeeded(ws, w) <==> BucketOf(ws, w) == InCompleted;
    assert forall w :: w in job.members ==> (BucketOf(ws, w) == InCompleted || BucketOf(ws, w) == InFailed);
    AllIn(job.members, ws, InCompleted);
    assert In(job.members, ws, InCompleted) == set w | w in job.members && Succeeded(ws, w);
  }

  // While the members that are over keep their states, so does the job's verdict.
  lemma VerdictIsStable(job: Job, before: Workloads, after: Workloads)
    requires IsTerminal(Summary(job, before).state)
    requires forall w :: Done(before, w) ==> w in after && after[w].state == before[w].state
    ensures Summary(job, after).state == Summary(job, before).state
  {
    TerminalIff(job, before);
    forall w | w in job.members ensures BucketOf(after, w) == BucketOf(before, w) {
      assert Done(before, w);
    }
    forall b: Bucket ensures In(job.members, after, b) == In(job.members, before, b) {}
  }

  lemma AllIn(members: set<string>, ws: Workloads, b: Bucket)
    ensures |In(members, ws, b)| == |members| <==> forall w :: w in members ==> BucketOf(ws, w) == b
  {
    var part := In(members, ws, b);
    var rest := members - part;
    assert members == part + rest;
    if |part| == |members| {
      assert |rest| == 0;
      assert rest == {};
    } else {
      assert part != members;
    }
  }
}
