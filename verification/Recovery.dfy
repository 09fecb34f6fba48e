/** Coordinator start-up: reload every table, declare attempts in flight lost, drive open workloads again. */
module Recovery {
  import opened Wrappers
  import opened Jobs
  import Registry
  import Artifacts
  import A = Attempts
  import opened Ordering

  // Persisted rows by primary key; `None` is a row that no longer deserialises.
  type Rows<T> = map<string, Option<T>>

  datatype WorkerRow = WorkerRow(status: Registry.Status, lastBeat: real, info: nat)

  // A workload row; the specification is opaque, and an empty explanation is `None`.
  datatype WorkloadRow = WorkloadRow(spec: nat, state: WorkloadState, submittedAt: real, completedAt: Option<real>,
                                     placement: Option<nat>, explanation: Option<nat>, result: Option<nat>, error: Option<string>)

  datatype Store = Store(workers: Rows<WorkerRow>, jobs: Rows<Job>, workloads: Rows<WorkloadRow>,
                         attempts: Rows<A.Attempt>, artifacts: Rows<Artifacts.Artifact>)

  // What loading a table yields: the rows that deserialise.
  function Readable<T>(rows: Rows<T>): map<string, T> {
    map id | id in rows && rows[id].Some? :: rows[id].value
  }

  function MapRows<T>(rows: Rows<T>, f: T -> T): Rows<T> {
    map id | id in rows :: if rows[id].Some? then Some(f(rows[id].value)) else None
  }

  // What recovery does to one row -------------------------------------------------------------

  function OfflineAt(now: real): WorkerRow -> WorkerRow {
    (w: WorkerRow) => w.(status := Registry.Offline, lastBeat := now)
  }

  const RESTART_REASON := "coordinator restarted while this attempt was in flight"

  // A finish time or reason already there is kept; zero and the empty text count as missing.
  function LostAtRestart(a: A.Attempt, now: real): A.Attempt {
    if !A.InFlight(a.status) then a else
      a.(status := A.Lost, category := Some(A.WorkerUnavailable),
         group := A.GroupIn(a.group, A.GroupLost, {}),
         finishedAt := if a.finishedAt.Some? && a.finishedAt.value != 0.0 then a.finishedAt else Some(now),
         reason := if a.reason.Some? && a.reason.value != "" then a.reason else Some(RESTART_REASON))
  }

  function LostAt(now: real): A.Attempt -> A.Attempt {
    (a: A.Attempt) => LostAtRestart(a, now)
  }

  function Redriven(w: WorkloadRow): WorkloadRow {
    if Terminal(w.state) then w else w.(placement := None, explanation := None, state := Submitted)
  }

  // What recovery does to a whole store, at one stroke.
  function Settled(s: Store, now: real): Store {
    s.(workers := MapRows(s.workers, OfflineAt(now)),
       workloads := MapRows(s.workloads, Redriven),
       attempts := MapRows(s.attempts, LostAt(now)))
  }

  // Forgetting time -----------------------------------------------------------------------------

  function UntimedWorker(w: WorkerRow): WorkerRow {
    w.(lastBeat := 0.0)
  }

  function UntimedAttempt(a: A.Attempt): A.Attempt {
    if a.status.Lost? then a.(finishedAt := None) else a
  }

  // A store without the times recovery stamps: worker heartbeats and the finish of lost attempts.
  function Untimed(s: Store): Store {
    s.(workers := MapRows(s.workers, UntimedWorker), attempts := MapRows(s.attempts, UntimedAttempt))
  }

  function WorkerNorm(w: WorkerRow): WorkerRow {
    UntimedWorker(OfflineAt(0.0)(w))
  }

  function AttemptNorm(a: A.Attempt): A.Attempt {
    UntimedAttempt(LostAtRestart(a, 0.0))
  }

  // Where recovery takes a store, up to time.
  function Outcome(s: Store): Store {
    s.(workers := MapRows(s.workers, WorkerNorm),
       workloads := MapRows(s.workloads, Redriven),
       attempts := MapRows(s.attempts, AttemptNorm))
  }

  lemma Compose<T(!new)>(rows: Rows<T>, g: T -> T, f: T -> T, h: T -> T)
    requires forall r :: f(g(r)) == h(r)
    ensures MapRows(MapRows(rows, g), f) == MapRows(rows, h)
  {
  }

  lemma SettledHasOutcome(s: Store, now: real)
    ensures Untimed(Settled(s, now)) == Outcome(s)
  {
    Compose(s.workers, OfflineAt(now), UntimedWorker, WorkerNorm);
    Compose(s.attempts, LostAt(now), UntimedAttempt, AttemptNorm);
  }

  // Recovering a recovered store changes nothing but times.
  lemma SettledIsFixed(s: Store, now: real, later: real)
    ensures Outcome(Settled(s, now)) == Outcome(s)
    ensures Untimed(Settled(Settled(s, now), later)) == Untimed(Settled(s, now))
    ensures Settled(s, now).workloads == Settled(Settled(s, now), later).workloads
    ensures Settled(s, now).attempts == Settled(Settled(s, now), later).attempts
  {
    Compose(s.workers, OfflineAt(now), WorkerNorm, WorkerNorm);
    Compose(s.attempts, LostAt(now), AttemptNorm, AttemptNorm);
    Compose(s.attempts, LostAt(now), LostAt(later), LostAt(now));
    Compose(s.workloads, Redriven, Redriven, Redriven);
    SettledHasOutcome(s, now);
    SettledHasOutcome(Settled(s, now), later);
  }

  lemma WriteKeeps<T>(rows: Rows<T>, f: T -> T, id: string, r: T)
    requires id in rows && rows[id].Some? && f(r) == f(rows[id].value)
    ensures MapRows(rows[id := Some(r)], f) == MapRows(rows, f)
  {
  }

  // Rows outside `todo` have been treated.
  function Partly<T>(rows: Rows<T>, todo: set<string>, f: T -> T): Rows<T> {
    map id | id in rows :: if id in todo || rows[id].None? then rows[id] else Some(f(rows[id].value))
  }

  lemma PartlyStep<T>(rows: Rows<T>, todo: set<string>, f: T -> T, id: string)
    requires id in todo && id in rows
    ensures Partly(rows, todo - {id}, f) ==
      if rows[id].Some? then Partly(rows, todo, f)[id := Some(f(rows[id].value))] else Partly(rows, todo, f)
    ensures Readable(Partly(rows, todo - {id}, f)).Keys == Readable(rows).Keys
  {
  }

  lemma PartlyEnds<T>(rows: Rows<T>, f: T -> T)
    ensures Partly(rows, rows.Keys, f) == rows
    ensures Partly(rows, {}, f) == MapRows(rows, f)
  {
  }

  // The readable rows outside `todo`, treated.
  function Loaded<T>(rows: Rows<T>, todo: set<string>, f: T -> T): map<string, T> {
    map id | id in rows && id !in todo && rows[id].Some? :: f(rows[id].value)
  }

  lemma LoadedStep<T>(rows: Rows<T>, todo: set<string>, f: T -> T, id: string)
    requires id in todo && id in rows
    ensures Loaded(rows, todo - {id}, f) ==
      if rows[id].Some? then Loaded(rows, todo, f)[id := f(rows[id].value)] else Loaded(rows, todo, f)
  {
  }

  lemma LoadedEnds<T>(rows: Rows<T>, f: T -> T)
    ensures Loaded(rows, rows.Keys, f) == map[]
    ensures Loaded(rows, {}, f) == Readable(MapRows(rows, f))
  {
  }

  predicate Leads(commits: seq<Store>, goal: Store) {
    forall i :: 0 <= i < |commits| ==> Outcome(commits[i]) == goal
  }

  predicate WroteWorker(a: Store, b: Store, id: string, w: WorkerRow) {
    b == a.(workers := a.workers[id := Some(w)])
  }

  predicate WroteWorkload(a: Store, b: Store, id: string, w: WorkloadRow) {
    b == a.(workloads := a.workloads[id := Some(w)])
  }

  predicate WroteAttempt(a: Store, b: Store, id: string, x: A.Attempt) {
    b == a.(attempts := a.attempts[id := Some(x)])
  }

  // The second store is the first with one row of one table written.
  ghost predicate OneWrite(a: Store, b: Store) {
    || (exists id, w :: WroteWorker(a, b, id, w))
    || (exists id, w :: WroteWorkload(a, b, id, w))
    || (exists id, x :: WroteAttempt(a, b, id, x))
  }

  // A complete log: it ends with the store as it is, and no two writes share an entry.
  ghost predicate Logs(commits: seq<Store>, s: Store) {
    && commits != [] && commits[|commits| - 1] == s
    && forall i, j :: 0 <= i < j < |commits| && j == i + 1 ==> OneWrite(commits[i], commits[j])
  }

  // More commits: every write is logged, and none changes where recovery leads.
  ghost predicate Grows(before: seq<Store>, s0: Store, after: seq<Store>, s1: Store) {
    && before <= after && Outcome(s1) == Outcome(s0)
    && (Leads(before, Outcome(s0)) ==> Leads(after, Outcome(s0)))
    && (Logs(before, s0) ==> Logs(after, s1))
  }

  lemma GrowsOne(before: seq<Store>, s0: Store, s1: Store)
    requires OneWrite(s0, s1) && Outcome(s1) == Outcome(s0)
    ensures Grows(before, s0, before + [s1], s1)
  {
  }

  lemma GrowsNot(before: seq<Store>, s: Store)
    ensures Grows(before, s, before, s)
  {
  }

  lemma ReadableWrite<T>(rows: Rows<T>, id: string, r: T)
    ensures Readable(rows[id := Some(r)]) == Readable(rows)[id := r]
  {
  }

  lemma RowKey(rows: Rows<A.Attempt>, id: string)
    requires A.Coherent(Readable(rows)) && id in rows && rows[id].Some?
    ensures id == A.MakeAttemptId(rows[id].value.workload, rows[id].value.number)
  {
    assert Readable(rows)[id] == rows[id].value;
  }

  // The workloads to drive again: readable and not over.
  function Open(rows: Rows<WorkloadRow>): set<string> {
    set id | id in rows && rows[id].Some? && !Terminal(rows[id].value.state)
  }

  // The listed rows have been driven again.
  function Treated(rows: Rows<WorkloadRow>, ids: seq<string>): Rows<WorkloadRow> {
    map id | id in rows :: if id in ids && rows[id].Some? then Some(Redriven(rows[id].value)) else rows[id]
  }

  lemma TreatedStart(rows: Rows<WorkloadRow>)
    ensures Treated(rows, []) == rows
  {
  }

  lemma TreatedStep(rows: Rows<WorkloadRow>, ids: seq<string>, i: nat)
    requires i < |ids| && Distinct(ids) && ids[i] in Open(rows)
    ensures ids[i] in Open(Treated(rows, ids[..i])) && Treated(rows, ids[..i])[ids[i]] == rows[ids[i]]
    ensures Treated(rows, ids[..i + 1]) == Treated(rows, ids[..i])[ids[i] := Some(Redriven(rows[ids[i]].value))]
  {
    assert ids[..i + 1] == ids[..i] + [ids[i]];
    assert ids[i] !in ids[..i];
  }

  ghost predicate Driving(s0: Store, c0: seq<Store>, s: Store, c: seq<Store>, pending: seq<string>, i: nat)
    requires i <= |pending|
  {
    s == s0.(workloads := Treated(s0.workloads, pending[..i])) && Grows(c0, s0, c, s)
  }

  lemma TreatedEnd(rows: Rows<WorkloadRow>, ids: seq<string>)
    requires forall id :: id in ids <==> id in Open(rows)
    ensures Treated(rows, ids) == MapRows(rows, Redriven)
  {
  }

  lemma DrivingStarts(s0: Store, c0: seq<Store>, pending: seq<string>)
    ensures Driving(s0, c0, s0, c0, pending, 0)
  {
    TreatedStart(s0.workloads);
    GrowsNot(c0, s0);
  }

  lemma DrivingEnds(s0: Store, c0: seq<Store>, s: Store, c: seq<Store>, pending: seq<string>)
    requires Driving(s0, c0, s, c, pending, |pending|) && forall id :: id in pending <==> id in Open(s0.workloads)
    ensures s == s0.(workloads := MapRows(s0.workloads, Redriven)) && Grows(c0, s0, c, s)
  {
    assert pending[..|pending|] == pending;
    TreatedEnd(s0.workloads, pending);
  }

  class Coordinator {
    var store: Store
    var commits: seq<Store>
    var workers: map<string, WorkerRow>
    var jobs: map<string, Job>
    var workloads: map<string, WorkloadRow>
    var book: A.Book
    var artifacts: map<string, Artifacts.Artifact>
    var enqueued: seq<string>

    // A process about to start over a store: its memory is empty, the store is the one commit there is.
    constructor (store: Store)
      ensures this.store == store && commits == [store] && enqueued == []
      ensures workers == map[] && jobs == map[] && workloads == map[] && artifacts == map[]
      ensures book == A.Book(map[], map[])
    {
      this.store, commits, enqueued := store, [store], [];
      workers, jobs, workloads, artifacts, book := map[], map[], map[], map[], A.Book(map[], map[]);
    }

    method Commit(s: Store)
      modifies this`store, this`commits
      ensures store == s && commits == old(commits) + [s]
    {
      store, commits := s, commits + [s];
    }

    // Registers every persisted worker as offline, with a fresh grace period.
    method RestoreWorkers(now: real)
      requires workers == map[]
      modifies this`store, this`commits, this`workers
      ensures store == old(store).(workers := MapRows(old(store).workers, OfflineAt(now)))
      ensures workers == Readable(store.workers)
      ensures Grows(old(commits), old(store), commits, store)
    {
      ghost var s0 := store;
      var rows := store.workers;
      var todo := rows.Keys;
      LoadedEnds(rows, OfflineAt(now));
      PartlyEnds(rows, OfflineAt(now));
      while todo != {}
        invariant todo <= rows.Keys && store == s0.(workers := Partly(rows, todo, OfflineAt(now)))
        invariant workers == Loaded(rows, todo, OfflineAt(now))
        invariant Grows(old(commits), s0, commits, store)
        decreases |todo|
      {
        var id :| id in todo;
        LoadedStep(rows, todo, OfflineAt(now), id);
        PartlyStep(rows, todo, OfflineAt(now), id);
        if rows[id].Some? {
          ghost var c, s := commits, store;
          RestoreWorker(id, now);
          GrowsTwice(old(commits), s0, c, s, commits, store);
        }
        todo := todo - {id};
      }
    }

    method RestoreWorker(id: string, now: real)
      requires id in store.workers && store.workers[id].Some?
      modifies this`store, this`commits, this`workers
      ensures var w := OfflineAt(now)(old(store).workers[id].value);
        store == old(store).(workers := old(store).workers[id := Some(w)]) && workers == old(workers)[id := w]
      ensures Grows(old(commits), old(store), commits, store)
    {
      var w := store.workers[id].value.(status := Registry.Offline, lastBeat := now);
      WriteKeeps(store.workers, WorkerNorm, id, w);
      workers := workers[id := w];
      Commit(store.(workers := store.workers[id := Some(w)]));
      assert WroteWorker(old(store), store, id, w);
      GrowsOne(old(commits), old(store), store);
    }

    // Restores the workloads as they are and lists the ones to drive again.
    method RestoreWorkloads() returns (pending: seq<string>)
      requires workloads == map[]
      modifies this`workloads
      ensures workloads == Readable(store.workloads)
      ensures Distinct(pending) && forall id :: id in pending <==> id in Open(store.workloads)
    {
      pending := [];
      var rows := store.workloads;
      var todo := rows.Keys;
      while todo != {}
        invariant todo <= rows.Keys && Distinct(pending)
        invariant workloads == (map id | id in rows && id !in todo && rows[id].Some? :: rows[id].value)
        invariant forall id :: id in pending <==> id in Open(rows) && id !in todo
        decreases |todo|
      {
        var id :| id in todo;
        if rows[id].Some? {
          workloads := workloads[id := rows[id].value];
          if !Terminal(rows[id].value.state) { pending := pending + [id]; }
        }
        todo := todo - {id};
      }
    }

    // Declares attempts in flight lost, in the store first and then in memory.
    method RestoreAttempts(now: real)
      requires book == A.Book(map[], map[]) && A.Coherent(Readable(store.attempts))
      modifies this`store, this`commits, this`book
      ensures store == old(store).(attempts := MapRows(old(store).attempts, LostAt(now)))
      ensures book.attempts == Readable(store.attempts) && A.Ordered(book)
      ensures Grows(old(commits), old(store), commits, store)
    {
      ghost var s0 := store;
      var rows := store.attempts;
      var todo := rows.Keys;
      LoadedEnds(rows, LostAt(now));
      PartlyEnds(rows, LostAt(now));
      while todo != {}
        invariant todo <= rows.Keys && Restoring(rows, todo, now, s0, old(commits))
        decreases |todo|
      {
        var id :| id in todo;
        RestoreNextAttempt(id, now, rows, todo, s0, old(commits));
        todo := todo - {id};
      }
    }

    // The attempts outside `todo` are dealt with, in store and memory.
    ghost predicate Restoring(rows: Rows<A.Attempt>, todo: set<string>, now: real, s0: Store, c0: seq<Store>)
      reads this
    {
      && store == s0.(attempts := Partly(rows, todo, LostAt(now))) && Grows(c0, s0, commits, store)
      && book.attempts == Loaded(rows, todo, LostAt(now)) && A.Ordered(book)
    }

    method RestoreNextAttempt(id: string, now: real, rows: Rows<A.Attempt>, ghost todo: set<string>, ghost s0: Store, ghost c0: seq<Store>)
      requires Restoring(rows, todo, now, s0, c0) && id in todo && id in rows && A.Coherent(Readable(rows))
      modifies this`store, this`commits, this`book
      ensures Restoring(rows, todo - {id}, now, s0, c0)
    {
      LoadedStep(rows, todo, LostAt(now), id);
      PartlyStep(rows, todo, LostAt(now), id);
      if rows[id].Some? {
        RowKey(rows, id);
        ghost var c, s := commits, store;
        RestoreAttempt(id, now);
        GrowsTwice(c0, s0, c, s, commits, store);
      }
    }

    // Writes a lost attempt through before memory sees it; any other is restored as it is.
    method RestoreAttempt(id: string, now: real)
      requires id in store.attempts && store.attempts[id].Some? && A.Ordered(book)
      requires id == A.MakeAttemptId(store.attempts[id].value.workload, store.attempts[id].value.number)
      modifies this`store, this`commits, this`book
      ensures var a := LostAtRestart(old(store).attempts[id].value, now);
        store == old(store).(attempts := old(store).attempts[id := Some(a)]) && book.attempts == old(book).attempts[id := a]
      ensures A.Ordered(book)
      ensures Grows(old(commits), old(store), commits, store)
    {
      var a := LostAtRestart(store.attempts[id].value, now);
      WriteKeeps(store.attempts, AttemptNorm, id, a);
      if A.InFlight(store.attempts[id].value.status) {
        Commit(store.(attempts := store.attempts[id := Some(a)]));
        assert WroteAttempt(old(store), store, id, a);
        GrowsOne(old(commits), old(store), store);
      } else {
        assert store.attempts[id := Some(a)] == store.attempts;
        GrowsNot(commits, store);
      }
      A.RestoredKeepsOrdered(book, a);
      book := A.Restored(book, a);
    }

    method SaveWorkload(id: string, w: WorkloadRow)
      requires id in store.workloads && store.workloads[id].Some? && Redriven(w) == Redriven(store.workloads[id].value)
      requires workloads == Readable(store.workloads)
      modifies this`store, this`commits, this`workloads
      ensures store == old(store).(workloads := old(store).workloads[id := Some(w)]) && workloads == Readable(store.workloads)
      ensures Grows(old(commits), old(store), commits, store)
    {
      WriteKeeps(store.workloads, Redriven, id, w);
      ReadableWrite(store.workloads, id, w);
      workloads := workloads[id := w];
      Commit(store.(workloads := store.workloads[id := Some(w)]));
      assert WroteWorkload(old(store), store, id, w);
      GrowsOne(old(commits), old(store), store);
    }

    // Takes the placement and its explanation off an open workload: two writes.
    method Unplace(id: string)
      requires id in Open(store.workloads) && workloads == Readable(store.workloads)
      modifies this`store, this`commits, this`workloads
      ensures var w := old(store).workloads[id].value.(placement := None, explanation := None);
        store == old(store).(workloads := old(store).workloads[id := Some(w)])
      ensures workloads == Readable(store.workloads) && Grows(old(commits), old(store), commits, store)
    {
      var w := workloads[id];
      SaveWorkload(id, w.(placement := None));
      ghost var c1, s1 := commits, store;
      SaveWorkload(id, w.(placement := None, explanation := None));
      GrowsTwice(old(commits), old(store), c1, s1, commits, store);
    }

    // Puts one open workload back to the start: three writes in all, then the queue.
    method RedriveOne(id: string)
      requires id in Open(store.workloads) && workloads == Readable(store.workloads)
      modifies this`store, this`commits, this`workloads, this`enqueued
      ensures store == old(store).(workloads := old(store).workloads[id := Some(Redriven(old(store).workloads[id].value))])
      ensures workloads == Readable(store.workloads) && enqueued == old(enqueued) + [id]
      ensures Grows(old(commits), old(store), commits, store)
    {
      Unplace(id);
      ghost var c1, s1 := commits, store;
      SaveWorkload(id, workloads[id].(state := Submitted));
      GrowsTwice(old(commits), old(store), c1, s1, commits, store);
      enqueued := enqueued + [id];
    }

    method RestoreJobs()
      modifies this`jobs, this`artifacts
      ensures jobs == Readable(store.jobs) && artifacts == Readable(store.artifacts)
    {
      jobs, artifacts := Readable(store.jobs), Readable(store.artifacts);
    }

    method RedriveNext(ghost s0: Store, ghost c0: seq<Store>, pending: seq<string>, i: nat)
      requires i < |pending| && Distinct(pending) && pending[i] in Open(s0.workloads)
      requires Driving(s0, c0, store, commits, pending, i) && workloads == Readable(store.workloads)
      modifies this`store, this`commits, this`workloads, this`enqueued
      ensures Driving(s0, c0, store, commits, pending, i + 1) && workloads == Readable(store.workloads)
      ensures enqueued == old(enqueued) + [pending[i]]
    {
      ghost var c, s := commits, store;
      TreatedStep(s0.workloads, pending, i);
      RedriveOne(pending[i]);
      GrowsTwice(c0, s0, c, s, commits, store);
    }

    method RedriveEach(ghost s0: Store, ghost c0: seq<Store>, pending: seq<string>)
      requires Distinct(pending) && forall id :: id in pending ==> id in Open(s0.workloads)
      requires Driving(s0, c0, store, commits, pending, 0) && workloads == Readable(store.workloads) && enqueued == []
      modifies this`store, this`commits, this`workloads, this`enqueued
      ensures Driving(s0, c0, store, commits, pending, |pending|) && workloads == Readable(store.workloads)
      ensures enqueued == pending
    {
      var i := 0;
      while i < |pending|
        invariant 0 <= i <= |pending| && enqueued == pending[..i]
        invariant Driving(s0, c0, store, commits, pending, i) && workloads == Readable(store.workloads)
      {
        assert pending[i] in pending;
        assert pending[..i + 1] == pending[..i] + [pending[i]];
        RedriveNext(s0, c0, pending, i);
        i := i + 1;
      }
      assert pending[..i] == pending;
    }

    method Redrive(pending: seq<string>)
      requires Distinct(pending) && (forall id :: id in pending <==> id in Open(store.workloads))
      requires workloads == Readable(store.workloads) && enqueued == []
      modifies this`store, this`commits, this`workloads, this`enqueued
      ensures store == old(store).(workloads := MapRows(old(store).workloads, Redriven))
      ensures workloads == Readable(store.workloads) && enqueued == pending
      ensures Grows(old(commits), old(store), commits, store)
    {
      ghost var s0, c0 := store, commits;
      DrivingStarts(s0, c0, pending);
      RedriveEach(s0, c0, pending);
      DrivingEnds(s0, c0, store, commits, pending);
    }

    // Reloads every table into an empty memory and lists the workloads to drive again.
    method Reload(now: real) returns (pending: seq<string>)
      requires workers == map[] && workloads == map[] && book == A.Book(map[], map[])
      requires A.Coherent(Readable(store.attempts))
      modifies this`store, this`commits, this`workers, this`jobs, this`workloads, this`book, this`artifacts
      ensures store == Reloaded(old(store), now) && Loads(store, workers, jobs, book, artifacts)
      ensures workloads == Readable(store.workloads)
      ensures Distinct(pending) && forall id :: id in pending <==> id in Open(store.workloads)
      ensures Grows(old(commits), old(store), commits, store)
    {
      ghost var c0, s0 := commits, store;
      RestoreWorkers(now);
      ghost var c1, s1 := commits, store;
      RestoreJobs();
      pending := RestoreWorkloads();
      RestoreAttempts(now);
      GrowsTwice(c0, s0, c1, s1, commits, store);
    }

    // One start: reload everything, then put the open workloads back in the queue.
    method Start(now: real)
      requires workers == map[] && workloads == map[] && book == A.Book(map[], map[]) && enqueued == []
      requires A.Coherent(Readable(store.attempts))
      modifies this
      ensures store == Settled(old(store), now) && Loads(store, workers, jobs, book, artifacts)
      ensures workloads == Readable(store.workloads)
      ensures Distinct(enqueued) && forall id :: id in enqueued <==> id in Open(old(store).workloads)
      ensures Grows(old(commits), old(store), commits, store)
    {
      ghost var c0, s0 := commits, store;
      var pending := Reload(now);
      ghost var c1, s1 := commits, store;
      Redrive(pending);
      GrowsTwice(c0, s0, c1, s1, commits, store);
    }
  }

  // Memory holds exactly what the store does, with the attempts listed in order of number.
  ghost predicate Loads(s: Store, workers: map<string, WorkerRow>, jobs: map<string, Job>, book: A.Book,
                        artifacts: map<string, Artifacts.Artifact>)
  {
    && workers == Readable(s.workers) && jobs == Readable(s.jobs) && artifacts == Readable(s.artifacts)
    && book.attempts == Readable(s.attempts) && A.Ordered(book)
  }

  function Reloaded(s: Store, now: real): Store {
    s.(workers := MapRows(s.workers, OfflineAt(now)), attempts := MapRows(s.attempts, LostAt(now)))
  }

  lemma GrowsTwice(a: seq<Store>, s0: Store, b: seq<Store>, s1: Store, c: seq<Store>, s2: Store)
    requires Grows(a, s0, b, s1) && Grows(b, s1, c, s2)
    ensures Grows(a, s0, c, s2)
  {
  }

  // A readable row.
  predicate Has<T(==)>(rows: Rows<T>, id: string, r: T) {
    id in rows && rows[id] == Some(r)
  }

  // An attempt that was in flight is given up: lost for want of a worker. A finish time or reason that
  // is there is kept, its group is lost with it, and what it was stays on record.
  predicate GivenUp(before: A.Attempt, after: A.Attempt, now: real) {
    && after.status == A.Lost && after.category == Some(A.WorkerUnavailable)
    && after.finishedAt == (if before.finishedAt in {None, Some(0.0)} then Some(now) else before.finishedAt)
    && after.reason == (if before.reason in {None, Some("")} then Some("coordinator restarted while this attempt was in flight") else before.reason)
    && (if before.group.None? then after.group.None? else
          after.group == Some(A.Group(A.GroupLost, before.group.value.workers, before.group.value.unavailable)))
    && after.workload == before.workload && after.number == before.number && after.worker == before.worker
    && after.assignedAt == before.assignedAt && after.startedAt == before.startedAt && after.result == before.result
  }

  // Attempts that were assigned or running are given up, all others stay as they are.
  lemma AttemptsSettle(s: Store, now: real, id: string, a: A.Attempt)
    requires Has(s.attempts, id, a)
    ensures exists b :: Has(Settled(s, now).attempts, id, b) && if a.status in {A.Assigned, A.Running} then GivenUp(a, b, now) else b == a
  {
    var b := LostAtRestart(a, now);
    assert a.group.None? || a.group.value.unavailable + {} == a.group.value.unavailable;
    assert Has(Settled(s, now).attempts, id, b);
  }

  // What recovery means, row by row: attempts in flight are given up, workers are offline with a fresh
  // grace period, what is over is untouched, what is open is back at the start with its history kept,
  // and rows that cannot be read are left alone.
  lemma SettledMeans(s: Store, now: real)
    ensures var r := Settled(s, now);
      && (forall id, a :: Has(s.attempts, id, a) ==>
            exists b :: Has(r.attempts, id, b) && if a.status in {A.Assigned, A.Running} then GivenUp(a, b, now) else b == a)
      && (forall id, w :: Has(s.workers, id, w) ==> Has(r.workers, id, WorkerRow(Registry.Offline, now, w.info)))
      && (forall id :: id in s.workloads && id !in Open(s.workloads) ==> r.workloads[id] == s.workloads[id])
      && (forall id :: id in Open(s.workloads) ==> StartsOver(s.workloads[id], r.workloads[id]))
      && (forall id :: id in s.attempts && s.attempts[id].None? ==> r.attempts[id] == None)
      && (forall id :: id in s.workers && s.workers[id].None? ==> r.workers[id] == None)
      && r.attempts.Keys == s.attempts.Keys && r.workloads.Keys == s.workloads.Keys && r.workers.Keys == s.workers.Keys
      && r.jobs == s.jobs && r.artifacts == s.artifacts
  {
    var r := Settled(s, now);
    forall id, a | Has(s.attempts, id, a)
      ensures exists b :: Has(r.attempts, id, b) && if a.status in {A.Assigned, A.Running} then GivenUp(a, b, now) else b == a
    {
      AttemptsSettle(s, now, id, a);
    }
    forall id | id in Open(s.workloads) ensures StartsOver(s.workloads[id], r.workloads[id]) {}
  }

  // No attempt is left in flight.
  lemma NothingInFlight(s: Store, now: real, id: string, b: A.Attempt)
    requires Has(Settled(s, now).attempts, id, b)
    ensures b.status !in {A.Assigned, A.Running}
  {
  }

  // The workloads that are open are those not completed, failed, unschedulable or cancelled.
  lemma OpenIff(rows: Rows<WorkloadRow>, id: string)
    ensures id in Open(rows) <==> exists w :: Has(rows, id, w) && w.state !in {Completed, Failed, Unschedulable, Cancelled}
  {
    if id in Open(rows) { assert Has(rows, id, rows[id].value); }
  }

  // Stores that agree but for times differ in nothing but worker heartbeats and when lost attempts ended.
  lemma UntimedMeans(s: Store, t: Store)
    requires Untimed(s) == Untimed(t)
    ensures s.jobs == t.jobs && s.workloads == t.workloads && s.artifacts == t.artifacts
    ensures s.workers.Keys == t.workers.Keys && s.attempts.Keys == t.attempts.Keys
    ensures forall id :: id in s.workers ==> (s.workers[id].Some? <==> t.workers[id].Some?)
    ensures forall id, w, v :: Has(s.workers, id, w) && Has(t.workers, id, v) ==> v == w.(lastBeat := v.lastBeat)
    ensures forall id :: id in s.attempts ==> (s.attempts[id].Some? <==> t.attempts[id].Some?)
    ensures forall id, a, b :: Has(s.attempts, id, a) && Has(t.attempts, id, b) ==>
      b == if a.status == A.Lost then a.(finishedAt := b.finishedAt) else a
  {
    UntimedRows(s.workers, t.workers, UntimedWorker);
    UntimedRows(s.attempts, t.attempts, UntimedAttempt);
    forall id, w, v | Has(s.workers, id, w) && Has(t.workers, id, v) ensures v == w.(lastBeat := v.lastBeat) {
      assert UntimedWorker(w) == UntimedWorker(v);
    }
    forall id, a, b | Has(s.attempts, id, a) && Has(t.attempts, id, b)
      ensures b == if a.status == A.Lost then a.(finishedAt := b.finishedAt) else a
    {
      assert UntimedAttempt(a) == UntimedAttempt(b);
    }
  }

  lemma UntimedRows<T(!new)>(a: Rows<T>, b: Rows<T>, f: T -> T)
    requires MapRows(a, f) == MapRows(b, f)
    ensures a.Keys == b.Keys
    ensures forall id :: id in a ==> (a[id].Some? <==> b[id].Some?) && (a[id].Some? ==> f(a[id].value) == f(b[id].value))
  {
    assert MapRows(a, f).Keys == a.Keys && MapRows(b, f).Keys == b.Keys;
    forall id | id in a ensures (a[id].Some? <==> b[id].Some?) && (a[id].Some? ==> f(a[id].value) == f(b[id].value)) {
      assert MapRows(a, f)[id] == MapRows(b, f)[id];
    }
  }

  predicate StartsOver(before: Option<WorkloadRow>, after: Option<WorkloadRow>) {
    && before.Some? && after.Some?
    && after.value.state == Submitted && after.value.placement == None && after.value.explanation == None
    && after.value.(state := before.value.state, placement := before.value.placement, explanation := before.value.explanation)
       == before.value
  }

  // A cancellation that was asked for but not carried out does not survive a restart.
  lemma CancellationRequestIsDriven(s: Store, now: real, id: string)
    requires id in s.workloads && s.workloads[id].Some? && s.workloads[id].value.state == CancellationRequested
    ensures id in Open(s.workloads) && StartsOver(s.workloads[id], Settled(s, now).workloads[id])
  {
    SettledMeans(s, now);
  }

  // Stores with the same outcome have the same open workloads and the same attempt identities.
  lemma OutcomeKeeps(s: Store, t: Store)
    requires Outcome(s) == Outcome(t)
    ensures Open(s.workloads) == Open(t.workloads)
    ensures A.Coherent(Readable(s.attempts)) ==> A.Coherent(Readable(t.attempts))
  {
    OpenOfRedriven(s.workloads);
    OpenOfRedriven(t.workloads);
    if A.Coherent(Readable(s.attempts)) {
      var norm := MapRows(s.attempts, AttemptNorm);
      assert norm == MapRows(t.attempts, AttemptNorm);
      forall id | id in Readable(t.attempts)
        ensures id == A.MakeAttemptId(Readable(t.attempts)[id].workload, Readable(t.attempts)[id].number)
      {
        assert norm[id] == Some(AttemptNorm(t.attempts[id].value));
        assert norm[id] == Some(AttemptNorm(s.attempts[id].value));
        RowKey(s.attempts, id);
      }
    }
  }

  function OpenAgain(rows: Rows<WorkloadRow>): set<string> {
    set id | id in rows && rows[id].Some? && rows[id].value.state == Submitted
  }

  lemma OpenOfRedriven(rows: Rows<WorkloadRow>)
    ensures Open(rows) == OpenAgain(MapRows(rows, Redriven))
  {
  }

  // The store a crash leaves behind: as it was after the given number of writes, or before any.
  function CutAfter(log: seq<Store>, writes: nat): Store
    requires log != []
  {
    log[if writes < |log| then writes else 0]
  }

  // A log that misses no write, from a store to one that is settled as `s0` would be, up to times.
  ghost predicate WholeLog(log: seq<Store>, from: Store, s0: Store) {
    && log != [] && log[0] == from && Logs(log, log[|log| - 1])
    && Untimed(log[|log| - 1]) == Untimed(Settled(s0, 0.0))
  }

  function StartOf(logs: seq<seq<Store>>, s0: Store, crashes: seq<(nat, real)>, i: nat): Store
    requires i <= |logs| && i <= |crashes|
  {
    if i == 0 || logs[i - 1] == [] then s0 else CutAfter(logs[i - 1], crashes[i - 1].0)
  }

  // The logs of a chain of starts: each is whole, and begins with the store the crash before it left.
  ghost predicate CrashChain(logs: seq<seq<Store>>, s0: Store, crashes: seq<(nat, real)>)
    requires |logs| <= |crashes| + 1
  {
    forall i :: 0 <= i < |logs| ==> WholeLog(logs[i], StartOf(logs, s0, crashes, i), s0)
  }

  lemma ChainStep(logs: seq<seq<Store>>, s0: Store, crashes: seq<(nat, real)>, log: seq<Store>)
    requires |logs| <= |crashes| && CrashChain(logs, s0, crashes) && WholeLog(log, StartOf(logs, s0, crashes, |logs|), s0)
    ensures CrashChain(logs + [log], s0, crashes)
  {
    forall i | 0 <= i <= |logs| ensures WholeLog((logs + [log])[i], StartOf(logs + [log], s0, crashes, i), s0) {
      assert StartOf(logs + [log], s0, crashes, i) == StartOf(logs, s0, crashes, i);
      assert i < |logs| ==> WholeLog(logs[i], StartOf(logs, s0, crashes, i), s0);
    }
  }

  // One start over a store; its log begins with that store, ends with the settled one and misses no write.
  method StartOver(s: Store, now: real) returns (c: Coordinator)
    requires A.Coherent(Readable(s.attempts))
    ensures c.store == Settled(s, now) && Loads(c.store, c.workers, c.jobs, c.book, c.artifacts)
    ensures c.workloads == Readable(c.store.workloads)
    ensures Distinct(c.enqueued) && forall id :: id in c.enqueued <==> id in Open(s.workloads)
    ensures c.commits != [] && c.commits[0] == s && Logs(c.commits, c.store) && Leads(c.commits, Outcome(s))
  {
    c := new Coordinator(s);
    assert Logs([s], s) && Leads([s], Outcome(s));
    c.Start(now);
  }

  // A start that is cut short, seen from the store the first start of the chain began with.
  method CrashOnce(s: Store, s0: Store, crash: (nat, real)) returns (log: seq<Store>, left: Store)
    requires A.Coherent(Readable(s0.attempts)) && Outcome(s) == Outcome(s0)
    ensures WholeLog(log, s, s0) && left == CutAfter(log, crash.0) && Outcome(left) == Outcome(s0)
  {
    OutcomeKeeps(s0, s);
    var started := StartOver(s, crash.1);
    SettledHasOutcome(s, crash.1);
    SettledHasOutcome(s0, 0.0);
    log := started.commits;
    left := CutAfter(log, crash.0);
  }

  // The start that runs to its end.
  method FinalStart(s: Store, s0: Store, now: real) returns (c: Coordinator)
    requires A.Coherent(Readable(s0.attempts)) && Outcome(s) == Outcome(s0)
    ensures WholeLog(c.commits, s, s0) && Logs(c.commits, c.store)
    ensures Untimed(c.store) == Untimed(Settled(s0, now))
    ensures Loads(c.store, c.workers, c.jobs, c.book, c.artifacts) && c.workloads == Readable(c.store.workloads)
    ensures Distinct(c.enqueued) && forall id :: id in c.enqueued <==> id in Open(s0.workloads)
  {
    OutcomeKeeps(s0, s);
    c := StartOver(s, now);
    SettledHasOutcome(s, now);
    SettledHasOutcome(s0, now);
    SettledHasOutcome(s0, 0.0);
  }

  // Some starts of the chain have been cut short; `s` is what the last of them left.
  ghost predicate Crashed(logs: seq<seq<Store>>, s0: Store, crashes: seq<(nat, real)>, s: Store) {
    && |logs| <= |crashes| && CrashChain(logs, s0, crashes)
    && s == StartOf(logs, s0, crashes, |logs|) && Outcome(s) == Outcome(s0)
  }

  method CrashNext(s0: Store, crashes: seq<(nat, real)>, logs: seq<seq<Store>>, s: Store) returns (log: seq<Store>, left: Store)
    requires A.Coherent(Readable(s0.attempts)) && |logs| < |crashes| && Crashed(logs, s0, crashes, s)
    ensures Crashed(logs + [log], s0, crashes, left)
  {
    log, left := CrashOnce(s, s0, crashes[|logs|]);
    ChainStep(logs, s0, crashes, log);
  }

  method CrashRepeatedly(s0: Store, crashes: seq<(nat, real)>) returns (logs: seq<seq<Store>>, s: Store)
    requires A.Coherent(Readable(s0.attempts))
    ensures |logs| == |crashes| && Crashed(logs, s0, crashes, s)
  {
    s, logs := s0, [];
    while |logs| < |crashes|
      invariant Crashed(logs, s0, crashes, s)
      decreases |crashes| - |logs|
    {
      var log;
      log, s := CrashNext(s0, crashes, logs, s);
      logs := logs + [log];
    }
  }

  // Starts again and again over one store, each but the last cut short right after one of its writes:
  // up to times the store ends where a single undisturbed start takes it, with the same queue.
  method RecoverThroughCrashes(s0: Store, crashes: seq<(nat, real)>, now: real) returns (c: Coordinator, logs: seq<seq<Store>>)
    requires A.Coherent(Readable(s0.attempts))
    ensures |logs| == |crashes| + 1 && CrashChain(logs, s0, crashes) && Logs(logs[|crashes|], c.store)
    ensures Untimed(c.store) == Untimed(Settled(s0, now))
    ensures Loads(c.store, c.workers, c.jobs, c.book, c.artifacts) && c.workloads == Readable(c.store.workloads)
    ensures Distinct(c.enqueued) && forall id :: id in c.enqueued <==> id in Open(s0.workloads)
  {
    var s;
    logs, s := CrashRepeatedly(s0, crashes);
    c := FinalStart(s, s0, now);
    ChainStep(logs, s0, crashes, c.commits);
    logs := logs + [c.commits];
  }

  // One unreadable row is enough to make the numbering unsafe: attempt 1 is skipped, attempt 2
  // restored, and the next attempt takes the identifier of attempt 2.
  lemma UnreadableRowBreaksNumbering(book: A.Book, rows: Rows<A.Attempt>, second: A.Attempt)
    requires second.number == 2
    requires rows == map[A.MakeAttemptId(second.workload, 1) := None, A.MakeAttemptId(second.workload, 2) := Some(second)]
    requires A.Ordered(book) && book.attempts == Readable(rows)
    ensures A.NextId(book, second.workload) in book.attempts
    ensures !A.NeverOverwrites(book, [A.Create(second.workload, None, None)])
  {
    var w := second.workload;
    var two := A.MakeAttemptId(w, 2);
    var ids := A.Ids(book, w);
    assert A.OrderedList(book.attempts, w, ids);
    OnlyRow(rows, w, second);
    A.OrderedDistinct(book.attempts, w, ids);
    assert forall id :: id in ids <==> id == two;
    SoleElement(ids, two);
  }

  lemma SoleElement(ids: seq<string>, x: string)
    requires Distinct(ids) && forall id :: id in ids <==> id == x
    ensures ids == [x]
  {
    DistinctPermutation(ids, [x]);
    assert |ids| == |multiset(ids)| == 1;
    assert ids[0] in ids;
  }

  lemma OnlyRow(rows: Rows<A.Attempt>, w: string, second: A.Attempt)
    requires rows == map[A.MakeAttemptId(w, 1) := None, A.MakeAttemptId(w, 2) := Some(second)]
    ensures Readable(rows) == map[A.MakeAttemptId(w, 2) := second]
  {
    if A.MakeAttemptId(w, 1) == A.MakeAttemptId(w, 2) { A.AttemptIdInjective(w, 1, w, 2); }
  }
}
