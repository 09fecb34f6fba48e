/** Execution attempts: numbering, marking and restoring. */
module Attempts {
  import opened Wrappers
  import opened Ordering
  import opened Numerals

  datatype Status = Queued | Assigned | Running | Succeeded | Failed | Lost

  predicate InFlight(s: Status) {
    s.Assigned? || s.Running?
  }

  datatype Category = WorkerUnavailable | OtherFailure(code: nat)

  datatype GroupState = GroupPending | GroupRunning | GroupCompleted | GroupFailed | GroupLost

  datatype Group = Group(state: GroupState, workers: set<string>, unavailable: set<string>)

  datatype Attempt = Attempt(workload: string, number: nat, status: Status, worker: Option<string>,
                             assignedAt: Option<real>, startedAt: Option<real>, finishedAt: Option<real>,
                             category: Option<Category>, reason: Option<string>, result: Option<nat>,
                             group: Option<Group>)

  // The outcomes the orchestrator reports for an attempt.
  datatype Mark =
    | MarkAssigned(worker: string)
    | MarkRunning
    | MarkSucceeded(outcome: nat)
    | MarkFailed(category: Option<Category>, reason: Option<string>, optional: Option<nat>)
    | MarkLost(why: string, unavailable: set<string>)

  function GroupIn(g: Option<Group>, state: GroupState, unavailable: set<string>): Option<Group> {
    if g.None? then None else Some(g.value.(state := state, unavailable := g.value.unavailable + unavailable))
  }

  function Marked(a: Attempt, mark: Mark, now: real): Attempt {
    match mark
    case MarkAssigned(worker) => a.(status := Assigned, worker := Some(worker), assignedAt := Some(now))
    case MarkRunning => a.(status := Running, startedAt := Some(now), group := GroupIn(a.group, GroupRunning, {}))
    case MarkSucceeded(outcome) =>
      a.(status := Succeeded, finishedAt := Some(now), result := Some(outcome), group := GroupIn(a.group, GroupCompleted, {}))
    case MarkFailed(category, reason, optional) =>
      a.(status := Failed, finishedAt := Some(now), category := category, reason := reason,
         result := if optional.Some? then optional else a.result, group := GroupIn(a.group, GroupFailed, {}))
    case MarkLost(why, unavailable) =>
      a.(status := Lost, finishedAt := Some(now), category := Some(WorkerUnavailable), reason := Some(why),
         group := GroupIn(a.group, GroupLost, unavailable))
  }

  // What every mark leaves alone: identity and assignment history, the result unless a new one is
  // reported, and the members of a group.
  predicate KeepsRecord(a: Attempt, b: Attempt) {
    && b.workload == a.workload && b.number == a.number
    && (b.group.None? <==> a.group.None?) && (a.group.Some? ==> b.group.value.workers == a.group.value.workers)
  }

  // The group of the attempt, if there is one, has reached the state, with these workers more unavailable.
  predicate GroupReached(a: Attempt, b: Attempt, state: GroupState, unavailable: set<string>) {
    a.group.Some? ==> b.group == Some(Group(state, a.group.value.workers, a.group.value.unavailable + unavailable))
  }

  lemma AssignedMeans(a: Attempt, worker: string, now: real)
    ensures var b := Marked(a, MarkAssigned(worker), now);
      && b.status == Assigned && b.worker == Some(worker) && b.assignedAt == Some(now) && KeepsRecord(a, b) && b.group == a.group
      && (b.startedAt, b.finishedAt, b.category, b.reason, b.result) == (a.startedAt, a.finishedAt, a.category, a.reason, a.result)
  {
  }

  lemma RunningMeans(a: Attempt, now: real)
    ensures var b := Marked(a, MarkRunning, now);
      && b.status == Running && b.startedAt == Some(now) && KeepsRecord(a, b) && GroupReached(a, b, GroupRunning, {})
      && (b.worker, b.assignedAt, b.finishedAt, b.category, b.reason, b.result)
         == (a.worker, a.assignedAt, a.finishedAt, a.category, a.reason, a.result)
  {
  }

  lemma SucceededMeans(a: Attempt, outcome: nat, now: real)
    ensures var b := Marked(a, MarkSucceeded(outcome), now);
      && b.status == Succeeded && b.finishedAt == Some(now) && b.result == Some(outcome)
      && KeepsRecord(a, b) && GroupReached(a, b, GroupCompleted, {})
      && (b.worker, b.assignedAt, b.startedAt, b.category, b.reason) == (a.worker, a.assignedAt, a.startedAt, a.category, a.reason)
  {
  }

  lemma FailedMeans(a: Attempt, category: Option<Category>, reason: Option<string>, outcome: Option<nat>, now: real)
    ensures var b := Marked(a, MarkFailed(category, reason, outcome), now);
      && b.status == Failed && b.finishedAt == Some(now) && b.category == category && b.reason == reason
      && (if outcome.Some? then b.result == outcome else b.result == a.result)
      && KeepsRecord(a, b) && GroupReached(a, b, GroupFailed, {})
      && (b.worker, b.assignedAt, b.startedAt) == (a.worker, a.assignedAt, a.startedAt)
  {
  }

  lemma LostMeans(a: Attempt, why: string, unavailable: set<string>, now: real)
    ensures var b := Marked(a, MarkLost(why, unavailable), now);
      && b.status == Lost && b.finishedAt == Some(now) && b.category == Some(WorkerUnavailable) && b.reason == Some(why)
      && KeepsRecord(a, b) && GroupReached(a, b, GroupLost, unavailable)
      && (b.worker, b.assignedAt, b.startedAt, b.result) == (a.worker, a.assignedAt, a.startedAt, a.result)
  {
  }

  // Identifiers --------------------------------------------------------------------------------

  function MakeAttemptId(workload: string, number: nat): string {
    workload + "#" + FormatNat(number)
  }

  // The separator that was put in is the last one there is.
  lemma LastHash(workload: string, number: nat)
    ensures var id := MakeAttemptId(workload, number);
      |id| > |workload| && id[|workload|] == '#' && forall i :: |workload| < i < |id| ==> id[i] != '#'
  {
    var id := MakeAttemptId(workload, number);
    forall i | |workload| < i < |id| ensures id[i] != '#' {
      assert id[i] == FormatNat(number)[i - |workload| - 1];
    }
  }

  // Whatever workload ids look like, separators included, an identifier names one attempt only.
  lemma AttemptIdInjective(w1: string, n1: nat, w2: string, n2: nat)
    requires MakeAttemptId(w1, n1) == MakeAttemptId(w2, n2)
    ensures w1 == w2 && n1 == n2
  {
    var a, b := MakeAttemptId(w1, n1), MakeAttemptId(w2, n2);
    LastHash(w1, n1);
    LastHash(w2, n2);
    assert |w1| == |w2|;
    assert a[..|w1|] == w1 && b[..|w2|] == w2;
    assert a[|w1| + 1..] == FormatNat(n1) && b[|w2| + 1..] == FormatNat(n2);
    NumeralRoundTrip(n1);
    NumeralRoundTrip(n2);
  }

  // The registry's state -----------------------------------------------------------------------

  type Table = map<string, Attempt>

  datatype Book = Book(attempts: Table, byWorkload: map<string, seq<string>>)

  function Ids(b: Book, w: string): seq<string> {
    if w in b.byWorkload then b.byWorkload[w] else []
  }

  function NewAttempt(w: string, number: nat, worker: Option<string>, group: Option<Group>): Attempt {
    Attempt(w, number, Queued, worker, None, None, None, None, None, None, group)
  }

  function NextId(b: Book, w: string): string {
    MakeAttemptId(w, |Ids(b, w)| + 1)
  }

  // The number of a new attempt is one more than the attempts listed, whatever their numbers are.
  function Created(b: Book, w: string, worker: Option<string>, group: Option<Group>): Book {
    Book(b.attempts[NextId(b, w) := NewAttempt(w, |Ids(b, w)| + 1, worker, group)],
         b.byWorkload[w := Ids(b, w) + [NextId(b, w)]])
  }

  function ByNumber(t: Table): string -> Rank {
    (id: string) => Rank(if id in t then t[id].number as real else 0.0, 0)
  }

  function Restored(b: Book, a: Attempt): Book {
    var id := MakeAttemptId(a.workload, a.number);
    var t := b.attempts[id := a];
    Book(t, b.byWorkload[a.workload :=
      if id in Ids(b, a.workload) then Ids(b, a.workload) else SortBy(ByNumber(t), Ids(b, a.workload) + [id])])
  }

  function Updated(b: Book, id: string, mark: Mark, now: real): Book {
    if id in b.attempts then b.(attempts := b.attempts[id := Marked(b.attempts[id], mark, now)]) else b
  }

  ghost predicate Coherent(t: Table) {
    forall id :: id in t ==> id == MakeAttemptId(t[id].workload, t[id].number)
  }

  // The list of a workload holds its attempts, in strictly increasing order of number.
  ghost predicate OrderedList(t: Table, w: string, ids: seq<string>) {
    && (forall id :: id in ids <==> id in t && t[id].workload == w)
    && (forall i, j :: 0 <= i < j < |ids| ==> t[ids[i]].number < t[ids[j]].number)
  }

  ghost predicate Ordered(b: Book) {
    Coherent(b.attempts) && forall w :: OrderedList(b.attempts, w, Ids(b, w))
  }

  // The rows that are not among those still to be loaded.
  function Beyond(rows: Table, todo: set<string>): Table {
    map id | id in rows && id !in todo :: rows[id]
  }

  lemma BeyondStep(rows: Table, todo: set<string>, id: string)
    requires id in todo && id in rows
    ensures Beyond(rows, todo - {id}) == Beyond(rows, todo)[id := rows[id]] && id !in Beyond(rows, todo)
  {
  }

  class AttemptRegistry {
    var attempts: Table
    var byWorkload: map<string, seq<string>>
    var store: Table

    function Contents(): Book
      reads this
    {
      Book(attempts, byWorkload)
    }

    constructor ()
      ensures Contents() == Book(map[], map[]) && store == map[]
    {
      attempts, byWorkload, store := map[], map[], map[];
    }

    // Restores every persisted row, in whatever order the store yields them.
    constructor FromStore(rows: Table)
      requires Coherent(rows)
      ensures Ordered(Contents()) && attempts == rows && store == rows
    {
      attempts, byWorkload, store := map[], map[], rows;
      new;
      var todo := rows.Keys;
      while todo != {}
        invariant todo <= rows.Keys && store == rows && Ordered(Contents())
        invariant attempts == Beyond(rows, todo)
        decreases |todo|
      {
        var id :| id in todo;
        BeyondStep(rows, todo, id);
        RestoreNext(id, rows[id]);
        todo := todo - {id};
      }
    }

    method CreateAttempt(w: string, worker: Option<string>, group: Option<Group>) returns (a: Attempt)
      modifies this
      ensures Contents() == Created(old(Contents()), w, worker, group)
      ensures a == NewAttempt(w, |Ids(old(Contents()), w)| + 1, worker, group)
      ensures store == old(store)[NextId(old(Contents()), w) := a]
    {
      var existing := if w in byWorkload then byWorkload[w] else [];
      var number := |existing| + 1;
      var id := MakeAttemptId(w, number);
      a := NewAttempt(w, number, worker, group);
      attempts := attempts[id := a];
      byWorkload := byWorkload[w := existing + [id]];
      store := store[id := a];
    }

    method Update(id: string, mark: Mark, now: real) returns (snapshot: Option<Attempt>)
      modifies this
      ensures Contents() == Updated(old(Contents()), id, mark, now)
      ensures attempts.Keys == old(attempts).Keys && byWorkload == old(byWorkload)
      ensures forall k :: k in attempts ==> attempts[k] == if k == id then Marked(old(attempts)[k], mark, now) else old(attempts)[k]
      ensures snapshot == if id in old(attempts) then Some(Marked(old(attempts)[id], mark, now)) else None
      ensures store == if id in old(attempts) then old(store)[id := snapshot.value] else old(store)
    {
      if id !in attempts {
        return None;
      }
      attempts := attempts[id := Marked(attempts[id], mark, now)];
      store := store[id := attempts[id]];
      snapshot := Some(attempts[id]);
    }

    method RestoreNext(id: string, a: Attempt)
      requires Ordered(Contents()) && id == MakeAttemptId(a.workload, a.number)
      modifies this`attempts, this`byWorkload
      ensures Ordered(Contents()) && attempts == old(attempts)[id := a]
    {
      RestoredKeepsOrdered(Contents(), a);
      RestoreAttempt(a);
    }

    method RestoreAttempt(a: Attempt)
      modifies this`attempts, this`byWorkload
      ensures Contents() == Restored(old(Contents()), a)
    {
      var id := MakeAttemptId(a.workload, a.number);
      attempts := attempts[id := a];
      if a.workload !in byWorkload { byWorkload := byWorkload[a.workload := []]; }
      if id !in byWorkload[a.workload] {
        var ids := byWorkload[a.workload] + [id];
        byWorkload := byWorkload[a.workload := SortBy(ByNumber(attempts), ids)];
      }
    }

    // The attempts a lost worker leaves behind, alone or as a member of a group.
    method ListRunningForWorker(worker: string) returns (ids: set<string>)
      ensures forall id :: id in ids <==>
        && id in attempts && attempts[id].status in {Assigned, Running}
        && (attempts[id].worker == Some(worker) || (attempts[id].group.Some? && worker in attempts[id].group.value.workers))
    {
      ids := set id | id in attempts && RunsOn(attempts[id], worker) && InFlight(attempts[id].status);
    }
  }

  predicate RunsOn(a: Attempt, worker: string) {
    a.worker == Some(worker) || (a.group.Some? && worker in a.group.value.workers)
  }

  // A new attempt is queued, with nothing recorded but its worker and its group.
  lemma CreatedMeans(b: Book, w: string, worker: Option<string>, group: Option<Group>)
    ensures var c := Created(b, w, worker, group);
      var id := w + "#" + FormatNat(|Ids(b, w)| + 1);
      && id in c.attempts && c.attempts[id].status == Queued && c.attempts[id].workload == w && c.attempts[id].number == |Ids(b, w)| + 1
      && c.attempts[id].worker == worker && c.attempts[id].group == group
      && c.attempts[id].assignedAt == c.attempts[id].startedAt == c.attempts[id].finishedAt == None
      && c.attempts[id].category == None && c.attempts[id].reason == None && c.attempts[id].result == None
      && Ids(c, w) == Ids(b, w) + [id] && (forall v :: v != w ==> Ids(c, v) == Ids(b, v))
      && (forall k :: k in c.attempts && k != id ==> k in b.attempts && c.attempts[k] == b.attempts[k])
      && (forall k :: k in b.attempts ==> k in c.attempts)
  {
  }

  // Restoring ----------------------------------------------------------------------------------

  lemma OrderedDistinct(t: Table, w: string, ids: seq<string>)
    requires OrderedList(t, w, ids)
    ensures Distinct(ids)
  {
  }

  lemma {:induction false} SortMakesOrdered(t: Table, w: string, ids: seq<string>)
    requires Coherent(t) && Distinct(ids) && forall id :: id in ids <==> id in t && t[id].workload == w
    ensures OrderedList(t, w, SortBy(ByNumber(t), ids))
  {
    var r := SortBy(ByNumber(t), ids);
    SortBySorts(ByNumber(t), ids);
    PermutationDistinct(ids, r);
    SortedIsOrdered(t, w, ids, r);
  }

  // Distinct attempts of one workload have distinct numbers, so sorted by number is strictly sorted.
  lemma {:induction false} SortedIsOrdered(t: Table, w: string, ids: seq<string>, r: seq<string>)
    requires Coherent(t) && forall id :: id in ids <==> id in t && t[id].workload == w
    requires multiset(r) == multiset(ids) && Distinct(r) && SortedBy(ByNumber(t), r)
    ensures OrderedList(t, w, r)
  {
    forall id ensures id in r <==> id in ids {
      assert id in multiset(r) <==> id in multiset(ids);
    }
    forall i, j | 0 <= i < j < |r| ensures t[r[i]].number < t[r[j]].number {
      assert r[i] in r && r[j] in r && r[i] != r[j];
      assert Precedes(ByNumber(t)(r[i]), ByNumber(t)(r[j]));
    }
  }

  lemma {:induction false} RestoredKeepsOrdered(b: Book, a: Attempt)
    requires Ordered(b)
    ensures Ordered(Restored(b, a))
  {
    var id := MakeAttemptId(a.workload, a.number);
    var t := b.attempts[id := a];
    var ids := Ids(b, a.workload);
    if id in b.attempts { AttemptIdInjective(b.attempts[id].workload, b.attempts[id].number, a.workload, a.number); }
    assert OrderedList(b.attempts, a.workload, ids);
    if id !in ids {
      OrderedDistinct(b.attempts, a.workload, ids);
      SortMakesOrdered(t, a.workload, ids + [id]);
    }
    forall w ensures OrderedList(t, w, Ids(Restored(b, a), w)) {
      assert OrderedList(b.attempts, w, Ids(b, w));
    }
  }

  // The order rows arrive in leaves no trace: the same attempts give the same lists.
  lemma RestoreOrderIrrelevant(a: Book, b: Book, w: string)
    requires Ordered(a) && Ordered(b) && a.attempts == b.attempts
    ensures Ids(a, w) == Ids(b, w)
  {
    var t, x, y := a.attempts, Ids(a, w), Ids(b, w);
    assert OrderedList(t, w, x) && OrderedList(t, w, y);
    DistinctPermutation(x, y);
    SortedUnique(ByNumber(t), x, y);
  }

  // Numbering ----------------------------------------------------------------------------------

  // Exactly the attempts 1 to n of every workload, listed in that order.
  ghost predicate Contiguous(b: Book) {
    && Coherent(b.attempts)
    && (forall w, i :: 0 <= i < |Ids(b, w)| ==> Ids(b, w)[i] == MakeAttemptId(w, i + 1))
    && (forall id :: id in b.attempts ==> 1 <= b.attempts[id].number <= |Ids(b, b.attempts[id].workload)|)
    && (forall w, i :: 0 <= i < |Ids(b, w)| ==> Ids(b, w)[i] in b.attempts)
  }

  lemma ContiguousNextIsNew(b: Book, w: string)
    requires Contiguous(b)
    ensures NextId(b, w) !in b.attempts
  {
    if NextId(b, w) in b.attempts {
      var a := b.attempts[NextId(b, w)];
      AttemptIdInjective(a.workload, a.number, w, |Ids(b, w)| + 1);
    }
  }

  datatype Event = Create(workload: string, worker: Option<string>, group: Option<Group>) | Mark(id: string, mark: Mark, now: real)

  function Apply(b: Book, e: Event): Book {
    match e
    case Create(w, worker, group) => Created(b, w, worker, group)
    case Mark(id, mark, now) => Updated(b, id, mark, now)
  }

  function Run(b: Book, es: seq<Event>): Book
    decreases |es|
  {
    if es == [] then b else Run(Apply(b, es[0]), es[1..])
  }

  function Creates(es: seq<Event>, w: string): nat {
    if es == [] then 0 else (if es[0].Create? && es[0].workload == w then 1 else 0) + Creates(es[1..], w)
  }

  // No attempt created in the run takes the identifier of an attempt there already is.
  predicate NeverOverwrites(b: Book, es: seq<Event>)
    decreases |es|
  {
    es == [] || ((es[0].Create? ==> NextId(b, es[0].workload) !in b.attempts) && NeverOverwrites(Apply(b, es[0]), es[1..]))
  }

  lemma CreatedKeepsContiguous(b: Book, w: string, worker: Option<string>, group: Option<Group>)
    requires Contiguous(b)
    ensures Contiguous(Created(b, w, worker, group))
  {
    ContiguousNextIsNew(b, w);
    var c := Created(b, w, worker, group);
    forall v, i | 0 <= i < |Ids(c, v)| ensures Ids(c, v)[i] == MakeAttemptId(v, i + 1) && Ids(c, v)[i] in c.attempts {
      if v == w && i == |Ids(b, w)| {
      } else {
        assert Ids(c, v)[i] == Ids(b, v)[i];
      }
    }
  }

  lemma ApplyKeepsContiguous(b: Book, e: Event)
    requires Contiguous(b)
    ensures Contiguous(Apply(b, e))
  {
    match e {
      case Create(w, worker, group) => CreatedKeepsContiguous(b, w, worker, group);
      case Mark(id, mark, now) =>
        var c := Updated(b, id, mark, now);
        assert forall w :: Ids(c, w) == Ids(b, w);
    }
  }

  // From a book without gaps every run numbers the attempts of each workload 1, 2, 3, … and replaces none.
  lemma {:induction false} NumbersFollow(b: Book, es: seq<Event>, w: string)
    requires Contiguous(b)
    ensures NeverOverwrites(b, es) && Contiguous(Run(b, es))
    ensures |Ids(Run(b, es), w)| == |Ids(b, w)| + Creates(es, w)
    decreases |es|
  {
    if es != [] {
      if es[0].Create? { ContiguousNextIsNew(b, es[0].workload); }
      ApplyKeepsContiguous(b, es[0]);
      NumbersFollow(Apply(b, es[0]), es[1..], w);
    }
  }

  lemma {:induction false} NumbersAtLeastPlace(t: Table, w: string, ids: seq<string>, i: nat)
    requires OrderedList(t, w, ids) && i < |ids| && forall id :: id in ids ==> t[id].number >= 1
    ensures t[ids[i]].number >= i + 1
  {
    if i > 0 {
      NumbersAtLeastPlace(t, w, ids, i - 1);
    } else {
      assert ids[0] in ids;
    }
  }

  lemma {:induction false} NumbersAtMostPlace(t: Table, w: string, ids: seq<string>, i: nat)
    requires OrderedList(t, w, ids) && i < |ids| && forall id :: id in ids ==> t[id].number <= |ids|
    ensures t[ids[i]].number <= i + 1
    decreases |ids| - i
  {
    if i < |ids| - 1 {
      NumbersAtMostPlace(t, w, ids, i + 1);
    } else {
      assert ids[i] in ids;
    }
  }

  predicate WithinCount(b: Book, id: string)
    requires id in b.attempts
  {
    b.attempts[id].number <= |Ids(b, b.attempts[id].workload)|
  }

  // Restored attempts are free of gaps exactly when no number exceeds the number of attempts.
  lemma RestoredContiguousIff(b: Book)
    requires Ordered(b) && forall id :: id in b.attempts ==> b.attempts[id].number >= 1
    ensures Contiguous(b) <==> forall id :: id in b.attempts ==> WithinCount(b, id)
  {
    if forall id :: id in b.attempts ==> WithinCount(b, id) {
      forall w, i | 0 <= i < |Ids(b, w)| ensures Ids(b, w)[i] in b.attempts && Ids(b, w)[i] == MakeAttemptId(w, i + 1) {
        assert OrderedList(b.attempts, w, Ids(b, w));
        assert Ids(b, w)[i] in Ids(b, w);
        NumbersAtLeastPlace(b.attempts, w, Ids(b, w), i);
        NumbersAtMostPlace(b.attempts, w, Ids(b, w), i);
      }
    }
  }

  // Room for the creations of the run: no existing number lies among the ones they will take.
  predicate RoomFor(b: Book, es: seq<Event>, id: string)
    requires id in b.attempts
  {
    WithinCount(b, id) || b.attempts[id].number > |Ids(b, b.attempts[id].workload)| + Creates(es, b.attempts[id].workload)
  }

  lemma RoomAfterCreate(b: Book, e: Event, es: seq<Event>)
    requires Coherent(b.attempts) && e.Create? && NextId(b, e.workload) !in b.attempts
    ensures Coherent(Apply(b, e).attempts)
    ensures (forall id :: id in b.attempts ==> RoomFor(b, [e] + es, id)) <==>
            (forall id :: id in Apply(b, e).attempts ==> RoomFor(Apply(b, e), es, id))
  {
    var c, w := Apply(b, e), e.workload;
    assert ([e] + es)[1..] == es;
    forall id | id in b.attempts ensures RoomFor(b, [e] + es, id) <==> RoomFor(c, es, id) {
      var v := b.attempts[id].workload;
      assert Creates([e] + es, v) == Creates(es, v) + if v == w then 1 else 0;
      assert v == w ==> b.attempts[id].number != |Ids(b, w)| + 1;
    }
    assert RoomFor(c, es, NextId(b, w));
  }

  lemma RoomAfterMark(b: Book, e: Event, es: seq<Event>)
    requires e.Mark?
    ensures Apply(b, e).attempts.Keys == b.attempts.Keys
    ensures forall id :: id in b.attempts ==> (RoomFor(b, [e] + es, id) <==> RoomFor(Apply(b, e), es, id))
  {
    assert ([e] + es)[1..] == es;
    forall id | id in b.attempts ensures RoomFor(b, [e] + es, id) <==> RoomFor(Apply(b, e), es, id) {
      assert Creates([e] + es, b.attempts[id].workload) == Creates(es, b.attempts[id].workload);
    }
  }

  // Exactly when a run of creations and marks replaces no attempt.
  lemma {:induction false} OverwriteIff(b: Book, es: seq<Event>)
    requires Coherent(b.attempts)
    ensures NeverOverwrites(b, es) <==> forall id :: id in b.attempts ==> RoomFor(b, es, id)
    decreases |es|
  {
    if es != [] {
      var e, rest := es[0], es[1..];
      assert es == [e] + rest;
      if e.Mark? {
        OverwriteIff(Apply(b, e), rest);
        RoomAfterMark(b, e, rest);
      } else if NextId(b, e.workload) in b.attempts {
        var a := b.attempts[NextId(b, e.workload)];
        AttemptIdInjective(a.workload, a.number, e.workload, |Ids(b, e.workload)| + 1);
        assert !RoomFor(b, es, NextId(b, e.workload));
      } else {
        RoomAfterCreate(b, e, rest);
        OverwriteIff(Apply(b, e), rest);
      }
    }
  }

  function Repeat(e: Event, n: nat): (es: seq<Event>)
    ensures |es| == n && forall i :: 0 <= i < n ==> es[i] == e
  {
    seq(n, i => e)
  }

  lemma {:induction false} CreatesRepeat(e: Event, n: nat)
    requires e.Create?
    ensures Creates(Repeat(e, n), e.workload) == n
  {
    if n > 0 {
      CreatesRepeat(e, n - 1);
      assert Repeat(e, n)[1..] == Repeat(e, n - 1);
    }
  }

  // A book is safe for every future run exactly when no number exceeds the number of attempts.
  lemma SafeForeverIff(b: Book)
    requires Coherent(b.attempts)
    ensures (forall es :: NeverOverwrites(b, es)) <==> forall id :: id in b.attempts ==> WithinCount(b, id)
  {
    if forall id :: id in b.attempts ==> WithinCount(b, id) {
      forall es ensures NeverOverwrites(b, es) {
        OverwriteIff(b, es);
      }
    }
    if id :| id in b.attempts && !WithinCount(b, id) {
      var a := b.attempts[id];
      var e := Create(a.workload, None, None);
      CreatesRepeat(e, a.number);
      OverwriteIff(b, Repeat(e, a.number));
      assert !RoomFor(b, Repeat(e, a.number), id);
      assert !NeverOverwrites(b, Repeat(e, a.number));
    }
  }

  // Attempts 1 and 3 restored, the next attempt is numbered 3 and the finished one is lost.
  lemma {:induction false} GapLosesAnAttempt(first: Attempt, third: Attempt)
    requires first.workload == third.workload && first.number == 1 && third.number == 3 && third.status == Succeeded
    ensures var b := Restored(Restored(Book(map[], map[]), first), third);
      var id := MakeAttemptId(third.workload, 3);
      b.attempts[id] == third && Created(b, third.workload, None, None).attempts[id].status == Queued
  {
    var w := third.workload;
    var one := Restored(Book(map[], map[]), first);
    assert Ids(one, w) == SortBy(ByNumber(one.attempts), [] + [MakeAttemptId(w, 1)]);
    assert |Ids(one, w)| == 1;
    if MakeAttemptId(w, 3) in Ids(one, w) {
      assert Ordered(Book(map[], map[]));
      RestoredKeepsOrdered(Book(map[], map[]), first);
      assert OrderedList(one.attempts, w, Ids(one, w));
      AttemptIdInjective(w, 1, w, 3);
    }
    assert |Ids(Restored(one, third), w)| == 2;
  }
}
