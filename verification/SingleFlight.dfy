/** Duplicate suppression for concurrent callers that share a key.

The coroutines of the program run on one event loop, so the code between two suspension
points is one atomic step. A caller is suspended while it waits for the lock, while its
operation runs, while it waits for another caller's result, and while it waits for the lock
again to clean up; it may be cancelled at each of those points. */
module SingleFlight {
  import opened Wrappers

  datatype Outcome = Returned(value: nat) | Raised(error: nat) | Cancelled

  // A future, together with the key it was created for.
  datatype Flight = Flight(key: nat, outcome: Option<Outcome>)

  datatype Caller =
    | Entering(key: nat)
    | Running(key: nat, flight: nat)
    | Cleaning(key: nat, flight: nat, outcome: Outcome)
    | Following(key: nat, flight: nat)
    | Finished(outcome: Outcome, shared: bool)

  datatype State = State(flights: map<nat, nat>, futures: seq<Flight>, callers: map<nat, Caller>) {
    predicate Pending(f: nat) {
      f < |futures| && futures[f].outcome.None?
    }

    predicate Runs(c: nat, f: nat) {
      c in callers && callers[c].Running? && callers[c].flight == f
    }
  }

  datatype Event =
    | Call(caller: nat, key: nat)
    | Enter(caller: nat)
    | Complete(caller: nat, outcome: Outcome)
    | CleanUp(caller: nat)
    | Deliver(caller: nat)
    | Cancel(caller: nat)

  const INITIAL := State(map[], [], map[])

  predicate Enabled(s: State, e: Event) {
    match e
    case Call(c, _) => c !in s.callers
    case Enter(c) => c in s.callers && s.callers[c].Entering?
    case Complete(c, _) => c in s.callers && s.callers[c].Running? && s.callers[c].flight < |s.futures|
    case CleanUp(c) => c in s.callers && s.callers[c].Cleaning?
    case Deliver(c) =>
      c in s.callers && s.callers[c].Following? && s.callers[c].flight < |s.futures| && !s.Pending(s.callers[c].flight)
    case Cancel(c) =>
      // A running operation is cancelled by completing with Cancelled.
      c in s.callers && (s.callers[c].Entering? || s.callers[c].Following? || s.callers[c].Cleaning?)
  }

  function Apply(s: State, e: Event): State
    requires Enabled(s, e)
  {
    match e
    case Call(c, key) => s.(callers := s.callers[c := Entering(key)])
    case Enter(c) =>
      var key := s.callers[c].key;
      if key in s.flights && s.Pending(s.flights[key]) then
        s.(callers := s.callers[c := Following(key, s.flights[key])])
      else
        State(s.flights[key := |s.futures|], s.futures + [Flight(key, None)], s.callers[c := Running(key, |s.futures|)])
    case Complete(c, o) =>
      var f := s.callers[c].flight;
      var futures := if s.Pending(f) then s.futures[f := s.futures[f].(outcome := Some(o))] else s.futures;
      s.(futures := futures, callers := s.callers[c := Cleaning(s.callers[c].key, f, o)])
    case CleanUp(c) =>
      var w := s.callers[c];
      var flights := if w.key in s.flights && s.flights[w.key] == w.flight then s.flights - {w.key} else s.flights;
      s.(flights := flights, callers := s.callers[c := Finished(w.outcome, false)])
    case Deliver(c) => s.(callers := s.callers[c := Finished(s.futures[s.callers[c].flight].outcome.value, true)])
    case Cancel(c) => s.(callers := s.callers[c := Finished(Cancelled, s.callers[c].Following?)])
  }

  // The object -----------------------------------------------------------------------------

  class SingleFlight {
    var flights: map<nat, nat>
    var futures: seq<Flight>
    var callers: map<nat, Caller>

    function Now(): State
      reads this
    {
      State(flights, futures, callers)
    }

    constructor ()
      ensures Now() == INITIAL
    {
      flights, futures, callers := map[], [], map[];
    }

    method Arrive(c: nat, key: nat)
      requires Enabled(Now(), Call(c, key))
      modifies this`callers
      ensures Now() == Apply(old(Now()), Call(c, key))
    {
      callers := callers[c := Entering(key)];
    }

    // The critical section that decides between leading and following.
    method RunShared(c: nat)
      requires Enabled(Now(), Enter(c))
      modifies this
      ensures Now() == Apply(old(Now()), Enter(c))
    {
      var key := callers[c].key;
      var isOwner, fut := true, |futures|;
      if key in flights && flights[key] < |futures| && futures[flights[key]].outcome.None? {
        isOwner, fut := false, flights[key];
      } else {
        futures := futures + [Flight(key, None)];
        flights := flights[key := fut];
      }
      callers := callers[c := if isOwner then Running(key, fut) else Following(key, fut)];
    }

    // The operation ends; its outcome is published unless the future is already done.
    method Execute(c: nat, outcome: Outcome)
      requires Enabled(Now(), Complete(c, outcome))
      modifies this
      ensures Now() == Apply(old(Now()), Complete(c, outcome))
    {
      var fut := callers[c].flight;
      if futures[fut].outcome.None? {
        futures := futures[fut := futures[fut].(outcome := Some(outcome))];
      }
      callers := callers[c := Cleaning(callers[c].key, fut, outcome)];
    }

    method Finalise(c: nat)
      requires Enabled(Now(), CleanUp(c))
      modifies this
      ensures Now() == Apply(old(Now()), CleanUp(c))
    {
      var w := callers[c];
      if w.key in flights && flights[w.key] == w.flight {
        flights := flights - {w.key};
      }
      callers := callers[c := Finished(w.outcome, false)];
    }

    method Resume(c: nat)
      requires Enabled(Now(), Deliver(c))
      modifies this`callers
      ensures Now() == Apply(old(Now()), Deliver(c))
    {
      callers := callers[c := Finished(futures[callers[c].flight].outcome.value, true)];
    }

    method Interrupt(c: nat)
      requires Enabled(Now(), Cancel(c))
      modifies this`callers
      ensures Now() == Apply(old(Now()), Cancel(c))
    {
      callers := callers[c := Finished(Cancelled, callers[c].Following?)];
    }
  }

  // The protocol invariant -------------------------------------------------------------------

  ghost predicate Inv(s: State) {
    && (forall c :: c in s.callers && s.callers[c].Running? ==>
      && s.Pending(s.callers[c].flight)
      && s.futures[s.callers[c].flight].key == s.callers[c].key
      && s.callers[c].key in s.flights && s.flights[s.callers[c].key] == s.callers[c].flight)
    && (forall c, d, f :: s.Runs(c, f) && s.Runs(d, f) ==> c == d)
    && Owned(s)
    && (forall k :: k in s.flights ==> s.flights[k] < |s.futures| && s.futures[s.flights[k]].key == k)
    && (forall c :: c in s.callers && s.callers[c].Following? ==>
      s.callers[c].flight < |s.futures| && s.futures[s.callers[c].flight].key == s.callers[c].key)
    && (forall c :: c in s.callers && s.callers[c].Cleaning? ==>
      s.callers[c].flight < |s.futures| && s.futures[s.callers[c].flight] == Flight(s.callers[c].key, Some(s.callers[c].outcome)))
  }

  ghost predicate Owned(s: State) {
    forall f :: s.Pending(f) ==> exists c :: s.Runs(c, f)
  }

  // A step that neither starts nor ends an operation changes no ownership.
  lemma SameRunners(s: State, t: State, c: nat)
    requires c in t.callers && t.callers == s.callers[c := t.callers[c]] && t.futures == s.futures
    requires !t.callers[c].Running? && (c in s.callers ==> !s.callers[c].Running?)
    requires Owned(s)
    ensures forall d, f :: t.Runs(d, f) <==> s.Runs(d, f)
    ensures Owned(t)
  {
    forall f | t.Pending(f) ensures exists d :: t.Runs(d, f) {
      assert s.Pending(f);
      var d :| s.Runs(d, f);
      assert t.Runs(d, f);
    }
  }

  lemma InvCall(s: State, c: nat, key: nat)
    requires Inv(s) && Enabled(s, Call(c, key))
    ensures Inv(Apply(s, Call(c, key)))
  {
    SameRunners(s, Apply(s, Call(c, key)), c);
  }

  lemma InvEnter(s: State, c: nat)
    requires Inv(s) && Enabled(s, Enter(c))
    ensures Inv(Apply(s, Enter(c)))
  {
    var t := Apply(s, Enter(c));
    if t.callers[c].Following? {
      SameRunners(s, t, c);
    } else {
      forall d, f ensures t.Runs(d, f) <==> (d == c && f == |s.futures|) || s.Runs(d, f) {}
      assert t.Runs(c, |s.futures|);
      forall f | t.Pending(f) ensures exists d :: t.Runs(d, f) {
        if f != |s.futures| {
          assert s.Pending(f);
          var d :| s.Runs(d, f);
          assert t.Runs(d, f);
        }
      }
      forall d | d in t.callers && t.callers[d].Running?
        ensures t.callers[d].key in t.flights && t.flights[t.callers[d].key] == t.callers[d].flight
      {
      }
    }
  }

  lemma InvComplete(s: State, c: nat, o: Outcome)
    requires Inv(s) && Enabled(s, Complete(c, o))
    ensures Inv(Apply(s, Complete(c, o)))
  {
    var t := Apply(s, Complete(c, o));
    var f0 := s.callers[c].flight;
    assert s.Runs(c, f0);
    forall d, f ensures t.Runs(d, f) <==> d != c && s.Runs(d, f) {}
    forall f | t.Pending(f) ensures exists d :: t.Runs(d, f) {
      assert f != f0 && s.Pending(f);
      var d :| s.Runs(d, f);
      assert t.Runs(d, f);
    }
    forall d | d in t.callers && t.callers[d].Running? ensures t.Pending(t.callers[d].flight) {
      assert s.Runs(d, s.callers[d].flight);
    }
  }

  lemma InvCleanUp(s: State, c: nat)
    requires Inv(s) && Enabled(s, CleanUp(c))
    ensures Inv(Apply(s, CleanUp(c)))
  {
    var t := Apply(s, CleanUp(c));
    SameRunners(s, t, c);
    forall d | d in t.callers && t.callers[d].Running?
      ensures t.callers[d].key in t.flights && t.flights[t.callers[d].key] == t.callers[d].flight
    {
      assert s.Pending(s.callers[d].flight);
    }
  }

  lemma InvLeave(s: State, e: Event)
    requires Inv(s) && Enabled(s, e) && (e.Deliver? || e.Cancel?)
    ensures Inv(Apply(s, e))
  {
    SameRunners(s, Apply(s, e), e.caller);
  }

  lemma InvStep(s: State, e: Event)
    requires Inv(s) && Enabled(s, e)
    ensures Inv(Apply(s, e))
  {
    match e
    case Call(c, key) => InvCall(s, c, key);
    case Enter(c) => InvEnter(s, c);
    case Complete(c, o) => InvComplete(s, c, o);
    case CleanUp(c) => InvCleanUp(s, c);
    case Deliver(c) => InvLeave(s, e);
    case Cancel(c) => InvLeave(s, e);
  }

  // Runs -----------------------------------------------------------------------------------

  predicate IsRun(s: State, events: seq<Event>)
    decreases |events|
  {
    events == [] || (Enabled(s, events[0]) && IsRun(Apply(s, events[0]), events[1..]))
  }

  function After(s: State, events: seq<Event>): State
    requires IsRun(s, events)
    decreases |events|
  {
    if events == [] then s else After(Apply(s, events[0]), events[1..])
  }

  lemma {:induction false} InvRun(s: State, events: seq<Event>)
    requires Inv(s) && IsRun(s, events)
    ensures Inv(After(s, events))
    decreases |events|
  {
    if events != [] {
      InvStep(s, events[0]);
      InvRun(Apply(s, events[0]), events[1..]);
    }
  }

  // In every interleaving at most one operation per key is unfinished.
  lemma OneOperationPerKey(events: seq<Event>, c: nat, d: nat)
    requires IsRun(INITIAL, events)
    requires var s := After(INITIAL, events);
      c in s.callers && d in s.callers && s.callers[c].Running? && s.callers[d].Running? && s.callers[c].key == s.callers[d].key
    ensures c == d
  {
    InvRun(INITIAL, events);
    var s := After(INITIAL, events);
    var f := s.callers[c].flight;
    assert s.Runs(c, f) && s.Runs(d, f);
  }

  // A caller arriving while an operation for its key is unfinished follows that very operation.
  lemma ArrivalsCoalesce(events: seq<Event>, leader: nat, c: nat)
    requires IsRun(INITIAL, events)
    requires var s := After(INITIAL, events);
      leader in s.callers && s.callers[leader].Running? && Enabled(s, Enter(c)) && s.callers[c].key == s.callers[leader].key
    ensures var s := After(INITIAL, events);
      Apply(s, Enter(c)) == s.(callers := s.callers[c := Following(s.callers[c].key, s.callers[leader].flight)])
  {
    InvRun(INITIAL, events);
  }

  // A caller starts an operation only if none is unfinished for its key.
  lemma LeadersStartFresh(events: seq<Event>, c: nat, d: nat)
    requires IsRun(INITIAL, events)
    requires var s := After(INITIAL, events);
      Enabled(s, Enter(c)) && Apply(s, Enter(c)).callers[c].Running? && d in s.callers && s.callers[d].Running?
    ensures var s := After(INITIAL, events); s.callers[d].key != s.callers[c].key
  {
    InvRun(INITIAL, events);
  }

  // No follower waits for a result nobody will produce.
  lemma NoFollowerIsStranded(events: seq<Event>, c: nat)
    requires IsRun(INITIAL, events)
    requires var s := After(INITIAL, events); c in s.callers && s.callers[c].Following?
    ensures var s := After(INITIAL, events);
      Enabled(s, Deliver(c)) || exists d :: s.Runs(d, s.callers[c].flight) && s.callers[d].key == s.callers[c].key
  {
    InvRun(INITIAL, events);
  }

  // In every run, a caller that cleans up leaves the entry of everyone still running in place: late
  // arrivals keep finding the flight that is unfinished.
  lemma CleanUpSparesNewerFlights(events: seq<Event>, c: nat, d: nat)
    requires IsRun(INITIAL, events) && Enabled(After(INITIAL, events), CleanUp(c))
    requires var s := After(INITIAL, events); d in s.callers && s.callers[d].Running?
    ensures var s := After(INITIAL, events);
      var t := Apply(s, CleanUp(c));
      var key := s.callers[d].key;
      d != c && t.callers[d] == s.callers[d] && key in t.flights && t.flights[key] == s.callers[d].flight && t.Pending(t.flights[key])
  {
    InvRun(INITIAL, events);
    var s := After(INITIAL, events);
    InvStep(s, CleanUp(c));
  }

  // An entry that outlives its owner is finished, so it is replaced and never followed.
  lemma {:induction false} DoneFlightsStayDone(s: State, events: seq<Event>, f: nat)
    requires Inv(s) && IsRun(s, events) && f < |s.futures| && !s.Pending(f)
    ensures f < |After(s, events).futures| && After(s, events).futures[f] == s.futures[f]
    decreases |events|
  {
    if events != [] {
      InvStep(s, events[0]);
      DoneFlightsStayDone(Apply(s, events[0]), events[1..], f);
    }
  }

  // The step at which a pending flight is decided is the completion of its owner.
  lemma {:induction false} DecidedByOwner(s: State, events: seq<Event>, f: nat, o: Outcome) returns (i: nat, owner: nat)
    requires Inv(s) && IsRun(s, events) && s.Pending(f)
    requires f < |After(s, events).futures| && After(s, events).futures[f].outcome == Some(o)
    ensures i < |events| && events[i] == Complete(owner, o)
    ensures s.Runs(owner, f)
    decreases |events|
  {
    assert events != [];
    var t := Apply(s, events[0]);
    InvStep(s, events[0]);
    if t.Pending(f) {
      i, owner := DecidedByOwner(t, events[1..], f, o);
      i := i + 1;
      OwnerWasThere(s, events[0], owner, f);
    } else {
      i, owner := 0, events[0].caller;
      DoneFlightsStayDone(t, events[1..], f);
    }
  }

  lemma OwnerWasThere(s: State, e: Event, owner: nat, f: nat)
    requires Inv(s) && Enabled(s, e) && s.Pending(f) && Apply(s, e).Runs(owner, f)
    ensures s.Runs(owner, f)
  {
  }

  // A follower receives exactly the outcome of the flight that was unfinished when it joined.
  lemma FollowerGetsItsFlightsOutcome(s: State, c: nat, events: seq<Event>) returns (i: nat, owner: nat)
    requires Inv(s) && c in s.callers && s.callers[c].Following? && s.Pending(s.callers[c].flight)
    requires IsRun(s, events) && Enabled(After(s, events), Deliver(c)) && After(s, events).callers[c] == s.callers[c]
    ensures s.Runs(owner, s.callers[c].flight) && s.callers[owner].key == s.callers[c].key
    ensures i < |events| && events[i].Complete? && events[i].caller == owner
    ensures Apply(After(s, events), Deliver(c)).callers[c] == Finished(events[i].outcome, true)
  {
    var f := s.callers[c].flight;
    var o := After(s, events).futures[f].outcome.value;
    i, owner := DecidedByOwner(s, events, f, o);
  }

  // What a caller ends with -------------------------------------------------------------------

  // A caller that is done stays done with what it got, and takes part in no further event.
  lemma {:induction false} FinishedStays(s: State, events: seq<Event>, c: nat)
    requires IsRun(s, events) && c in s.callers && s.callers[c].Finished?
    ensures c in After(s, events).callers && After(s, events).callers[c] == s.callers[c]
    ensures forall i :: 0 <= i < |events| ==> events[i].caller != c
    decreases |events|
  {
    if events != [] {
      assert Enabled(s, events[0]);
      FinishedStays(Apply(s, events[0]), events[1..], c);
      forall i | 0 <= i < |events| ensures events[i].caller != c {
        assert i > 0 ==> events[i] == events[1..][i - 1];
      }
    }
  }

  lemma {:induction false} CleanUpHandsOver(s: State, events: seq<Event>, c: nat, j: nat)
    requires IsRun(s, events) && c in s.callers && s.callers[c].Cleaning? && j < |events| && events[j] == CleanUp(c)
    ensures c in After(s, events).callers && After(s, events).callers[c] == Finished(s.callers[c].outcome, false)
    decreases |events|
  {
    var t := Apply(s, events[0]);
    assert j > 0 ==> events[j] == events[1..][j - 1];
    if events[0].caller == c {
      FinishedStays(t, events[1..], c);
    } else {
      CleanUpHandsOver(t, events[1..], c, j - 1);
    }
  }

  // Whoever runs the operation gets its very outcome, unshared, and keeps it.
  lemma {:induction false} LeaderGetsItsOwnOutcome(s: State, events: seq<Event>, c: nat, i: nat, o: Outcome, j: nat)
    requires IsRun(s, events) && c in s.callers && s.callers[c].Running?
    requires i < |events| && events[i] == Complete(c, o) && j < |events| && events[j] == CleanUp(c)
    ensures i < j && c in After(s, events).callers && After(s, events).callers[c] == Finished(o, false)
    decreases |events|
  {
    var t := Apply(s, events[0]);
    assert i > 0 ==> events[i] == events[1..][i - 1];
    assert j > 0 ==> events[j] == events[1..][j - 1];
    if i == 0 {
      CleanUpHandsOver(t, events[1..], c, j - 1);
    } else if events[0].caller == c {
      CompletesOnce(t, events[1..], c);
    } else {
      LeaderGetsItsOwnOutcome(t, events[1..], c, i - 1, o, j - 1);
    }
  }

  // A caller that cleans up or is done completes nothing more.
  lemma {:induction false} CompletesOnce(s: State, events: seq<Event>, c: nat)
    requires IsRun(s, events) && c in s.callers && (s.callers[c].Cleaning? || s.callers[c].Finished?)
    ensures forall i :: 0 <= i < |events| ==> !(events[i].Complete? && events[i].caller == c)
    decreases |events|
  {
    if events != [] {
      assert Enabled(s, events[0]);
      CompletesOnce(Apply(s, events[0]), events[1..], c);
      forall i | 0 <= i < |events| ensures !(events[i].Complete? && events[i].caller == c) {
        assert i > 0 ==> events[i] == events[1..][i - 1];
      }
    }
  }

  // Whoever calls for a key takes part for that key, until it is done.
  lemma {:induction false} CallersKeepTheirKey(s: State, events: seq<Event>, c: nat, key: nat)
    requires IsRun(s, events) && ((c in s.callers && (s.callers[c].Finished? || s.callers[c].key == key)) || (c !in s.callers && Call(c, key) in events))
    ensures c in After(s, events).callers
    ensures After(s, events).callers[c].Finished? || After(s, events).callers[c].key == key
    decreases |events|
  {
    if events != [] {
      assert Enabled(s, events[0]);
      if c !in s.callers {
        assert Call(c, key) == events[0] || Call(c, key) in events[1..];
        if events[0].Call? && events[0].caller == c && events[0].key != key {
          CalledOnce(Apply(s, events[0]), events[1..], c, key);
        }
      }
      CallersKeepTheirKey(Apply(s, events[0]), events[1..], c, key);
    }
  }

  lemma {:induction false} CalledOnce(s: State, events: seq<Event>, c: nat, key: nat)
    requires IsRun(s, events) && c in s.callers
    ensures Call(c, key) !in events
    decreases |events|
  {
    if events != [] {
      assert Enabled(s, events[0]);
      CalledOnce(Apply(s, events[0]), events[1..], c, key);
      assert forall e :: e in events ==> e == events[0] || e in events[1..];
    }
  }

  // A caller that is cancelled, while it waits for the lock, for a result or to clean up, ends cancelled.
  lemma {:induction false} CancelledEndsCancelled(s: State, events: seq<Event>, c: nat)
    requires IsRun(s, events) && Cancel(c) in events
    ensures c in After(s, events).callers && After(s, events).callers[c].Finished? && After(s, events).callers[c].outcome == Cancelled
    decreases |events|
  {
    if events[0] == Cancel(c) {
      FinishedStays(Apply(s, events[0]), events[1..], c);
    } else {
      assert Cancel(c) in events[1..];
      CancelledEndsCancelled(Apply(s, events[0]), events[1..], c);
    }
  }

  // In some state of the run the caller follows a flight.
  predicate Joins(s: State, events: seq<Event>, c: nat)
    requires IsRun(s, events)
    decreases |events|
  {
    (c in s.callers && s.callers[c].Following?) || (events != [] && Joins(Apply(s, events[0]), events[1..], c))
  }

  lemma {:induction false} NeverJoinsLater(s: State, events: seq<Event>, c: nat)
    requires IsRun(s, events) && c in s.callers && (s.callers[c].Finished? || s.callers[c].Cleaning? || s.callers[c].Running?)
    ensures !Joins(s, events, c)
    decreases |events|
  {
    if events != [] {
      assert Enabled(s, events[0]);
      NeverJoinsLater(Apply(s, events[0]), events[1..], c);
    }
  }

  // A result is reported as shared exactly when the caller followed someone else's flight: not for
  // callers that ran the operation themselves or were cancelled before they joined.
  lemma {:induction false} SharedIff(s: State, events: seq<Event>, c: nat)
    requires IsRun(s, events) && (c in s.callers ==> !s.callers[c].Finished?)
    requires c in After(s, events).callers && After(s, events).callers[c].Finished?
    ensures After(s, events).callers[c].shared <==> Joins(s, events, c)
    decreases |events|
  {
    var t := Apply(s, events[0]);
    if c in t.callers && t.callers[c].Finished? {
      FinishedStays(t, events[1..], c);
      NeverJoinsLater(t, events[1..], c);
    } else {
      SharedIff(t, events[1..], c);
      if c in s.callers && s.callers[c].Following? {
        assert t.callers[c].Following?;
      }
    }
  }

  // The table --------------------------------------------------------------------------------------

  // Every entry belongs to a caller that runs its operation or has yet to clean up after it.
  ghost predicate Attended(s: State) {
    forall k :: k in s.flights ==> exists c :: Attends(s, c, s.flights[k])
  }

  predicate Attends(s: State, c: nat, f: nat) {
    c in s.callers && (s.callers[c].Running? || s.callers[c].Cleaning?) && s.callers[c].flight == f
  }

  // No caller is cancelled while it waits to clean up.
  predicate CleanUpsUndisturbed(s: State, events: seq<Event>)
    requires IsRun(s, events)
    decreases |events|
  {
    events == [] || (!(events[0].Cancel? && s.callers[events[0].caller].Cleaning?) && CleanUpsUndisturbed(Apply(s, events[0]), events[1..]))
  }

  lemma AttendedStep(s: State, e: Event)
    requires Inv(s) && Attended(s) && Enabled(s, e) && !(e.Cancel? && s.callers[e.caller].Cleaning?)
    ensures Attended(Apply(s, e))
  {
    var t := Apply(s, e);
    forall k | k in t.flights ensures exists c :: Attends(t, c, t.flights[k]) {
      if k in s.flights && t.flights[k] == s.flights[k] {
        var c :| Attends(s, c, s.flights[k]);
        assert Attends(t, c, t.flights[k]);
      } else {
        assert Attends(t, e.caller, t.flights[k]);
      }
    }
  }

  lemma {:induction false} AttendedRun(s: State, events: seq<Event>)
    requires Inv(s) && Attended(s) && IsRun(s, events) && CleanUpsUndisturbed(s, events)
    ensures Attended(After(s, events))
    decreases |events|
  {
    if events != [] {
      AttendedStep(s, events[0]);
      InvStep(s, events[0]);
      AttendedRun(Apply(s, events[0]), events[1..]);
    }
  }

  // When everyone is done the table is empty again, unless someone was cancelled while waiting to clean up.
  lemma NothingLeaks(events: seq<Event>)
    requires IsRun(INITIAL, events) && CleanUpsUndisturbed(INITIAL, events)
    requires forall c :: c in After(INITIAL, events).callers ==> After(INITIAL, events).callers[c].Finished?
    ensures After(INITIAL, events).flights == map[]
  {
    AttendedRun(INITIAL, events);
    var s := After(INITIAL, events);
    assert forall c, f :: !Attends(s, c, f);
    assert forall k :: k !in s.flights;
  }

  // A clean-up that is cancelled leaves its entry behind; the next caller starts afresh all the same.
  lemma CancelledCleanUpLeavesEntry(c: nat, d: nat, key: nat, o: Outcome)
    requires c != d
    ensures var events := [Call(c, key), Enter(c), Complete(c, o), Cancel(c)];
      && IsRun(INITIAL, events) && After(INITIAL, events).flights == map[key := 0]
      && var more := events + [Call(d, key), Enter(d)];
         IsRun(INITIAL, more) && d in After(INITIAL, more).callers && After(INITIAL, more).callers[d] == Running(key, 1)
  {
    var none: seq<Event> := [];
    RunAppend(INITIAL, none, Call(c, key));
    var called := none + [Call(c, key)];
    RunAppend(INITIAL, called, Enter(c));
    var entered := called + [Enter(c)];
    RunAppend(INITIAL, entered, Complete(c, o));
    var completed := entered + [Complete(c, o)];
    RunAppend(INITIAL, completed, Cancel(c));
    var cancelled := completed + [Cancel(c)];
    assert cancelled == [Call(c, key), Enter(c), Complete(c, o), Cancel(c)];
    RunAppend(INITIAL, cancelled, Call(d, key));
    RunAppend(INITIAL, cancelled + [Call(d, key)], Enter(d));
    assert cancelled + [Call(d, key)] + [Enter(d)] == cancelled + [Call(d, key), Enter(d)];
  }

  lemma {:induction false} RunAppend(s: State, events: seq<Event>, e: Event)
    requires IsRun(s, events) && Enabled(After(s, events), e)
    ensures IsRun(s, events + [e]) && After(s, events + [e]) == Apply(After(s, events), e)
    decreases |events|
  {
    if events == [] {
      assert events + [e] == [e] && [e][1..] == [];
    } else {
      assert (events + [e])[1..] == events[1..] + [e];
      RunAppend(Apply(s, events[0]), events[1..], e);
    }
  }
}
