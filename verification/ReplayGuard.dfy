/** The replay guard: a pruned table of nonces against the whole history of calls. */
module ReplayGuard {
  datatype Call = Call(nonce: string, time: real)

  type Table = map<string, real>

  function Pruned(t: Table, now: real): Table {
    map n | n in t && t[n] > now :: t[n]
  }

  predicate Accepts(t: Table, c: Call) {
    c.nonce !in Pruned(t, c.time)
  }

  function Next(ttl: real, t: Table, c: Call): Table {
    var kept := Pruned(t, c.time);
    if c.nonce in kept then kept else kept[c.nonce := c.time + ttl]
  }

  class Guard {
    const ttl: real
    var seenUntil: Table

    constructor (ttl: real)
      ensures this.ttl == ttl && seenUntil == map[]
    {
      this.ttl, seenUntil := ttl, map[];
    }

    method CheckAndRecord(nonce: string, now: real) returns (ok: bool)
      modifies this
      ensures ok <==> Accepts(old(seenUntil), Call(nonce, now))
      ensures seenUntil == Next(ttl, old(seenUntil), Call(nonce, now))
    {
      ghost var before := seenUntil;
      var expired := set n | n in seenUntil && seenUntil[n] <= now;
      while expired != {}
        invariant Pruned(seenUntil, now) == Pruned(before, now)
        invariant forall n :: n in expired <==> n in seenUntil && seenUntil[n] <= now
        decreases |expired|
      {
        var n :| n in expired;
        seenUntil := seenUntil - {n};
        expired := expired - {n};
      }
      assert seenUntil == Pruned(before, now);
      if nonce in seenUntil {
        return false;
      }
      seenUntil := seenUntil[nonce := now + ttl];
      ok := true;
    }

    method CheckAll(calls: seq<Call>) returns (verdicts: seq<bool>)
      requires seenUntil == map[]
      modifies this
      ensures seenUntil == TableAfter(ttl, calls) && |verdicts| == |calls|
      ensures forall i :: 0 <= i < |calls| ==> verdicts[i] == History(ttl, calls)[i].ok
    {
      verdicts := [];
      var i := 0;
      while i < |calls|
        invariant 0 <= i <= |calls| && |verdicts| == i && seenUntil == TableAfter(ttl, calls[..i])
        invariant forall k :: 0 <= k < i ==> verdicts[k] == History(ttl, calls[..i])[k].ok
      {
        assert calls[..i + 1][..i] == calls[..i];
        var ok := CheckAndRecord(calls[i].nonce, calls[i].time);
        verdicts := verdicts + [ok];
        i := i + 1;
      }
      assert calls[..i] == calls;
    }
  }

  function TableAfter(ttl: real, calls: seq<Call>): Table {
    if calls == [] then map[] else Next(ttl, TableAfter(ttl, calls[..|calls| - 1]), calls[|calls| - 1])
  }

  // Every call there has been, with its verdict: a log that is never pruned.
  datatype Entry = Entry(nonce: string, time: real, ok: bool)

  function History(ttl: real, calls: seq<Call>): (h: seq<Entry>)
    ensures |h| == |calls| && forall i :: 0 <= i < |calls| ==> h[i].nonce == calls[i].nonce && h[i].time == calls[i].time
  {
    if calls == [] then [] else
      var c, before := calls[|calls| - 1], calls[..|calls| - 1];
      History(ttl, before) + [Entry(c.nonce, c.time, Accepts(TableAfter(ttl, before), c))]
  }

  // An accepted call whose window no call since has been outside of.
  predicate Open(ttl: real, h: seq<Entry>, i: nat)
    requires i < |h|
  {
    h[i].ok && forall j :: i < j < |h| ==> h[j].time < h[i].time + ttl
  }

  // The table holds exactly the open acceptances.
  ghost predicate Tracks(ttl: real, t: Table, h: seq<Entry>) {
    && (forall n :: n in t ==> Covered(ttl, h, n))
    && (forall i :: 0 <= i < |h| && Open(ttl, h, i) ==> h[i].nonce in t && t[h[i].nonce] == h[i].time + ttl)
  }

  lemma OpenStep(ttl: real, h: seq<Entry>, e: Entry, i: nat)
    requires i < |h|
    ensures Open(ttl, h + [e], i) <==> Open(ttl, h, i) && e.time < h[i].time + ttl
  {
    var g := h + [e];
    if Open(ttl, g, i) {
      assert g[|h|] == e;
      forall j | i < j < |h| ensures h[j].time < h[i].time + ttl {
        assert g[j] == h[j];
      }
    }
  }

  ghost predicate Covered(ttl: real, h: seq<Entry>, n: string) {
    exists i :: 0 <= i < |h| && Open(ttl, h, i) && h[i].nonce == n
  }

  // Every entry of the table comes from an open acceptance.
  lemma EntriesStep(ttl: real, t: Table, h: seq<Entry>, c: Call, n: string)
    requires Tracks(ttl, t, h) && n in Next(ttl, t, c)
    ensures Covered(ttl, h + [Entry(c.nonce, c.time, Accepts(t, c))], n)
  {
    var e := Entry(c.nonce, c.time, Accepts(t, c));
    var g := h + [e];
    if n == c.nonce && Accepts(t, c) {
      assert Open(ttl, g, |h|) && g[|h|] == e;
    } else {
      var i :| 0 <= i < |h| && Open(ttl, h, i) && h[i].nonce == n;
      OpenStep(ttl, h, e, i);
      assert Open(ttl, g, i) && g[i].nonce == n;
    }
  }

  // Every open acceptance is in the table.
  lemma OpenStays(ttl: real, t: Table, h: seq<Entry>, c: Call, i: nat)
    requires Tracks(ttl, t, h) && i <= |h|
    requires Open(ttl, h + [Entry(c.nonce, c.time, Accepts(t, c))], i)
    ensures var g, u := h + [Entry(c.nonce, c.time, Accepts(t, c))], Next(ttl, t, c);
      g[i].nonce in u && u[g[i].nonce] == g[i].time + ttl
  {
    if i < |h| {
      OpenStep(ttl, h, Entry(c.nonce, c.time, Accepts(t, c)), i);
      assert h[i].nonce in Pruned(t, c.time);
    }
  }

  lemma TracksStep(ttl: real, t: Table, h: seq<Entry>, c: Call)
    requires Tracks(ttl, t, h)
    ensures Tracks(ttl, Next(ttl, t, c), h + [Entry(c.nonce, c.time, Accepts(t, c))])
  {
    var g, u := h + [Entry(c.nonce, c.time, Accepts(t, c))], Next(ttl, t, c);
    forall n | n in u ensures Covered(ttl, g, n) {
      EntriesStep(ttl, t, h, c, n);
    }
    forall i | 0 <= i < |g| && Open(ttl, g, i) ensures g[i].nonce in u && u[g[i].nonce] == g[i].time + ttl {
      OpenStays(ttl, t, h, c, i);
    }
  }

  lemma {:induction false} TableTracksHistory(ttl: real, calls: seq<Call>)
    ensures Tracks(ttl, TableAfter(ttl, calls), History(ttl, calls))
  {
    if calls != [] {
      var before := calls[..|calls| - 1];
      TableTracksHistory(ttl, before);
      TracksStep(ttl, TableAfter(ttl, before), History(ttl, before), calls[|calls| - 1]);
    }
  }

  // Entry `i` accepted this nonce, and its window contains the call and every call made in between.
  predicate Blocks(ttl: real, h: seq<Entry>, i: nat, c: Call) {
    i < |h| && h[i].nonce == c.nonce && Open(ttl, h, i) && c.time < h[i].time + ttl
  }

  ghost predicate Blocked(ttl: real, h: seq<Entry>, c: Call) {
    exists i: nat :: Blocks(ttl, h, i, c)
  }

  lemma BlockedIff(ttl: real, t: Table, h: seq<Entry>, c: Call)
    requires Tracks(ttl, t, h)
    ensures !Accepts(t, c) <==> Blocked(ttl, h, c)
  {
    if !Accepts(t, c) {
      var i :| 0 <= i < |h| && Open(ttl, h, i) && h[i].nonce == c.nonce;
      assert Blocks(ttl, h, i, c);
    }
  }

  // Whatever the clock does, a call is refused exactly when an earlier acceptance blocks it.
  lemma {:induction false} RefusedIff(ttl: real, calls: seq<Call>, c: Call)
    ensures !Accepts(TableAfter(ttl, calls), c) <==> Blocked(ttl, History(ttl, calls), c)
  {
    TableTracksHistory(ttl, calls);
    BlockedIff(ttl, TableAfter(ttl, calls), History(ttl, calls), c);
  }

  // Every acceptance of the nonce is over at the time of the call.
  predicate NoOpenWindow(ttl: real, h: seq<Entry>, c: Call) {
    forall i :: 0 <= i < |h| && h[i].ok && h[i].nonce == c.nonce ==> h[i].time + ttl <= c.time
  }

  predicate NonDecreasing(calls: seq<Call>) {
    forall i, j :: 0 <= i < j < |calls| ==> calls[i].time <= calls[j].time
  }

  // While time does not go backwards, pruning loses nothing: a nonce is accepted exactly when no logged
  // acceptance of it has a window that is still open.
  lemma {:induction false} AcceptedIffNoOpenWindow(ttl: real, calls: seq<Call>, c: Call)
    requires NonDecreasing(calls + [c])
    ensures Accepts(TableAfter(ttl, calls), c) <==> NoOpenWindow(ttl, History(ttl, calls), c)
  {
    var h, all := History(ttl, calls), calls + [c];
    RefusedIff(ttl, calls, c);
    forall i | 0 <= i < |h| && h[i].ok && c.time < h[i].time + ttl ensures Open(ttl, h, i) {
      forall j | i < j < |h| ensures h[j].time < h[i].time + ttl {
        assert all[j].time <= all[|calls|].time;
      }
    }
    forall i: nat | i < |h| && h[i].ok && h[i].nonce == c.nonce && c.time < h[i].time + ttl ensures Blocks(ttl, h, i, c) {}
  }

  // The guard one would write without a memory bound: a list of accepted calls that is never pruned.
  predicate LogAccepts(ttl: real, log: seq<Call>, c: Call) {
    forall i :: 0 <= i < |log| && log[i].nonce == c.nonce ==> log[i].time + ttl <= c.time
  }

  function LogAfter(ttl: real, calls: seq<Call>): seq<Call> {
    if calls == [] then [] else
      var c, log := calls[|calls| - 1], LogAfter(ttl, calls[..|calls| - 1]);
      if LogAccepts(ttl, log, c) then log + [c] else log
  }

  // The log holds exactly the calls the history marks as accepted.
  ghost predicate SameAcceptances(h: seq<Entry>, log: seq<Call>) {
    forall c: Call :: c in log <==> Entry(c.nonce, c.time, true) in h
  }

  lemma {:induction false} AcceptsAlike(ttl: real, calls: seq<Call>, c: Call, log: seq<Call>)
    requires NonDecreasing(calls + [c]) && SameAcceptances(History(ttl, calls), log)
    ensures Accepts(TableAfter(ttl, calls), c) <==> LogAccepts(ttl, log, c)
  {
    var h := History(ttl, calls);
    AcceptedIffNoOpenWindow(ttl, calls, c);
    LogMatchesHistory(ttl, h, log, c);
  }

  lemma LogMatchesHistory(ttl: real, h: seq<Entry>, log: seq<Call>, c: Call)
    requires SameAcceptances(h, log)
    ensures LogAccepts(ttl, log, c) <==> NoOpenWindow(ttl, h, c)
  {
    if LogAccepts(ttl, log, c) {
      forall i | 0 <= i < |h| && h[i].ok && h[i].nonce == c.nonce ensures h[i].time + ttl <= c.time {
        assert h[i] == Entry(h[i].nonce, h[i].time, true) && h[i] in h;
        assert Call(h[i].nonce, h[i].time) in log;
      }
    }
    if NoOpenWindow(ttl, h, c) {
      forall i | 0 <= i < |log| && log[i].nonce == c.nonce ensures log[i].time + ttl <= c.time {
        assert log[i] in log;
        assert Entry(log[i].nonce, log[i].time, true) in h;
      }
    }
  }

  lemma SameAcceptancesStep(h: seq<Entry>, log: seq<Call>, c: Call, ok: bool)
    requires SameAcceptances(h, log)
    ensures SameAcceptances(h + [Entry(c.nonce, c.time, ok)], if ok then log + [c] else log)
  {
    var e := Entry(c.nonce, c.time, ok);
    assert forall x :: x in h + [e] <==> x in h || x == e;
    assert forall x :: x in log + [c] <==> x in log || x == c;
  }

  lemma {:induction false} LogsAgree(ttl: real, calls: seq<Call>)
    requires NonDecreasing(calls)
    ensures SameAcceptances(History(ttl, calls), LogAfter(ttl, calls))
  {
    if calls != [] {
      var n := |calls| - 1;
      var before, c := calls[..n], calls[n];
      assert before + [c] == calls;
      LogsAgree(ttl, before);
      AcceptsAlike(ttl, before, c, LogAfter(ttl, before));
      SameAcceptancesStep(History(ttl, before), LogAfter(ttl, before), c, Accepts(TableAfter(ttl, before), c));
    }
  }

  lemma {:induction false} HistoryPrefix(ttl: real, calls: seq<Call>, i: nat)
    requires i < |calls|
    ensures History(ttl, calls)[i].ok <==> Accepts(TableAfter(ttl, calls[..i]), calls[i])
  {
    var n := |calls| - 1;
    if i < n {
      HistoryPrefix(ttl, calls[..n], i);
      assert calls[..n][..i] == calls[..i];
    }
  }

  // While time does not go backwards the pruned table and the unbounded log give every call the same verdict.
  lemma {:induction false} VerdictsAgree(ttl: real, calls: seq<Call>, i: nat)
    requires NonDecreasing(calls) && i < |calls|
    ensures History(ttl, calls)[i].ok <==> LogAccepts(ttl, LogAfter(ttl, calls[..i]), calls[i])
  {
    HistoryPrefix(ttl, calls, i);
    assert calls[..i] + [calls[i]] == calls[..i + 1];
    LogsAgree(ttl, calls[..i]);
    AcceptsAlike(ttl, calls[..i], calls[i], LogAfter(ttl, calls[..i]));
  }

  // After a call the table holds unexpired entries and the one just recorded, nothing else.
  lemma TableIsBounded(ttl: real, calls: seq<Call>, n: string)
    requires calls != [] && n in TableAfter(ttl, calls)
    ensures TableAfter(ttl, calls)[n] > calls[|calls| - 1].time || (n == calls[|calls| - 1].nonce && History(ttl, calls)[|calls| - 1].ok)
  {
  }

  // When the clock is set back, a call at a later time may have pruned an entry that is needed again.
  lemma {:induction false} SetBackClockReplays(a: string, b: string)
    requires a != b
    ensures var calls := [Call(a, 0.0), Call(b, 300.0)];
      && History(300.0, calls)[0].ok && Accepts(TableAfter(300.0, calls), Call(a, 10.0))
      && History(300.0, calls)[0].time + 300.0 > 10.0
  {
    var calls := [Call(a, 0.0), Call(b, 300.0)];
    assert calls[..1] == [Call(a, 0.0)];
    assert calls[..1][..0] == [];
  }
}
