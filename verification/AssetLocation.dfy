/** Ranking of candidate sources, one list at a time and for a whole batch of hashes. */
module AssetLocation {
  import opened Wrappers
  import opened Ordering
  import opened Registry

  // Which workers may serve a request, and how many of them are reported.
  datatype Query = Query(requester: Option<nat>, includeDegraded: bool, limit: Option<nat>)

  predicate Eligible(q: Query, w: Worker) {
    && (q.requester.Some? ==> w.id != q.requester.value)
    && w.status != Offline
    && (q.includeDegraded || w.status !in {DegradedWorker, Unhealthy})
  }

  // The requester itself and offline workers never serve; degraded ones only when that is asked for.
  lemma EligibleIff(q: Query, w: Worker)
    ensures Eligible(q, w) <==>
      q.requester != Some(w.id) && w.status in if q.includeDegraded then {Active, Draining, DegradedWorker, Unhealthy} else {Active, Draining}
  {
  }

  function Filtered(q: Query, ws: seq<Worker>): (r: seq<Worker>)
    ensures forall w :: w in r <==> w in ws && Eligible(q, w)
  {
    if ws == [] then [] else
      var rest := Filtered(q, ws[..|ws| - 1]);
      if Eligible(q, ws[|ws| - 1]) then rest + [ws[|ws| - 1]] else rest
  }

  lemma {:induction false} FilteredDistinct(q: Query, ws: seq<Worker>)
    requires Distinct(ws)
    ensures Distinct(Filtered(q, ws))
  {
    if ws != [] {
      FilteredDistinct(q, ws[..|ws| - 1]);
      assert ws[|ws| - 1] !in ws[..|ws| - 1];
    }
  }

  // Higher scores first; equal scores keep their order.
  function ScoreKey(score: Worker -> real): Worker -> Rank {
    (w: Worker) => Rank(-score(w), 0)
  }

  function Truncated<T>(limit: Option<nat>, s: seq<T>): seq<T> {
    if limit.Some? && 0 < limit.value < |s| then s[..limit.value] else s
  }

  function Ranked(score: Worker -> real, q: Query, ws: seq<Worker>): seq<Worker> {
    Truncated(q.limit, SortBy(ScoreKey(score), Filtered(q, ws)))
  }

  method RankCandidates(score: Worker -> real, q: Query, candidates: seq<Worker>) returns (ranked: seq<Worker>)
    ensures ranked == Ranked(score, q, candidates)
  {
    var list := [];
    var i := 0;
    while i < |candidates|
      invariant 0 <= i <= |candidates| && list == Filtered(q, candidates[..i])
    {
      assert candidates[..i + 1][..i] == candidates[..i];
      if Eligible(q, candidates[i]) {
        list := list + [candidates[i]];
      }
      i := i + 1;
    }
    assert candidates[..i] == candidates;
    ranked := SortBy(ScoreKey(score), list);
    if q.limit.Some? && 0 < q.limit.value < |ranked| {
      ranked := ranked[..q.limit.value];
    }
  }

  lemma SortedByScore(score: Worker -> real, list: seq<Worker>)
    ensures var sorted := SortBy(ScoreKey(score), list);
      && (forall w :: w in sorted <==> w in list)
      && (forall i, j :: 0 <= i < j < |sorted| ==> score(sorted[i]) >= score(sorted[j]))
  {
    var key := ScoreKey(score);
    var sorted := SortBy(key, list);
    SortBySorts(key, list);
    forall w ensures w in sorted <==> w in list {
      assert w in multiset(sorted) <==> w in multiset(list);
    }
    forall i, j | 0 <= i < j < |sorted| ensures score(sorted[i]) >= score(sorted[j]) {
      assert Precedes(key(sorted[i]), key(sorted[j]));
    }
  }

  // The best of a list: ordered by score, nobody twice, and whoever is left out scores no higher
  // than anyone returned and is left out only because the limit is reached.
  ghost predicate IsTop(score: Worker -> real, limit: Option<nat>, list: seq<Worker>, top: seq<Worker>) {
    && Distinct(top) && (forall w :: w in top ==> w in list)
    && (forall i, j :: 0 <= i < j < |top| ==> score(top[i]) >= score(top[j]))
    && (forall v, w :: v in list && v !in top && w in top ==> score(w) >= score(v))
    && (forall v :: v in list && v !in top ==> top != [] && limit == Some(|top|))
  }

  lemma {:induction false} PrefixIsTop(score: Worker -> real, limit: Option<nat>, list: seq<Worker>, sorted: seq<Worker>)
    requires Distinct(sorted) && forall w :: w in sorted <==> w in list
    requires forall i, j :: 0 <= i < j < |sorted| ==> score(sorted[i]) >= score(sorted[j])
    ensures IsTop(score, limit, list, Truncated(limit, sorted))
  {
    var top := Truncated(limit, sorted);
    assert forall k :: 0 <= k < |top| ==> top[k] == sorted[k] && sorted[k] in sorted;
    forall v, w | v in list && v !in top && w in top ensures score(w) >= score(v) {
      var j :| 0 <= j < |sorted| && sorted[j] == v;
      var i :| 0 <= i < |top| && top[i] == w;
    }
  }

  lemma {:induction false} SortedIsTop(score: Worker -> real, limit: Option<nat>, list: seq<Worker>)
    requires Distinct(list)
    ensures IsTop(score, limit, list, Truncated(limit, SortBy(ScoreKey(score), list)))
  {
    var sorted := SortBy(ScoreKey(score), list);
    SortedByScore(score, list);
    SortBySorts(ScoreKey(score), list);
    PermutationDistinct(list, sorted);
    PrefixIsTop(score, limit, list, sorted);
  }

  // The ranking of distinct candidates is the top of the eligible ones.
  lemma RankedIsTop(score: Worker -> real, q: Query, ws: seq<Worker>)
    requires Distinct(ws)
    ensures IsTop(score, q.limit, Filtered(q, ws), Ranked(score, q, ws))
  {
    FilteredDistinct(q, ws);
    SortedIsTop(score, q.limit, Filtered(q, ws));
  }

  // Also with repeated candidates nobody left out scores higher than anyone returned.
  lemma RankedBeatsTheRest(score: Worker -> real, q: Query, ws: seq<Worker>, v: Worker, w: Worker)
    requires v in ws && Eligible(q, v) && v !in Ranked(score, q, ws) && w in Ranked(score, q, ws)
    ensures score(w) >= score(v) && w in ws && Eligible(q, w)
    ensures q.limit == Some(|Ranked(score, q, ws)|)
  {
    var list := Filtered(q, ws);
    var sorted, r := SortBy(ScoreKey(score), list), Ranked(score, q, ws);
    SortedByScore(score, list);
    var j :| 0 <= j < |sorted| && sorted[j] == v;
    var i :| 0 <= i < |r| && r[i] == w;
    assert |r| <= |sorted| && r == sorted[..|r|];
    assert forall k :: 0 <= k < |r| ==> r[k] == sorted[k];
  }

  // Rankings of two lists of the same workers agree position by position on the score.
  lemma SameCandidatesSameScores(score: Worker -> real, limit: Option<nat>, a: seq<Worker>, b: seq<Worker>)
    requires Distinct(a) && Distinct(b) && forall w :: w in a <==> w in b
    ensures Keys(ScoreKey(score), Truncated(limit, SortBy(ScoreKey(score), a)))
         == Keys(ScoreKey(score), Truncated(limit, SortBy(ScoreKey(score), b)))
  {
    var key := ScoreKey(score);
    DistinctPermutation(a, b);
    SortBySorts(key, a);
    SortBySorts(key, b);
    SortedKeysUnique(key, SortBy(key, a), SortBy(key, b));
    var sa, sb := SortBy(key, a), SortBy(key, b);
    assert |sa| == |Keys(key, sa)| == |Keys(key, sb)| == |sb|;
    forall i | 0 <= i < |sa| ensures key(sa[i]) == key(sb[i]) {
      assert Keys(key, sa)[i] == Keys(key, sb)[i];
    }
  }

  // A full scan: every registered worker whose inventory holds the hash, once, in any order.
  ghost predicate ScansHolders(ws: seq<Worker>, workers: map<nat, Worker>, h: nat) {
    Distinct(ws) && forall w :: w in ws <==> w.id in workers && workers[w.id] == w && h in w.inventory
  }

  // A registered worker that holds the hash and may serve the request.
  predicate Serves(q: Query, workers: map<nat, Worker>, h: nat, w: Worker) {
    && w.id in workers && workers[w.id] == w && h in w.inventory && q.requester != Some(w.id)
    && (w.status in {Active, Draining} || (q.includeDegraded && w.status in {DegradedWorker, Unhealthy}))
  }

  // The answer for one hash, without reference to how it was found: workers that can serve it, each
  // once, best first, and nobody better left out.
  ghost predicate BestServers(score: Worker -> real, q: Query, workers: map<nat, Worker>, h: nat, answer: seq<Worker>) {
    && Distinct(answer) && (forall w :: w in answer ==> Serves(q, workers, h, w))
    && (q.limit.Some? && q.limit.value > 0 ==> |answer| <= q.limit.value)
    && (forall i, j :: 0 <= i < j < |answer| ==> score(answer[i]) >= score(answer[j]))
    && (forall v, w :: Serves(q, workers, h, v) && v !in answer && w in answer ==> score(w) >= score(v))
    && (forall v :: Serves(q, workers, h, v) && v !in answer ==> answer != [] && q.limit == Some(|answer|))
  }

  // The batch answer for one hash is among the best servers, and position by position it has the
  // scores of the one-list ranking of any full scan.
  ghost predicate AgreesWithScan(score: Worker -> real, q: Query, workers: map<nat, Worker>, h: nat, answer: seq<Worker>) {
    && BestServers(score, q, workers, h, answer)
    && forall scan :: ScansHolders(scan, workers, h) ==>
         Keys(ScoreKey(score), answer) == Keys(ScoreKey(score), Ranked(score, q, scan))
  }

  method ListEvaluated(ids: set<nat>, evaluated: map<nat, Worker>) returns (cs: seq<Worker>)
    requires forall w :: w in evaluated ==> evaluated[w].id == w
    ensures Distinct(cs) && forall c :: c in cs <==> c.id in ids && c.id in evaluated && evaluated[c.id] == c
  {
    cs := [];
    var todo := ids;
    while todo != {}
      invariant todo <= ids && Distinct(cs)
      invariant forall c :: c in cs <==> c.id in ids - todo && c.id in evaluated && evaluated[c.id] == c
      decreases todo
    {
      var w :| w in todo;
      todo := todo - {w};
      if w in evaluated {
        assert evaluated[w] !in cs;
        cs := cs + [evaluated[w]];
      }
    }
  }

  lemma BestOfCandidates(score: Worker -> real, q: Query, workers: map<nat, Worker>, h: nat, candidates: seq<Worker>)
    requires Distinct(candidates)
    requires forall w :: w in candidates <==> Serves(q, workers, h, w)
    ensures BestServers(score, q, workers, h, Truncated(q.limit, SortBy(ScoreKey(score), candidates)))
  {
    SortedIsTop(score, q.limit, candidates);
  }

  lemma ScanFindsServers(q: Query, workers: map<nat, Worker>, h: nat, scan: seq<Worker>, candidates: seq<Worker>)
    requires ScansHolders(scan, workers, h) && forall w :: w in candidates <==> Serves(q, workers, h, w)
    ensures forall w :: w in candidates <==> w in Filtered(q, scan)
  {
    forall w ensures w in candidates <==> w in Filtered(q, scan) {
      EligibleIff(q, w);
    }
  }

  lemma BatchAgrees(score: Worker -> real, q: Query, workers: map<nat, Worker>, h: nat, candidates: seq<Worker>)
    requires Distinct(candidates)
    requires forall w :: w in candidates <==> Serves(q, workers, h, w)
    ensures AgreesWithScan(score, q, workers, h, Truncated(q.limit, SortBy(ScoreKey(score), candidates)))
  {
    BestOfCandidates(score, q, workers, h, candidates);
    forall scan | ScansHolders(scan, workers, h)
      ensures Keys(ScoreKey(score), Truncated(q.limit, SortBy(ScoreKey(score), candidates))) == Keys(ScoreKey(score), Ranked(score, q, scan))
    {
      FilteredDistinct(q, scan);
      ScanFindsServers(q, workers, h, scan, candidates);
      SameCandidatesSameScores(score, q.limit, candidates, Filtered(q, scan));
    }
  }

  // Ranks the holders of one hash among the workers evaluated for the whole batch.
  method LocateOne(registry: WorkerRegistry, score: Worker -> real, q: Query, h: nat, located: map<nat, set<nat>>,
                   evaluated: map<nat, Worker>, ghost missing: seq<nat>) returns (ranked: seq<Worker>)
    requires registry.Valid() && h in missing
    requires evaluated == map w | w in registry.workers && Eligible(q, registry.workers[w]) :: registry.workers[w]
    requires forall k :: k in located <==> k in missing && exists w :: Holds(registry.workerHashes, w, k)
    requires forall k, w :: k in located ==> (w in located[k] <==> w in registry.workers && k in registry.workers[w].inventory)
    ensures AgreesWithScan(score, q, registry.workers, h, ranked)
    ensures ranked == [] <==> !exists w :: Serves(q, registry.workers, h, w)
  {
    var candidates := ListEvaluated(if h in located then located[h] else {}, evaluated);
    HoldersListed(registry, q, h, located, evaluated, candidates, missing);
    BatchAgrees(score, q, registry.workers, h, candidates);
    ranked := Truncated(q.limit, SortBy(ScoreKey(score), candidates));
  }

  // Locates a batch of missing hashes: every worker is evaluated once, and each hash ranks its
  // holders through the inverted index.
  method LocateAssets(registry: WorkerRegistry, score: Worker -> real, q: Query, missing: seq<nat>)
    returns (locations: map<nat, seq<Worker>>, unresolved: seq<nat>)
    requires registry.Valid()
    ensures forall h :: h in locations <==> h in missing
    ensures forall h :: h in locations ==> AgreesWithScan(score, q, registry.workers, h, locations[h])
    ensures forall h :: h in unresolved <==> h in locations && locations[h] == []
    ensures forall h :: h in unresolved <==> h in missing && !exists w :: Serves(q, registry.workers, h, w)
  {
    var located := registry.LocateHashes(missing);
    var evaluated := map w | w in registry.workers && Eligible(q, registry.workers[w]) :: registry.workers[w];
    locations, unresolved := map[], [];
    var i := 0;
    while i < |missing|
      invariant 0 <= i <= |missing|
      invariant forall h :: h in locations <==> h in missing[..i]
      invariant forall h :: h in locations ==> AgreesWithScan(score, q, registry.workers, h, locations[h])
      invariant forall h :: h in locations ==> (locations[h] == [] <==> !exists w :: Serves(q, registry.workers, h, w))
      invariant forall h :: h in unresolved <==> h in locations && locations[h] == []
    {
      var h := missing[i];
      assert missing[..i + 1] == missing[..i] + [h];
      var ranked := LocateOne(registry, score, q, h, located, evaluated, missing);
      locations := locations[h := ranked];
      if ranked == [] {
        unresolved := unresolved + [h];
      }
      i := i + 1;
    }
    assert missing[..i] == missing;
  }

  lemma HoldersListed(registry: WorkerRegistry, q: Query, h: nat, located: map<nat, set<nat>>, evaluated: map<nat, Worker>,
                      candidates: seq<Worker>, missing: seq<nat>)
    requires registry.Valid() && h in missing
    requires evaluated == map w | w in registry.workers && Eligible(q, registry.workers[w]) :: registry.workers[w]
    requires forall k :: k in located <==> k in missing && exists w :: Holds(registry.workerHashes, w, k)
    requires forall k, w :: k in located ==> (w in located[k] <==> w in registry.workers && k in registry.workers[w].inventory)
    requires forall c :: c in candidates <==>
      c.id in (if h in located then located[h] else {}) && c.id in evaluated && evaluated[c.id] == c
    ensures forall w :: w in candidates <==> Serves(q, registry.workers, h, w)
    ensures candidates == [] <==> !exists w :: Serves(q, registry.workers, h, w)
  {
    forall w | Serves(q, registry.workers, h, w) ensures w in candidates {
      assert Holds(registry.workerHashes, w.id, h);
    }
    if candidates != [] {
      assert candidates[0] in candidates;
    }
  }
}
