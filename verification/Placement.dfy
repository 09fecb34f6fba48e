/** Placement of one workload, and of a group of workers for a distributed-native workload. */
module Placement {
  import opened Wrappers
  import opened Ordering

  // A worker profile; everything the gates and the score read is behind `facts`.
  datatype Profile = Profile(id: nat, facts: nat)

  datatype PlacementError = GroupTooSmall

  // What the last group evaluation reports: the workers chosen so far and whether the group is complete.
  datatype GroupReport = GroupReport(required: nat, selected: seq<nat>, complete: bool)

  function Ids(ps: seq<Profile>): (r: seq<nat>)
    ensures |r| == |ps| && forall i :: 0 <= i < |ps| ==> r[i] == ps[i].id
  {
    seq(|ps|, i requires 0 <= i < |ps| => ps[i].id)
  }

  predicate DistinctIds(ps: seq<Profile>) {
    forall i, j :: 0 <= i < j < |ps| ==> ps[i].id != ps[j].id
  }

  // For a fixed workload and clock, the hard gates and the rank score of a profile.
  datatype Rules = Rules(gate: Profile -> bool, score: Profile -> real)

  function Eligible(rules: Rules, ps: seq<Profile>): (r: seq<Profile>)
    ensures forall p :: p in r <==> p in ps && rules.gate(p)
  {
    if ps == [] then [] else
      var rest := Eligible(rules, ps[..|ps| - 1]);
      if rules.gate(ps[|ps| - 1]) then rest + [ps[|ps| - 1]] else rest
  }

  // Scores are kept per worker id; a repeated id keeps the score of its last eligible profile.
  function Scores(rules: Rules, ps: seq<Profile>): (m: map<nat, real>)
    ensures forall p :: p in ps ==> p.id in m
  {
    if ps == [] then map[] else
      Scores(rules, ps[..|ps| - 1])[ps[|ps| - 1].id := rules.score(ps[|ps| - 1])]
  }

  function RankKey(scores: map<nat, real>): Profile -> Rank {
    (p: Profile) => Rank(if p.id in scores then -scores[p.id] else 0.0, p.id)
  }

  // The one-shot ranking of all eligible workers.
  function Ranking(rules: Rules, ps: seq<Profile>): seq<Profile> {
    SortBy(RankKey(Scores(rules, Eligible(rules, ps))), Eligible(rules, ps))
  }

  function Excluding(ps: seq<Profile>, id: nat): (r: seq<Profile>)
    ensures forall p :: p in r <==> p in ps && p.id != id
  {
    if ps == [] then [] else
      var rest := Excluding(ps[..|ps| - 1], id);
      if ps[|ps| - 1].id == id then rest else rest + [ps[|ps| - 1]]
  }

  class PlacementEngine {
    const rules: Rules
    var lastEligible: set<nat>
    var lastGroup: Option<GroupReport>

    constructor (rules: Rules)
      ensures this.rules == rules
    {
      this.rules, lastEligible, lastGroup := rules, {}, None;
    }

    // Gates every profile, ranks the eligible ones and selects the first.
    method Evaluate(profiles: seq<Profile>) returns (selected: Option<Profile>)
      modifies this`lastEligible
      ensures selected == if Ranking(rules, profiles) == [] then None else Some(Ranking(rules, profiles)[0])
      ensures lastEligible == set p | p in profiles && rules.gate(p) :: p.id
    {
      var eligible: seq<Profile>, scores: map<nat, real> := [], map[];
      var i := 0;
      while i < |profiles|
        invariant 0 <= i <= |profiles| && eligible == Eligible(rules, profiles[..i]) && scores == Scores(rules, eligible)
      {
        var p := profiles[i];
        assert profiles[..i + 1][..i] == profiles[..i];
        if rules.gate(p) {
          assert (eligible + [p])[..|eligible|] == eligible;
          eligible, scores := eligible + [p], scores[p.id := rules.score(p)];
        }
        i := i + 1;
      }
      assert profiles[..i] == profiles;
      lastEligible := set p | p in eligible :: p.id;
      assert lastEligible == set p | p in profiles && rules.gate(p) :: p.id;
      var ranked := SortBy(RankKey(scores), eligible);
      selected := if eligible == [] then None else Some(ranked[0]);
    }

    // Selects a complete group by repeated single selection; a partial group is never returned.
    method EvaluateGroup(profiles: seq<Profile>, count: nat) returns (r: Result<Option<seq<Profile>>, PlacementError>)
      modifies this
      ensures r.Failure? <==> count < 2
      ensures r.Success? && DistinctIds(profiles) ==>
        r.value == if |Ranking(rules, profiles)| < count then None else Some(Ranking(rules, profiles)[..count])
      ensures r.Success? && r.value.Some? ==> |r.value.value| == count && DistinctIds(r.value.value)
      ensures r.Failure? ==> lastGroup == old(lastGroup) && lastEligible == old(lastEligible)
      ensures r.Success? && r.value.Some? ==> lastGroup == Some(GroupReport(count, Ids(r.value.value), true))
      ensures r.Success? && r.value.None? && DistinctIds(profiles) ==>
        lastGroup == Some(GroupReport(count, Ids(Ranking(rules, profiles)), false))
    {
      if count < 2 {
        return Failure(GroupTooSmall);
      }
      var remaining, decisions: seq<Profile> := profiles, [];
      assert [] + Ranking(rules, profiles) == Ranking(rules, profiles);
      var i := 0;
      while i < count
        invariant 0 <= i <= count && |decisions| == i && Selecting(rules, profiles, decisions, remaining)
      {
        var decision := Evaluate(remaining);
        if decision.None? {
          assert decisions + [] == decisions;
          lastGroup := Some(GroupReport(count, Ids(decisions), false));
          return Success(None);
        }
        var chosen := decision.value;
        SelectingStep(rules, profiles, decisions, remaining);
        decisions := decisions + [chosen];
        remaining := Excluding(remaining, chosen.id);
        i := i + 1;
      }
      lastGroup := Some(GroupReport(count, Ids(decisions), true));
      r := Success(Some(decisions));
    }
  }

  predicate Apart(decisions: seq<Profile>, remaining: seq<Profile>) {
    DistinctIds(decisions) && forall p, d :: p in remaining && d in decisions ==> p.id != d.id
  }

  // Group selection underway: the decided workers are off the table, and with distinct ids they
  // are the head of the one-shot ranking.
  ghost predicate Selecting(rules: Rules, profiles: seq<Profile>, decisions: seq<Profile>, remaining: seq<Profile>) {
    && Apart(decisions, remaining)
    && (DistinctIds(profiles) ==> DistinctIds(remaining) && Ranking(rules, profiles) == decisions + Ranking(rules, remaining))
  }

  lemma ApartStep(decisions: seq<Profile>, remaining: seq<Profile>, chosen: Profile)
    requires Apart(decisions, remaining) && chosen in remaining
    ensures Apart(decisions + [chosen], Excluding(remaining, chosen.id))
  {
    forall d | d in decisions + [chosen] ensures d in decisions || d == chosen {}
  }

  lemma SelectingStep(rules: Rules, profiles: seq<Profile>, decisions: seq<Profile>, remaining: seq<Profile>)
    requires Selecting(rules, profiles, decisions, remaining) && Ranking(rules, remaining) != []
    ensures var chosen := Ranking(rules, remaining)[0];
      Selecting(rules, profiles, decisions + [chosen], Excluding(remaining, chosen.id))
  {
    ghost var chosen := Ranking(rules, remaining)[0];
    RankedAreCandidates(rules, remaining, chosen);
    ApartStep(decisions, remaining, chosen);
    if DistinctIds(profiles) {
      PeelAfter(rules, Ranking(rules, profiles), decisions, remaining);
    }
  }

  lemma PeelAfter(rules: Rules, all: seq<Profile>, decisions: seq<Profile>, remaining: seq<Profile>)
    requires DistinctIds(remaining) && Ranking(rules, remaining) != [] && all == decisions + Ranking(rules, remaining)
    ensures var chosen := Ranking(rules, remaining)[0];
      DistinctIds(Excluding(remaining, chosen.id))
      && all == (decisions + [chosen]) + Ranking(rules, Excluding(remaining, chosen.id))
  {
    var chosen := Ranking(rules, remaining)[0];
    SelectionPeelsRanking(rules, remaining);
    Reassociate(decisions, [chosen], Ranking(rules, Excluding(remaining, chosen.id)));
  }

  lemma Reassociate(a: seq<Profile>, b: seq<Profile>, c: seq<Profile>)
    ensures a + (b + c) == (a + b) + c
  {
  }

  lemma RankedAreCandidates(rules: Rules, ps: seq<Profile>, p: Profile)
    ensures p in Ranking(rules, ps) <==> p in ps && rules.gate(p)
    ensures Ranking(rules, ps) != [] ==> Ranking(rules, ps)[0] in ps
  {
    var es := Eligible(rules, ps);
    SortBySorts(RankKey(Scores(rules, es)), es);
    assert p in multiset(Ranking(rules, ps)) <==> p in multiset(es);
    if Ranking(rules, ps) != [] {
      assert Ranking(rules, ps)[0] in multiset(Ranking(rules, ps));
      assert Ranking(rules, ps)[0] in es;
    }
  }

  lemma {:induction false} DistinctParts(rules: Rules, ps: seq<Profile>, id: nat)
    requires DistinctIds(ps)
    ensures DistinctIds(Eligible(rules, ps)) && DistinctIds(Excluding(ps, id))
  {
    if ps != [] {
      DistinctParts(rules, ps[..|ps| - 1], id);
    }
  }

  lemma {:induction false} ScoreOf(rules: Rules, ps: seq<Profile>, p: Profile)
    requires DistinctIds(ps) && p in ps
    ensures Scores(rules, ps)[p.id] == rules.score(p)
  {
    if p != ps[|ps| - 1] {
      assert p in ps[..|ps| - 1];
      ScoreOf(rules, ps[..|ps| - 1], p);
    }
  }

  // With distinct ids the key of an eligible worker does not depend on the other profiles.
  function FixedKey(rules: Rules): Profile -> Rank {
    (p: Profile) => Rank(-rules.score(p), p.id)
  }

  lemma RankingFacts(rules: Rules, ps: seq<Profile>)
    requires DistinctIds(ps)
    ensures SortedBy(FixedKey(rules), Ranking(rules, ps)) && Distinct(Ranking(rules, ps))
    ensures forall p :: p in Ranking(rules, ps) <==> p in ps && rules.gate(p)
  {
    var es := Eligible(rules, ps);
    var key := RankKey(Scores(rules, es));
    var r := Ranking(rules, ps);
    DistinctParts(rules, ps, 0);
    SortBySorts(key, es);
    forall p ensures p in r <==> p in ps && rules.gate(p) {
      RankedAreCandidates(rules, ps, p);
    }
    forall i | 0 <= i < |r| ensures key(r[i]) == FixedKey(rules)(r[i]) {
      assert r[i] in r;
      ScoreOf(rules, es, r[i]);
    }
    assert Distinct(es);
    PermutationDistinct(es, r);
  }

  // Removing the selected worker leaves the rest of the ranking as it was.
  lemma {:induction false} SelectionPeelsRanking(rules: Rules, ps: seq<Profile>)
    requires DistinctIds(ps) && Ranking(rules, ps) != []
    ensures var best := Ranking(rules, ps)[0];
      DistinctIds(Excluding(ps, best.id)) && Ranking(rules, ps) == [best] + Ranking(rules, Excluding(ps, best.id))
  {
    var best := Ranking(rules, ps)[0];
    var left := Excluding(ps, best.id);
    DistinctParts(rules, ps, best.id);
    RankingFacts(rules, ps);
    RankingFacts(rules, left);
    RestIsRanking(rules, ps, left, Ranking(rules, ps), Ranking(rules, left));
  }

  lemma {:induction false} RestIsRanking(rules: Rules, ps: seq<Profile>, left: seq<Profile>, r: seq<Profile>, next: seq<Profile>)
    requires DistinctIds(ps) && r != [] && SortedBy(FixedKey(rules), r) && Distinct(r)
    requires SortedBy(FixedKey(rules), next) && Distinct(next)
    requires forall p :: p in r <==> p in ps && rules.gate(p)
    requires forall p :: p in left <==> p in ps && p.id != r[0].id
    requires forall p :: p in next <==> p in left && rules.gate(p)
    ensures r == [r[0]] + next
  {
    var best, tail := r[0], r[1..];
    assert best in ps by { assert best in r; }
    forall p ensures p in tail <==> p in next {
      assert p in tail ==> p in r && p != best;
      assert p in r ==> p == best || p in tail;
      if p in ps && p.id == best.id { SameIdSameProfile(ps, p, best); }
    }
    DistinctPermutation(tail, next);
    SortedUnique(FixedKey(rules), tail, next);
    assert r == [best] + tail;
  }

  lemma SameIdSameProfile(ps: seq<Profile>, p: Profile, q: Profile)
    requires DistinctIds(ps) && p in ps && q in ps && p.id == q.id
    ensures p == q
  {
  }
}
