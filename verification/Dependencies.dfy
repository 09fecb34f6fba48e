/** Depth-first validation of the dependency graph of a pipeline. */
module Dependencies {
  import opened Wrappers
  import opened Ordering

  datatype GraphError = CycleFound | UnknownDependency(node: nat)

  // Each workload with the workloads it depends on, in listed order.
  type Graph = map<nat, seq<nat>>

  predicate Edge(g: Graph, a: nat, b: nat) {
    a in g && b in g[a]
  }

  predicate AllKnown(g: Graph) {
    forall a, i :: a in g && 0 <= i < |g[a]| ==> g[a][i] in g
  }

  ghost predicate Path(g: Graph, p: seq<nat>) {
    forall i :: 0 <= i < |p| - 1 ==> Edge(g, p[i], p[i + 1])
  }

  ghost predicate IsCycle(g: Graph, p: seq<nat>) {
    |p| >= 2 && Path(g, p) && p[0] == p[|p| - 1]
  }

  ghost predicate Acyclic(g: Graph) {
    forall p :: !IsCycle(g, p)
  }

  // A finish order: every node comes after everything it depends on.
  ghost predicate Topological(g: Graph, order: seq<nat>) {
    && (forall i, j :: 0 <= i < j < |order| ==> order[i] != order[j])
    && (forall i :: 0 <= i < |order| ==> order[i] in g)
    && (forall i, b :: 0 <= i < |order| && b in g[order[i]] ==> b in order[..i])
  }

  // The two sets the recursive visitor shares between its activations.
  class Visitor {
    const graph: Graph
    var visiting: set<nat>
    var visited: set<nat>
    ghost var stack: seq<nat>  // the nodes being visited, outermost first
    ghost var order: seq<nat>  // the finished nodes, in finishing order

    ghost predicate Valid()
      reads this
    {
      && Path(graph, stack) && Elements(stack) == visiting <= graph.Keys
      && Topological(graph, order) && Elements(order) == visited && visiting !! visited
    }

    constructor (g: Graph)
      ensures graph == g && Valid() && visiting == {} && visited == {} && stack == []
    {
      graph, visiting, visited, stack, order := g, {}, {}, [], [];
    }

    // Whatever is raised, the graph really has the fault that is reported.
    ghost predicate Justified(e: GraphError) {
      match e
      case CycleFound => !Acyclic(graph)
      case UnknownDependency(d) => d !in graph && exists a :: Edge(graph, a, d)
    }

    method Visit(node: nat) returns (r: Result<(), GraphError>)
      requires Valid() && node in graph
      requires stack != [] ==> Edge(graph, stack[|stack| - 1], node)
      modifies this
      ensures r.Failure? ==> Justified(r.error)
      ensures r.Success? ==> Valid() && visiting == old(visiting) && stack == old(stack)
      ensures r.Success? ==> node in visited && old(visited) <= visited
      decreases graph.Keys - visiting, 1
    {
      if node in visiting {
        CycleOnStack(node);
        return Failure(CycleFound);
      }
      if node in visited {
        return Success(());
      }
      BeginFacts(node);
      visiting, stack := visiting + {node}, stack + [node];
      var i := 0;
      while i < |graph[node]|
        invariant 0 <= i <= |graph[node]|
        invariant Valid() && visiting == old(visiting) + {node} && stack == old(stack) + [node]
        invariant old(visited) <= visited
        invariant forall j :: 0 <= j < i ==> graph[node][j] in visited
      {
        var dependency := graph[node][i];
        assert Edge(graph, node, dependency);
        if dependency !in graph {
          return Failure(UnknownDependency(dependency));
        }
        r := Visit(dependency);
        if r.Failure? {
          return;
        }
        i := i + 1;
      }
      EndFacts(node, old(stack));
      visiting, stack := visiting - {node}, old(stack);
      FinishFacts(node);
      visited, order := visited + {node}, order + [node];
      r := Success(());
    }

    lemma CycleOnStack(node: nat)
      requires Valid() && node in visiting && (stack != [] ==> Edge(graph, stack[|stack| - 1], node))
      ensures !Acyclic(graph)
    {
      var i :| 0 <= i < |stack| && stack[i] == node;
      var p := stack[i..] + [node];
      assert IsCycle(graph, p) by {
        forall k | 0 <= k < |p| - 1 ensures Edge(graph, p[k], p[k + 1]) {
          if k < |p| - 2 {
            assert Edge(graph, stack[i + k], stack[i + k + 1]);
          }
        }
      }
    }

    lemma BeginFacts(node: nat)
      requires Valid() && node in graph && (stack != [] ==> Edge(graph, stack[|stack| - 1], node))
      ensures Path(graph, stack + [node]) && Elements(stack + [node]) == visiting + {node}
    {
      var p := stack + [node];
      forall i | 0 <= i < |p| - 1 ensures Edge(graph, p[i], p[i + 1]) {
        if i < |stack| - 1 {
          assert Edge(graph, stack[i], stack[i + 1]);
        }
      }
      assert forall x :: x in p <==> x in stack || x == node;
    }

    lemma EndFacts(node: nat, before: seq<nat>)
      requires Valid() && stack == before + [node]
      ensures Path(graph, before)
    {
      forall i | 0 <= i < |before| - 1 ensures Edge(graph, before[i], before[i + 1]) {
        assert Edge(graph, stack[i], stack[i + 1]);
      }
    }

    lemma FinishFacts(node: nat)
      requires Topological(graph, order) && Elements(order) == visited && node in graph && node !in visited
      requires forall j :: 0 <= j < |graph[node]| ==> graph[node][j] in visited
      ensures Topological(graph, order + [node]) && Elements(order + [node]) == visited + {node}
    {
      var next := order + [node];
      assert forall x :: x in next <==> x in order || x == node;
      forall i, b | 0 <= i < |next| && b in graph[next[i]] ensures b in next[..i] {
        if i < |order| {
          assert next[..i] == order[..i];
        } else {
          assert next[..i] == order;
          assert b in Elements(order);
        }
      }
      forall i, j | 0 <= i < j < |next| ensures next[i] != next[j] {
        assert next[i] in Elements(order);
      }
    }
  }

  // In a finish order edges lead strictly backwards, so no walk returns to its start.
  lemma {:induction false} PathsGoBackwards(g: Graph, order: seq<nat>, p: seq<nat>, i: nat) returns (j: nat)
    requires Topological(g, order) && Path(g, p) && |p| >= 2
    requires i < |order| && p[0] == order[i]
    ensures j < i && order[j] == p[|p| - 1]
  {
    assert Edge(g, p[0], p[1]);
    assert p[1] in order[..i];
    var k :| 0 <= k < i && order[k] == p[1];
    if |p| == 2 {
      j := k;
    } else {
      var q := p[1..];
      forall m | 0 <= m < |q| - 1 ensures Edge(g, q[m], q[m + 1]) {
        assert Edge(g, p[m + 1], p[m + 2]);
      }
      j := PathsGoBackwards(g, order, q, k);
    }
  }

  lemma CompleteOrderProves(g: Graph, order: seq<nat>)
    requires Topological(g, order) && Elements(order) == g.Keys
    ensures AllKnown(g) && Acyclic(g)
  {
    forall a, i | a in g && 0 <= i < |g[a]| ensures g[a][i] in g {
      assert a in Elements(order);
      var k :| 0 <= k < |order| && order[k] == a;
      assert g[a][i] in order[..k];
      assert g[a][i] in Elements(order);
    }
    forall p | IsCycle(g, p) ensures false {
      assert Edge(g, p[0], p[1]);
      assert p[0] in Elements(order);
      var k :| 0 <= k < |order| && order[k] == p[0];
      var j := PathsGoBackwards(g, order, p, k);
    }
  }

  // Validation succeeds exactly on the graphs with known dependencies and no cycle.
  method ValidateDependencyGraph(g: Graph) returns (r: Result<(), GraphError>, ghost finish: seq<nat>)
    ensures r.Success? <==> AllKnown(g) && Acyclic(g)
    ensures r.Success? ==> Topological(g, finish) && Elements(finish) == g.Keys
    ensures r.Failure? && r.error.CycleFound? ==> !Acyclic(g)
    ensures r.Failure? && r.error.UnknownDependency? ==> r.error.node !in g && exists a :: Edge(g, a, r.error.node)
  {
    var v := new Visitor(g);
    var todo := g.Keys;
    finish := [];
    while todo != {}
      invariant todo <= g.Keys && v.graph == g
      invariant v.Valid() && v.visiting == {} && v.stack == []
      invariant g.Keys - todo <= v.visited
      decreases todo
    {
      var node :| node in todo;
      r := v.Visit(node);
      if r.Failure? {
        UnknownIsNotKnown(g, r.error);
        return;
      }
      todo := todo - {node};
    }
    r := Success(());
    finish := v.order;
    assert Elements(finish) == g.Keys;
    CompleteOrderProves(g, finish);
  }

  lemma UnknownIsNotKnown(g: Graph, e: GraphError)
    requires e.UnknownDependency? ==> e.node !in g && exists a :: Edge(g, a, e.node)
    ensures e.UnknownDependency? ==> !AllKnown(g)
  {
    if e.UnknownDependency? {
      var a :| Edge(g, a, e.node);
      var i :| 0 <= i < |g[a]| && g[a][i] == e.node;
    }
  }

  // Execution plans ----------------------------------------------------------------------

  datatype Shape = SingleMachine | TaskSplit | Pipeline | DistributedNative

  datatype Workload = Workload(id: nat, dependsOn: seq<nat>)

  datatype PlanError = OutOfBounds | WrongShape | NotAPipeline | ForeignDependency | BadGraph(reason: GraphError)

  function PlanIds(ws: seq<Workload>): set<nat> {
    set i | 0 <= i < |ws| :: ws[i].id
  }

  // The mapping handed to the graph check; a repeated id keeps its last entry.
  function PlanGraph(ws: seq<Workload>): (g: Graph)
    ensures g.Keys == PlanIds(ws)
    ensures forall a :: a in g ==> Workload(a, g[a]) in ws
  {
    if ws == [] then map[] else
      var last := |ws| - 1;
      assert ws == ws[..last] + [ws[last]];
      assert PlanIds(ws) == PlanIds(ws[..last]) + {ws[last].id};
      PlanGraph(ws[..last])[ws[last].id := ws[last].dependsOn]
  }

  predicate Closed(ws: seq<Workload>) {
    forall i, j :: 0 <= i < |ws| && 0 <= j < |ws[i].dependsOn| ==> ws[i].dependsOn[j] in PlanIds(ws)
  }

  predicate SizesFit(shape: Shape, count: nat, required: nat) {
    match shape
    case DistributedNative => count == 1 && required >= 2
    case SingleMachine => count == 1 && required == 1
    case TaskSplit => required == 1
    case Pipeline => required == 1
  }

  const MAX_WORKERS: nat := 64

  ghost predicate PlanIsSound(shape: Shape, ws: seq<Workload>, required: nat) {
    && |ws| >= 1 && 1 <= required <= 64 && SizesFit(shape, |ws|, required)
    && (shape.Pipeline? ==>
      |ws| >= 2 && (exists i :: 0 <= i < |ws| && ws[i].dependsOn != []) && Closed(ws) && Acyclic(PlanGraph(ws)))
  }

  lemma ClosedPlansAreKnown(ws: seq<Workload>)
    requires Closed(ws)
    ensures AllKnown(PlanGraph(ws))
  {
    var g := PlanGraph(ws);
    forall a, j | a in g && 0 <= j < |g[a]| ensures g[a][j] in g {
      assert Workload(a, g[a]) in ws;
      var i :| 0 <= i < |ws| && ws[i] == Workload(a, g[a]);
      assert ws[i].dependsOn[j] in PlanIds(ws);
    }
  }

  // The fault that is reported is the first one in the order of the checks.
  ghost predicate FaultOf(shape: Shape, ws: seq<Workload>, required: nat, e: PlanError) {
    if !(|ws| >= 1 && 1 <= required <= MAX_WORKERS) then e == OutOfBounds
    else if !SizesFit(shape, |ws|, required) then e == WrongShape
    else if !shape.Pipeline? then false
    else if |ws| < 2 || forall i :: 0 <= i < |ws| ==> ws[i].dependsOn == [] then e == NotAPipeline
    else if !Closed(ws) then e == ForeignDependency
    else !Acyclic(PlanGraph(ws)) && e == BadGraph(CycleFound)
  }

  predicate DistinctWorkloads(ws: seq<Workload>) {
    forall i, j :: 0 <= i < j < |ws| ==> ws[i].id != ws[j].id
  }

  // The mapping is the plan: each workload with its own dependencies, the last of equal ids counting.
  lemma {:induction false} PlanGraphIsPlan(ws: seq<Workload>, i: nat)
    requires i < |ws| && forall j :: i < j < |ws| ==> ws[j].id != ws[i].id
    ensures ws[i].id in PlanGraph(ws) && PlanGraph(ws)[ws[i].id] == ws[i].dependsOn
  {
    if i < |ws| - 1 {
      PlanGraphIsPlan(ws[..|ws| - 1], i);
    }
  }

  // With distinct ids a plan is closed exactly when its graph has only known dependencies.
  lemma ClosedIffKnown(ws: seq<Workload>)
    requires DistinctWorkloads(ws)
    ensures Closed(ws) <==> AllKnown(PlanGraph(ws))
  {
    if Closed(ws) {
      ClosedPlansAreKnown(ws);
    }
    if AllKnown(PlanGraph(ws)) {
      forall i, j | 0 <= i < |ws| && 0 <= j < |ws[i].dependsOn| ensures ws[i].dependsOn[j] in PlanIds(ws) {
        PlanGraphIsPlan(ws, i);
        assert PlanGraph(ws)[ws[i].id][j] in PlanGraph(ws);
      }
    }
  }

  function ListedIds(ws: seq<Workload>): (ids: seq<nat>)
    ensures |ids| == |ws| && forall i :: 0 <= i < |ws| ==> ids[i] == ws[i].id
  {
    seq(|ws|, i requires 0 <= i < |ws| => ws[i].id)
  }

  // Every dependency is on a workload listed earlier.
  predicate Backward(ws: seq<Workload>) {
    forall i, d :: 0 <= i < |ws| && d in ws[i].dependsOn ==> d in ListedIds(ws)[..i]
  }

  lemma ListedIdsComplete(ws: seq<Workload>)
    ensures Elements(ListedIds(ws)) == PlanIds(ws)
  {
    var ids := ListedIds(ws);
    forall id | id in PlanIds(ws) ensures id in ids {
      var i :| 0 <= i < |ws| && ws[i].id == id;
      assert ids[i] == id;
    }
  }

  lemma BackwardIsTopological(ws: seq<Workload>)
    requires DistinctWorkloads(ws) && Backward(ws)
    ensures Topological(PlanGraph(ws), ListedIds(ws))
  {
    forall i | 0 <= i < |ws| ensures ListedIds(ws)[i] in PlanGraph(ws) && PlanGraph(ws)[ListedIds(ws)[i]] == ws[i].dependsOn {
      PlanGraphIsPlan(ws, i);
    }
  }

  // A pipeline of distinct workloads that depend on earlier ones alone is sound.
  lemma BackwardPlansAreSound(ws: seq<Workload>)
    requires DistinctWorkloads(ws) && Backward(ws) && |ws| >= 2 && exists i :: 0 <= i < |ws| && ws[i].dependsOn != []
    ensures PlanIsSound(Pipeline, ws, 1)
  {
    BackwardIsTopological(ws);
    ListedIdsComplete(ws);
    CompleteOrderProves(PlanGraph(ws), ListedIds(ws));
    ClosedIffKnown(ws);
  }

  // A submitted plan is accepted exactly when its shape fits and, for a pipeline, its
  // dependencies stay inside the plan and contain no cycle.
  method ValidatePlan(shape: Shape, ws: seq<Workload>, required: nat) returns (r: Result<(), PlanError>)
    ensures r.Success? <==> PlanIsSound(shape, ws, required)
    ensures r.Failure? ==> FaultOf(shape, ws, required, r.error)
  {
    if ws == [] || required < 1 || required > MAX_WORKERS {
      return Failure(OutOfBounds);
    }
    if shape.DistributedNative? {
      if |ws| != 1 || required < 2 {
        return Failure(WrongShape);
      }
    } else if required != 1 {
      return Failure(WrongShape);
    } else if shape.SingleMachine? && |ws| != 1 {
      return Failure(WrongShape);
    }
    if shape.Pipeline? {
      if |ws| < 2 || !exists i :: 0 <= i < |ws| && ws[i].dependsOn != [] {
        return Failure(NotAPipeline);
      }
      if !Closed(ws) {
        return Failure(ForeignDependency);
      }
      ClosedPlansAreKnown(ws);
      var checked, _ := ValidateDependencyGraph(PlanGraph(ws));
      if checked.Failure? && checked.error.UnknownDependency? { UnknownIsNotKnown(PlanGraph(ws), checked.error); }
      if checked.Failure? {
        return Failure(BadGraph(checked.error));
      }
    }
    r := Success(());
  }
}
