/** The dependency check of the pull-request ledger: the graph the validator builds
    from ledger rows and the depth-first search for a cycle in it. */
module PrLedger {
  import opened Options

  const ORIGINAL_PRS: set<int> :=
    {39, 40, 41, 47, 55, 58, 59, 60, 62, 65, 67, 69, 70, 71, 72, 100, 101, 102, 105, 109, 110, 115, 117, 123}

  // ---------------------------------------------------------------- graphs and paths

  type Graph = map<int, seq<int>>

  function Deps(graph: Graph, n: int): seq<int> {
    if n in graph then graph[n] else []
  }

  /** Each step of `path` goes from a node to one of its dependencies. */
  ghost predicate IsPath(graph: Graph, path: seq<int>) {
    forall i | 0 <= i < |path| - 1 :: path[i] in graph && path[i + 1] in graph[path[i]]
  }

  ghost predicate IsCycle(graph: Graph, path: seq<int>) {
    |path| >= 2 && IsPath(graph, path) && path[0] == path[|path| - 1]
  }

  /** The graph contains a nonempty closed path. */
  ghost predicate HasCycle(graph: Graph) {
    exists path :: IsCycle(graph, path)
  }

  /** Every node comes after all of its dependencies. */
  ghost predicate Topological(graph: Graph, order: seq<int>) {
    forall i | 0 <= i < |order| && order[i] in graph :: forall dep | dep in graph[order[i]] :: dep in order[..i]
  }

  ghost predicate Distinct(order: seq<int>) {
    forall i, j | 0 <= i < j < |order| :: order[i] != order[j]
  }

  /** Everything the search can reach. */
  function Nodes(graph: Graph): set<int> {
    graph.Keys + set n, dep | n in graph && dep in graph[n] :: dep
  }

  lemma DepsAreNodes(graph: Graph, n: int, dep: int)
    requires dep in Deps(graph, n)
    ensures dep in Nodes(graph)
  {
  }

  lemma TopologicalSnoc(graph: Graph, order: seq<int>, n: int)
    requires Topological(graph, order)
    requires forall dep | dep in Deps(graph, n) :: dep in order
    ensures Topological(graph, order + [n])
  {
    assert forall i | 0 <= i <= |order| :: (order + [n])[..i] == order[..i];
    assert order[..|order|] == order;
  }

  // ---------------------------------------------------------------- the search, in place

  class CycleSearch {
    const graph: Graph
    var visiting: set<int>
    var visited: set<int>
    ghost var order: seq<int>

    constructor (graph: Graph)
      ensures this.graph == graph && visiting == {} && visited == {} && order == []
    {
      this.graph := graph;
      visiting, visited, order := {}, {}, [];
    }

    /** No cycle has been reported yet: `visited` is closed, and `order` lists it dependencies first. */
    ghost predicate Clean()
      reads this
    {
      && Distinct(order)
      && Topological(graph, order)
      && (forall n :: n in visited <==> n in order)
    }

    /** `trail` leads from the root to the current node, through exactly the nodes being visited. */
    ghost predicate OnTrail(trail: seq<int>, n: int)
      reads this
    {
      && IsPath(graph, trail + [n])
      && (forall v :: v in visiting <==> v in trail)
    }

    method Cycle(n: int, ghost trail: seq<int>) returns (found: bool)
      requires Clean() && OnTrail(trail, n) && visiting !! visited
      requires n in Nodes(graph) && visiting <= Nodes(graph)
      modifies this`visiting, this`visited, this`order
      ensures visiting == old(visiting)
      ensures found ==> HasCycle(graph)
      ensures !found ==>
              Clean() && old(order) <= order && old(visited) <= visited && n in visited && visiting !! visited
      decreases Nodes(graph) - visiting - visited, 1, 0
    {
      if n in visiting {
        ghost var i :| 0 <= i < |trail| && trail[i] == n;
        assert (trail + [n])[i..][0] == n;
        assert IsCycle(graph, (trail + [n])[i..]);
        return true;
      }
      if n in visited {
        return false;
      }
      assert n in Nodes(graph) - visiting - visited;
      visiting := visiting + {n};
      found := AnyCycle(n, Deps(graph, n), trail);
      visiting := visiting - {n};
      visited := visited + {n};
      if !found {
        TopologicalSnoc(graph, order, n);
      }
      order := order + [n];
    }

    /** any(cycle(dep, visiting, visited) for dep in deps): stops at the first hit. */
    method AnyCycle(n: int, deps: seq<int>, ghost trail: seq<int>) returns (found: bool)
      requires Clean() && IsPath(graph, trail + [n]) && n !in trail && visiting !! visited
      requires forall v :: v in visiting <==> v in trail + [n]
      requires deps == Deps(graph, n) && visiting <= Nodes(graph)
      modifies this`visiting, this`visited, this`order
      ensures visiting == old(visiting)
      ensures found ==> HasCycle(graph)
      ensures !found ==>
                && Clean() && old(order) <= order && old(visited) <= visited && visiting !! visited
                && forall dep | dep in deps :: dep in visited
      decreases Nodes(graph) - visiting - visited, 2, 0
    {
      found := false;
      for i := 0 to |deps|
        invariant visiting == old(visiting) && visiting !! visited && !found
        invariant Clean() && old(order) <= order && old(visited) <= visited
        invariant forall j | 0 <= j < i :: deps[j] in visited
      {
        DepsAreNodes(graph, n, deps[i]);
        assert IsPath(graph, trail + [n] + [deps[i]]);
        found := Cycle(deps[i], trail + [n]);
        if found {
          return;
        }
      }
    }
  }

  /** not any(cycle(number, set(), visited) for number in graph): one search per root, sharing `visited`. */
  method AnyRootHasCycle(graph: Graph, roots: seq<int>) returns (found: bool, ghost order: seq<int>)
    requires forall n :: n in roots <==> n in graph
    ensures found <==> HasCycle(graph)
    ensures !found ==> Distinct(order) && Topological(graph, order) && forall n | n in graph :: n in order
  {
    var search := new CycleSearch(graph);
    found, order := false, [];
    for i := 0 to |roots|
      invariant fresh(search) && search.graph == graph && search.visiting == {} && search.Clean() && !found
      invariant forall j | 0 <= j < i :: roots[j] in search.visited
    {
      search.visiting := {};
      found := search.Cycle(roots[i], []);
      if found {
        return;
      }
    }
    order := search.order;
    OrderedGraphIsAcyclic(graph, order);
  }

  /** Along a path the position in a topological order only goes down. */
  lemma {:induction false} PathGoesDown(graph: Graph, order: seq<int>, path: seq<int>, i: nat, k: nat)
    requires Topological(graph, order) && IsPath(graph, path)
    requires 0 < k < |path| && i < |order| && order[i] == path[0]
    ensures path[k] in order[..i]
    decreases k
  {
    if k > 1 {
      PathGoesDown(graph, order, path, i, k - 1);
      var j :| 0 <= j < i && order[j] == path[k - 1];
      StepDown(graph, order, path[k - 1], j, path[k]);
    } else {
      StepDown(graph, order, path[0], i, path[1]);
    }
  }

  lemma StepDown(graph: Graph, order: seq<int>, n: int, i: nat, dep: int)
    requires Topological(graph, order) && i < |order| && order[i] == n && dep in Deps(graph, n)
    ensures dep in order[..i]
  {
  }

  lemma OrderedGraphIsAcyclic(graph: Graph, order: seq<int>)
    requires Topological(graph, order) && Distinct(order) && forall n | n in graph :: n in order
    ensures !HasCycle(graph)
  {
    if HasCycle(graph) {
      var path :| IsCycle(graph, path);
      assert path[1] in Deps(graph, path[0]);
      var i :| 0 <= i < |order| && order[i] == path[0];
      PathGoesDown(graph, order, path, i, |path| - 1);
    }
  }

  // ---------------------------------------------------------------- from ledger rows to the graph

  /** A row's number as JSON may have it; a float can equal an integer without being one. */
  datatype Number = Whole(n: int) | Float(x: real) | NotANumber

  /** A row as the validator reads it; None stands for a value of the wrong type. */
  datatype Row =
    | NotAnObject
    | Row(number: Number, dependencies: Option<seq<Option<int>>>)

  /** dep == number */
  predicate Equals(dep: int, number: Number) {
    match number
    case Whole(n) => dep == n
    case Float(x) => dep as real == x
    case NotANumber => false
  }

  predicate ValidDependencies(row: Row) {
    && row.Row?
    && row.dependencies.Some?
    && forall dep | dep in row.dependencies.value ::
         dep.Some? && dep.value in ORIGINAL_PRS && !Equals(dep.value, row.number)
  }

  predicate EntersGraph(row: Row) {
    ValidDependencies(row) && row.number.Whole?
  }

  function Numbers(deps: seq<Option<int>>): (numbers: seq<int>)
    requires forall dep | dep in deps :: dep.Some?
    ensures |numbers| == |deps| && forall i | 0 <= i < |deps| :: deps[i] == Some(numbers[i])
  {
    if deps == [] then [] else [deps[0].value] + Numbers(deps[1..])
  }

  /** The row lists dependencies, each of them the number of another original pull request. */
  ghost predicate Sound(row: Row) {
    && row.Row? && row.dependencies.Some?
    && forall dep | dep in row.dependencies.value ::
         && dep.Some? && dep.value in ORIGINAL_PRS
         && row.number != Whole(dep.value) && row.number != Float(dep.value as real)
  }

  /** `graph` maps each number to the dependencies of the last sound row that has it. */
  ghost predicate IsGraphOf(graph: Graph, rows: seq<Row>) {
    && (forall n | n in graph :: exists i :: IsLastRowOf(rows, i, n) && graph[n] == Numbers(rows[i].dependencies.value))
    && (forall i | 0 <= i < |rows| && Sound(rows[i]) && rows[i].number.Whole? :: rows[i].number.n in graph)
  }

  ghost predicate IsLastRowOf(rows: seq<Row>, i: int, n: int) {
    && 0 <= i < |rows| && Sound(rows[i]) && rows[i].number == Whole(n)
    && forall j | i < j < |rows| && Sound(rows[j]) :: rows[j].number != Whole(n)
  }

  /** The part of validate() that builds the graph and reports a cycle in it. */
  method DependencyErrors(rows: seq<Row>) returns (graph: Graph, cyclic: bool, invalid: set<nat>)
    ensures IsGraphOf(graph, rows)
    ensures cyclic <==> HasCycle(graph)
    ensures forall i :: i in invalid <==> 0 <= i < |rows| && rows[i].Row? && !Sound(rows[i])
  {
    graph, invalid := map[], {};
    var roots: seq<int> := [];
    for i := 0 to |rows|
      invariant IsGraphOf(graph, rows[..i])
      invariant forall n :: n in roots <==> n in graph
      invariant forall j :: j in invalid <==> 0 <= j < i && rows[j].Row? && !ValidDependencies(rows[j])
    {
      ghost var before := graph;
      if rows[i].Row? {
        if !ValidDependencies(rows[i]) {
          invalid := invalid + {i};
        } else if rows[i].number.Whole? {
          var number := rows[i].number.n;
          if number !in graph {
            roots := roots + [number];
          }
          graph := graph[number := Numbers(rows[i].dependencies.value)];
        }
      }
      GraphStep(before, rows[..i], rows[i]);
      assert rows[..i] + [rows[i]] == rows[..i + 1];
    }
    assert rows[..|rows|] == rows;
    ghost var order;
    cyclic, order := AnyRootHasCycle(graph, roots);
  }

  lemma GraphStep(graph: Graph, rows: seq<Row>, row: Row)
    requires IsGraphOf(graph, rows)
    ensures IsGraphOf(
              if EntersGraph(row) then graph[row.number.n := Numbers(row.dependencies.value)] else graph,
              rows + [row])
  {
    var more := rows + [row];
    var after := if EntersGraph(row) then graph[row.number.n := Numbers(row.dependencies.value)] else graph;
    assert more[|rows|] == row;
    forall n | n in after
      ensures exists i :: IsLastRowOf(more, i, n) && after[n] == Numbers(more[i].dependencies.value)
    {
      if EntersGraph(row) && n == row.number.n {
        assert IsLastRowOf(more, |rows|, n);
      } else {
        var i :| IsLastRowOf(rows, i, n) && graph[n] == Numbers(rows[i].dependencies.value);
        assert more[i] == rows[i];
        assert IsLastRowOf(more, i, n);
      }
    }
  }

  /** A reported cycle runs through at least two different original pull requests. */
  lemma CyclesAreReal(graph: Graph, rows: seq<Row>, path: seq<int>)
    requires IsGraphOf(graph, rows) && IsCycle(graph, path)
    ensures |path| >= 3 && path[0] != path[1]
    ensures forall n | n in path :: n in ORIGINAL_PRS
  {
    forall n | n in path
      ensures n in ORIGINAL_PRS
    {
      var k :| 0 <= k < |path| && path[k] == n;
      var before := if k > 0 then k - 1 else |path| - 2;
      assert path[before + 1] in Deps(graph, path[before]);
      EdgesAreReal(graph, rows, path[before], n);
    }
    assert path[0 + 1] in Deps(graph, path[0]);
    EdgesAreReal(graph, rows, path[0], path[1]);
  }

  lemma EdgesAreReal(graph: Graph, rows: seq<Row>, from: int, to: int)
    requires IsGraphOf(graph, rows) && to in Deps(graph, from)
    ensures to in ORIGINAL_PRS && from != to
  {
    var i :| IsLastRowOf(rows, i, from) && graph[from] == Numbers(rows[i].dependencies.value);
    var d :| 0 <= d < |graph[from]| && graph[from][d] == to;
    assert rows[i].dependencies.value[d] in rows[i].dependencies.value;
  }
}
