/**
 * The wait-for-graph detector: build successor lists, collect the nodes,
 * run a recursive depth-first search with `visited` / `recStack` flags and a
 * shared path, and stop at the first back edge.
 */
module WaitForGraph {
  import opened WaitForGraphSpec
  import opened Detection

  /** `graph[node] || []`: the successor list of `u`, empty when `u` waits for nobody. */
  function Lookup(graph: map<int, seq<int>>, u: int): seq<int>
  {
    if u in graph then graph[u] else []
  }

  /** Appends each edge's target to its source's list, in input order. */
  method BuildGraph(edges: seq<Edge>) returns (graph: map<int, seq<int>>)
    ensures forall u :: Lookup(graph, u) == Successors(edges, u)
  {
    graph := map[];
    for i := 0 to |edges|
      invariant forall u :: Lookup(graph, u) == Successors(edges[..i], u)
    {
      var (from, to) := edges[i];
      if from !in graph {
        graph := graph[from := []];
      }
      graph := graph[from := graph[from] + [to]];
      assert edges[..i + 1][..i] == edges[..i];
    }
    assert edges[..|edges|] == edges;
  }

  /** The distinct node ids of the flattened edge list, in first-appearance order. */
  method CollectNodes(edges: seq<Edge>) returns (nodes: seq<int>)
    ensures forall x :: x in nodes <==> x in Flatten(edges)
    ensures NoDuplicates(nodes)
    ensures forall i, j :: 0 <= i < j < |nodes| ==> SeenBefore(Flatten(edges), nodes[i], nodes[j])
  {
    var flat := Flatten(edges);
    nodes := [];
    for i := 0 to |flat|
      invariant nodes == Distinct(flat[..i])
    {
      assert flat[..i + 1][..i] == flat[..i];
      if flat[i] !in nodes {
        nodes := nodes + [flat[i]];
      }
    }
    assert flat[..|flat|] == flat;
    DistinctKeepsFirstAppearances(flat);
  }

  /** The state one run of the detector keeps: the graph, the node list, the
      flag maps, the path shared by all `dfs` calls and the outcome. */
  class WfgRun {
    const edges: seq<Edge>
    const graph: map<int, seq<int>>
    const nodes: seq<int>
    var visited: set<int>
    var recStack: set<int>
    var path: seq<int>
    var hasCycle: bool
    var cyclePath: seq<int>
    /** Finishing time of every node whose exploration completed. */
    ghost var rank: map<int, nat>
    ghost var clock: nat

    /** The graph and the node list were built from `edges`. */
    ghost predicate Built()
    {
      && (forall u :: Lookup(graph, u) == Successors(edges, u))
      && (forall x :: x in nodes <==> x in Flatten(edges))
    }

    constructor (edges: seq<Edge>)
      ensures this.edges == edges
      ensures Built() && FlagsConsistent(edges, visited, recStack, path, rank, clock) && visited == {} && path == [] && cyclePath == [] && !hasCycle
    {
      this.edges := edges;
      var g := BuildGraph(edges);
      var ns := CollectNodes(edges);
      graph, nodes := g, ns;
      visited, recStack, path := {}, {}, [];
      hasCycle, cyclePath := false, [];
      rank, clock := map[], 0;
    }

    /** `dfs(node, path)`: explores `node`; true as soon as a back edge to a
        node on the recursion stack is found. */
    method Dfs(node: int) returns (found: bool)
      requires Built() && FlagsConsistent(edges, visited, recStack, path, rank, clock) && cyclePath == []
      requires node in Flatten(edges) && node !in visited
      requires path != [] ==> (path[|path| - 1], node) in edges
      modifies this
      decreases NodeSet(edges) - visited, 0
      ensures found ==> IsWitness(edges, cyclePath)
      ensures found ==> |old(path)| < |cyclePath| && cyclePath[..|old(path)| + 1] == old(path) + [node]
      ensures !found ==> FlagsConsistent(edges, visited, recStack, path, rank, clock) && cyclePath == []
      ensures !found ==> path == old(path) && recStack == old(recStack) && hasCycle == old(hasCycle)
      ensures !found ==> old(visited) + {node} <= visited && node !in recStack
    {
      Enter(node);
      found := VisitSuccessors(node);
      if !found {
        assert path[..|path| - 1] == old(path);
        Leave(node);
      }
    }

    /** script.js:31-38: the loop over `node`'s successors, stopping at the first
        one that closes a cycle. */
    method VisitSuccessors(node: int) returns (found: bool)
      requires Built() && FlagsConsistent(edges, visited, recStack, path, rank, clock) && cyclePath == []
      requires path != [] && path[|path| - 1] == node && node in visited
      modifies this
      decreases NodeSet(edges) - visited, 2
      ensures found ==> IsWitness(edges, cyclePath)
      ensures found ==> |old(path)| < |cyclePath| && cyclePath[..|old(path)|] == old(path)
      ensures !found ==> FlagsConsistent(edges, visited, recStack, path, rank, clock) && cyclePath == []
      ensures !found ==> path == old(path) && recStack == old(recStack) && hasCycle == old(hasCycle)
      ensures !found ==> old(visited) <= visited
      ensures !found ==> SuccessorsFinished(edges, visited, recStack, node)
    {
      var succ := Lookup(graph, node);
      for k := 0 to |succ|
        invariant FlagsConsistent(edges, visited, recStack, path, rank, clock) && cyclePath == []
        invariant path == old(path) && recStack == old(recStack) && hasCycle == old(hasCycle)
        invariant old(visited) <= visited
        invariant forall j :: 0 <= j < k ==> succ[j] in visited && succ[j] !in recStack
      {
        SuccessorIsTarget(edges, node, k);
        found := VisitNeighbor(node, succ[k]);
        if found {
          return;
        }
      }
      return false;
    }

    /** script.js:27-29: flag `node` visited and on the stack, push it on the path. */
    method Enter(node: int)
      requires FlagsConsistent(edges, visited, recStack, path, rank, clock)
      requires node !in visited
      requires path != [] ==> (path[|path| - 1], node) in edges
      modifies this`visited, this`recStack, this`path
      ensures visited == old(visited) + {node} && recStack == old(recStack) + {node} && path == old(path) + [node]
      ensures FlagsConsistent(edges, visited, recStack, path, rank, clock)
    {
      EnterKeepsFlags(edges, visited, recStack, path, rank, clock, node);
      visited := visited + {node};
      recStack := recStack + {node};
      path := path + [node];
    }

    /** script.js:40-41: take `node` off the stack and pop it from the path. */
    method Leave(node: int)
      requires FlagsConsistent(edges, visited, recStack, path, rank, clock)
      requires path != [] && path[|path| - 1] == node && node !in path[..|path| - 1]
      requires SuccessorsFinished(edges, visited, recStack, node)
      modifies this`recStack, this`path, this`rank, this`clock
      ensures recStack == old(recStack) - {node} && path == old(path)[..|old(path)| - 1]
      ensures FlagsConsistent(edges, visited, recStack, path, rank, clock)
    {
      LeaveKeepsFlags(edges, visited, recStack, path, rank, clock, node);
      rank := rank[node := clock];
      clock := clock + 1;
      recStack := recStack - {node};
      path := path[..|path| - 1];
    }

    /** One iteration of the loop over `node`'s successors: descend into an
        unvisited neighbour; if that finds nothing (or the neighbour was
        already visited), test whether the neighbour is on the stack. */
    method VisitNeighbor(node: int, neighbor: int) returns (found: bool)
      requires Built() && FlagsConsistent(edges, visited, recStack, path, rank, clock) && cyclePath == []
      requires path != [] && path[|path| - 1] == node && (node, neighbor) in edges
      modifies this
      decreases NodeSet(edges) - visited, 1
      ensures found ==> IsWitness(edges, cyclePath)
      ensures found ==> |old(path)| < |cyclePath| && cyclePath[..|old(path)|] == old(path)
      ensures !found ==> FlagsConsistent(edges, visited, recStack, path, rank, clock) && cyclePath == []
      ensures !found ==> path == old(path) && recStack == old(recStack) && old(visited) <= visited && hasCycle == old(hasCycle)
      ensures !found ==> neighbor in visited && neighbor !in recStack
    {
      var descended := false;
      if neighbor !in visited {
        EdgeEndsFlattened(edges, node, neighbor);
        descended := Dfs(neighbor);
      }
      if descended {
        assert cyclePath[..|old(path)|] == cyclePath[..|old(path)| + 1][..|old(path)|];
        return true;
      } else if neighbor in recStack {
        BackEdgeCloses(edges, recStack, path, neighbor);
        path := path + [neighbor];
        cyclePath := path;
        return true;
      }
      return false;
    }

    /** The outer scan: a DFS from every node not yet visited, stopping at the first cycle. */
    method Scan()
      requires Built() && FlagsConsistent(edges, visited, recStack, path, rank, clock) && visited == {} && path == [] && cyclePath == [] && !hasCycle
      modifies this
      ensures hasCycle <==> HasCycle(edges)
      ensures hasCycle ==> IsWitness(edges, cyclePath)
      ensures !hasCycle ==> cyclePath == []
    {
      for i := 0 to |nodes|
        invariant FlagsConsistent(edges, visited, recStack, path, rank, clock) && path == [] && recStack == {} && cyclePath == [] && !hasCycle
        invariant forall k :: 0 <= k < i ==> nodes[k] in visited
      {
        var node := nodes[i];
        if node !in visited {
          path := [];
          var found := Dfs(node);
          if found {
            hasCycle := true;
            WitnessClosesCycle(edges, cyclePath);
            return;
          }
        }
      }
      forall k | 0 <= k < |edges|
        ensures edges[k].0 in rank && edges[k].1 in rank && rank[edges[k].1] < rank[edges[k].0]
      {
        EdgeEndsFlattened(edges, edges[k].0, edges[k].1);
        var i :| 0 <= i < |nodes| && nodes[i] == edges[k].0;
      }
      RankingForbidsCycles(edges, rank);
    }
  }

  /** `runWFG` without its parsing and display: Deadlock with the witness
      walk when the graph has a cycle, Safe otherwise. */
  method DetectCycle(edges: seq<Edge>) returns (r: DetectionResult)
    ensures r.Deadlock? <==> HasCycle(edges)
    ensures r.Deadlock? ==> r.evidence.Cycle? && IsWitness(edges, r.evidence.nodes)
  {
    var run := new WfgRun(edges);
    run.Scan();
    if run.hasCycle {
      r := Deadlock(Cycle(run.cyclePath));
    } else {
      r := Safe;
    }
  }
}
