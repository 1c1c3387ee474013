/**
 * Wait-for graphs given as edge lists: successor lists, the node list in
 * first-appearance order, walks, cycles, and the witness shape the detector
 * reports.
 */
module WaitForGraphSpec {
  /** `(a, b)`: process `a` waits for a resource held by process `b`. */
  type Edge = (int, int)

  /** The targets of the edges leaving `u`, in the order the edges are listed. */
  function Successors(edges: seq<Edge>, u: int): seq<int>
    decreases |edges|
  {
    if edges == [] then []
    else
      var last := edges[|edges| - 1];
      Successors(edges[..|edges| - 1], u) + (if last.0 == u then [last.1] else [])
  }

  lemma {:induction false} SuccessorsAreTargets(edges: seq<Edge>, u: int)
    ensures forall v :: v in Successors(edges, u) <==> (u, v) in edges
  {
    if edges != [] {
      var init := edges[..|edges| - 1];
      SuccessorsAreTargets(init, u);
      assert edges == init + [edges[|edges| - 1]];
    }
  }

  lemma SuccessorIsTarget(edges: seq<Edge>, u: int, k: nat)
    requires k < |Successors(edges, u)|
    ensures (u, Successors(edges, u)[k]) in edges
  {
    SuccessorsAreTargets(edges, u);
  }

  lemma EdgeIsSuccessor(edges: seq<Edge>, k: nat)
    requires k < |edges|
    ensures edges[k].1 in Successors(edges, edges[k].0)
  {
    assert edges[k] == (edges[k].0, edges[k].1);
    SuccessorsAreTargets(edges, edges[k].0);
  }

  /** Both endpoints of every edge, edge by edge. */
  function Flatten(edges: seq<Edge>): seq<int>
    decreases |edges|
  {
    if edges == [] then []
    else
      var last := edges[|edges| - 1];
      Flatten(edges[..|edges| - 1]) + [last.0, last.1]
  }

  /** `x` is the waiting or the holding end of some edge. */
  ghost predicate IsEndpoint(edges: seq<Edge>, x: int)
  {
    exists k :: 0 <= k < |edges| && (edges[k].0 == x || edges[k].1 == x)
  }

  lemma {:induction false} FlattenHoldsEndpoints(edges: seq<Edge>)
    ensures forall x :: x in Flatten(edges) <==> IsEndpoint(edges, x)
  {
    if edges != [] {
      var init, last := edges[..|edges| - 1], edges[|edges| - 1];
      FlattenHoldsEndpoints(init);
      forall x | IsEndpoint(edges, x)
        ensures x in Flatten(edges)
      {
        var k :| 0 <= k < |edges| && (edges[k].0 == x || edges[k].1 == x);
        if k < |init| {
          assert init[k] == edges[k];
          assert IsEndpoint(init, x);
        }
      }
      forall x | x in Flatten(edges)
        ensures IsEndpoint(edges, x)
      {
        if x in Flatten(init) {
          var k :| 0 <= k < |init| && (init[k].0 == x || init[k].1 == x);
          assert edges[k] == init[k];
        } else {
          assert edges[|edges| - 1] == last;
        }
      }
    }
  }

  /** Both ends of an edge are among the flattened endpoints. */
  lemma EdgeEndsFlattened(edges: seq<Edge>, u: int, v: int)
    requires (u, v) in edges
    ensures u in Flatten(edges) && v in Flatten(edges)
  {
    FlattenHoldsEndpoints(edges);
    var k :| 0 <= k < |edges| && edges[k] == (u, v);
    assert IsEndpoint(edges, u) && IsEndpoint(edges, v);
  }

  /** The node universe of the graph. */
  ghost function NodeSet(edges: seq<Edge>): set<int>
  {
    set x | x in Flatten(edges)
  }

  /** `s` without repetitions, each element kept at its first appearance. */
  function Distinct(s: seq<int>): seq<int>
    decreases |s|
  {
    if s == [] then []
    else
      var d := Distinct(s[..|s| - 1]);
      if s[|s| - 1] in d then d else d + [s[|s| - 1]]
  }

  predicate NoDuplicates(s: seq<int>)
  {
    forall i, j :: 0 <= i < j < |s| ==> s[i] != s[j]
  }

  /** Every occurrence of `b` in `s` is preceded by an occurrence of `a`. */
  ghost predicate SeenBefore(s: seq<int>, a: int, b: int)
  {
    forall q :: 0 <= q < |s| && s[q] == b ==> a in s[..q]
  }

  lemma {:induction false} DistinctKeepsFirstAppearances(s: seq<int>)
    ensures forall x :: x in Distinct(s) <==> x in s
    ensures NoDuplicates(Distinct(s))
    ensures forall i, j :: 0 <= i < j < |Distinct(s)| ==> SeenBefore(s, Distinct(s)[i], Distinct(s)[j])
  {
    if s != [] {
      var init, x := s[..|s| - 1], s[|s| - 1];
      var d := Distinct(init);
      DistinctKeepsFirstAppearances(init);
      assert s == init + [x];
      if x in d {
        forall i, j | 0 <= i < j < |d|
          ensures SeenBefore(s, d[i], d[j])
        {
          SeenBeforeExtends(init, x, d[i], d[j]);
        }
      } else {
        var d' := d + [x];
        forall i, j | 0 <= i < j < |d'|
          ensures SeenBefore(s, d'[i], d'[j])
        {
          if j < |d| {
            SeenBeforeExtends(init, x, d[i], d[j]);
          } else {
            forall q | 0 <= q < |s| && s[q] == x
              ensures d[i] in s[..q]
            {
              assert s[..q] == init;
            }
          }
        }
      }
    }
  }

  /** Appending an element that is not `b`, or appending `b` once `a` has been seen, keeps `a` before `b`. */
  lemma SeenBeforeExtends(s: seq<int>, x: int, a: int, b: int)
    requires SeenBefore(s, a, b) && a in s
    ensures SeenBefore(s + [x], a, b)
  {
    var s' := s + [x];
    forall q | 0 <= q < |s'| && s'[q] == b
      ensures a in s'[..q]
    {
      if q < |s| {
        assert s'[..q] == s[..q];
      } else {
        assert s'[..q] == s;
      }
    }
  }

  /** Every consecutive pair of `w` is an edge. */
  predicate IsWalk(edges: seq<Edge>, w: seq<int>)
  {
    forall i :: 0 <= i < |w| - 1 ==> (w[i], w[i + 1]) in edges
  }

  /** A closed walk: it starts and ends at the same node. */
  predicate IsCycle(edges: seq<Edge>, c: seq<int>)
  {
    |c| >= 2 && c[0] == c[|c| - 1] && IsWalk(edges, c)
  }

  ghost predicate HasCycle(edges: seq<Edge>)
  {
    exists c :: IsCycle(edges, c)
  }

  /** What the detector reports: a walk from the DFS root whose last node
      already occurs earlier on it (not necessarily at its start). */
  predicate IsWitness(edges: seq<Edge>, w: seq<int>)
  {
    |w| >= 2 && IsWalk(edges, w) && w[|w| - 1] in w[..|w| - 1]
  }

  function FirstIndex(s: seq<int>, x: int): (k: nat)
    requires x in s
    ensures k < |s| && s[k] == x && x !in s[..k]
  {
    if s[0] == x then 0
    else
      var k := 1 + FirstIndex(s[1..], x);
      assert s[..k] == [s[0]] + s[1..][..k - 1];
      k
  }

  /** The cycle a witness closes: its suffix from the first occurrence of its last node. */
  function CycleOf(w: seq<int>): seq<int>
    requires |w| >= 2 && w[|w| - 1] in w[..|w| - 1]
  {
    w[FirstIndex(w[..|w| - 1], w[|w| - 1])..]
  }

  lemma WitnessClosesCycle(edges: seq<Edge>, w: seq<int>)
    requires IsWitness(edges, w)
    ensures IsCycle(edges, CycleOf(w)) && HasCycle(edges)
  {
    var k := FirstIndex(w[..|w| - 1], w[|w| - 1]);
    var c := w[k..];
    forall i | 0 <= i < |c| - 1
      ensures (c[i], c[i + 1]) in edges
    {
      assert c[i] == w[k + i] && c[i + 1] == w[k + i + 1];
    }
    assert IsCycle(edges, c);
  }

  /** A finishing rank on which every edge strictly descends. */
  ghost predicate Ranks(edges: seq<Edge>, rank: map<int, nat>)
  {
    forall k :: 0 <= k < |edges| ==> edges[k].0 in rank && edges[k].1 in rank && rank[edges[k].1] < rank[edges[k].0]
  }

  lemma {:induction false} RankDescendsAlongWalk(edges: seq<Edge>, rank: map<int, nat>, w: seq<int>, i: nat)
    requires Ranks(edges, rank) && IsWalk(edges, w)
    requires 1 <= i < |w|
    ensures w[0] in rank && w[i] in rank && rank[w[i]] + i <= rank[w[0]]
  {
    assert (w[i - 1], w[i]) in edges;
    var k :| 0 <= k < |edges| && edges[k] == (w[i - 1], w[i]);
    if i > 1 {
      RankDescendsAlongWalk(edges, rank, w, i - 1);
    }
  }

  lemma RankingForbidsCycles(edges: seq<Edge>, rank: map<int, nat>)
    requires Ranks(edges, rank)
    ensures !HasCycle(edges)
  {
    if HasCycle(edges) {
      var c :| IsCycle(edges, c);
      RankDescendsAlongWalk(edges, rank, c, |c| - 1);
    }
  }

  /**
   * The depth-first search's flags: `onStack` nodes are visited and are
   * exactly the nodes of `path`, which is a walk; every other visited node
   * is finished and carries a finishing rank, and the edges leaving a
   * finished node lead to nodes finished strictly earlier.
   */
  ghost predicate FlagsConsistent(edges: seq<Edge>, visited: set<int>, onStack: set<int>, path: seq<int>,
                                  rank: map<int, nat>, clock: nat)
  {
    && onStack <= visited
    && rank.Keys == visited - onStack
    && (forall x :: x in onStack <==> x in path)
    && IsWalk(edges, path)
    && (forall u :: u in rank ==> rank[u] < clock)
    && (forall k :: 0 <= k < |edges| && edges[k].0 in rank ==>
          edges[k].1 in rank && rank[edges[k].1] < rank[edges[k].0])
  }

  /** Entering an unvisited node along an edge from the top of the path. */
  lemma EnterKeepsFlags(edges: seq<Edge>, visited: set<int>, onStack: set<int>, path: seq<int>,
                        rank: map<int, nat>, clock: nat, node: int)
    requires FlagsConsistent(edges, visited, onStack, path, rank, clock)
    requires node !in visited
    requires path != [] ==> (path[|path| - 1], node) in edges
    ensures FlagsConsistent(edges, visited + {node}, onStack + {node}, path + [node], rank, clock)
  {
    var path' := path + [node];
    forall i | 0 <= i < |path'| - 1
      ensures (path'[i], path'[i + 1]) in edges
    {
      if i < |path| - 1 {
        assert path'[i] == path[i] && path'[i + 1] == path[i + 1];
      }
    }
  }

  /** Every successor of `u` is visited and off the stack. */
  ghost predicate SuccessorsFinished(edges: seq<Edge>, visited: set<int>, onStack: set<int>, u: int)
  {
    var succ := Successors(edges, u);
    forall j :: 0 <= j < |succ| ==> succ[j] in visited && succ[j] !in onStack
  }

  /** Leaving the node on top of the path once all its successors are
      finished: it is popped, leaves the stack and is finished in turn. */
  lemma LeaveKeepsFlags(edges: seq<Edge>, visited: set<int>, onStack: set<int>, path: seq<int>,
                        rank: map<int, nat>, clock: nat, node: int)
    requires FlagsConsistent(edges, visited, onStack, path, rank, clock)
    requires path != [] && path[|path| - 1] == node && node !in path[..|path| - 1]
    requires SuccessorsFinished(edges, visited, onStack, node)
    ensures FlagsConsistent(edges, visited, onStack - {node}, path[..|path| - 1], rank[node := clock], clock + 1)
  {
    SuccessorsAreTargets(edges, node);
    var popped := path[..|path| - 1];
    assert path == popped + [node];
    forall i | 0 <= i < |popped| - 1
      ensures (popped[i], popped[i + 1]) in edges
    {
      assert popped[i] == path[i] && popped[i + 1] == path[i + 1];
    }
    forall x | x in popped
      ensures x in onStack - {node}
    {
      assert x in path;
    }
    assert node in onStack by {
      assert path[|path| - 1] in path;
    }
    var rank' := rank[node := clock];
    forall k | 0 <= k < |edges| && edges[k].0 in rank'
      ensures edges[k].1 in rank' && rank'[edges[k].1] < rank'[edges[k].0]
    {
      var u, v := edges[k].0, edges[k].1;
      if u == node {
        EdgeIsSuccessor(edges, k);
        var j :| 0 <= j < |Successors(edges, u)| && Successors(edges, u)[j] == v;
        assert v in visited && v !in onStack;
        assert v in rank;
        assert v != node;
        assert rank[v] < clock;
      } else {
        assert u in rank;
        assert v in rank && rank[v] < rank[u];
        assert v != node;
      }
    }
  }

  /** An edge from the top of the path back to a node on the stack closes a witness. */
  lemma BackEdgeCloses(edges: seq<Edge>, onStack: set<int>, path: seq<int>, v: int)
    requires (forall x :: x in onStack <==> x in path) && IsWalk(edges, path)
    requires path != [] && (path[|path| - 1], v) in edges && v in onStack
    ensures IsWitness(edges, path + [v])
  {
    var w := path + [v];
    forall i | 0 <= i < |w| - 1
      ensures (w[i], w[i + 1]) in edges
    {
      if i < |path| - 1 {
        assert w[i] == path[i] && w[i + 1] == path[i + 1];
      }
    }
    assert w[..|w| - 1] == path;
  }
}
