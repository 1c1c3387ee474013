/**
 * Small instances of both detection problems, decided through the
 * definitions the detectors are proved against.
 */
module Scenarios {
  import opened WaitForGraphSpec
  import opened BankerSpec

  /** A process waiting for itself is a deadlock. */
  lemma SelfLoopHasCycle()
    ensures HasCycle([(1, 1)])
  {
    assert IsCycle([(1, 1)], [1, 1]);
  }

  /** Three processes waiting in a ring are a deadlock. */
  lemma RingHasCycle()
    ensures HasCycle([(1, 2), (2, 3), (3, 1)])
  {
    var edges := [(1, 2), (2, 3), (3, 1)];
    var c := [1, 2, 3, 1];
    assert (c[0], c[1]) == edges[0] && (c[1], c[2]) == edges[1] && (c[2], c[3]) == edges[2];
    assert IsCycle(edges, c);
  }

  /**
   * A witness need not start on its cycle. Over (1, 2), (2, 2), a search
   * rooted at 1 reports a walk beginning with 1, and 1, 2, 2 is a witness
   * whose first and last nodes differ; the cycle it closes is its suffix 2, 2.
   */
  lemma RootedWitness()
    ensures IsWitness([(1, 2), (2, 2)], [1, 2, 2]) && !IsCycle([(1, 2), (2, 2)], [1, 2, 2])
    ensures CycleOf([1, 2, 2]) == [2, 2] && IsCycle([(1, 2), (2, 2)], [2, 2])
  {
    var edges, w := [(1, 2), (2, 2)], [1, 2, 2];
    assert (w[0], w[1]) == edges[0] && (w[1], w[2]) == edges[1];
    assert w[..2] == [1, 2];
    assert FirstIndex([1, 2], 2) == 1;
  }

  /** A chain of waits is not a deadlock: ranks 2, 1, 0 descend along it. */
  lemma ChainHasNoCycle()
    ensures !HasCycle([(1, 2), (2, 3)])
  {
    var edges := [(1, 2), (2, 3)];
    var rank: map<int, nat> := map[1 := 2, 2 := 1, 3 := 0];
    assert Ranks(edges, rank) by {
      forall k | 0 <= k < |edges|
        ensures edges[k].0 in rank && edges[k].1 in rank && rank[edges[k].1] < rank[edges[k].0]
      {
        if k == 0 {
          assert edges[k] == (1, 2);
        } else {
          assert edges[k] == (2, 3);
        }
      }
    }
    RankingForbidsCycles(edges, rank);
  }

  /**
   * Two processes each holding the unit the other requests, with nothing
   * free: neither can be granted in any order.
   */
  lemma MutualWaitIsDeadlocked()
    ensures Shaped([0, 0], [[1, 0], [0, 1]], [[0, 1], [1, 0]])
    ensures !Completable([0, 0], [[1, 0], [0, 1]], [[0, 1], [1, 0]], 0)
    ensures !Completable([0, 0], [[1, 0], [0, 1]], [[0, 1], [1, 0]], 1)
  {
    var available, allocation, request := [0, 0], [[1, 0], [0, 1]], [[0, 1], [1, 0]];
    var finish := [false, false];
    NothingReleased(available, allocation, finish);
    assert !Fits(request[0], available) by { assert request[0][1] > available[1]; }
    assert !Fits(request[1], available) by { assert request[1][0] > available[0]; }
    FixedPointIsComplete(available, allocation, request, finish, 0);
    FixedPointIsComplete(available, allocation, request, finish, 1);
  }

  /** One grant of a fits-checked process, with the state after it given explicitly. */
  lemma GrantTo(available: seq<int>, allocation: seq<seq<int>>, request: seq<seq<int>>,
                work: seq<int>, finish: seq<bool>, order: seq<nat>, i: nat,
                work': seq<int>, finish': seq<bool>, order': seq<nat>)
    requires Shaped(available, allocation, request)
    requires Reclaiming(available, allocation, request, work, finish, order)
    requires i < |finish| && !finish[i] && Fits(request[i], work)
    requires |work'| == |work| && forall j :: 0 <= j < |work| ==> work'[j] == work[j] + allocation[i][j]
    requires finish' == finish[i := true] && order' == order + [i]
    ensures Reclaiming(available, allocation, request, work', finish', order')
  {
    GrantKeepsReclaiming(available, allocation, request, work, finish, order, i);
    assert Work(available, allocation, finish[i := true]) == work';
  }

  /**
   * Safe only through a release: process 1 requests two units while one is
   * free, and becomes grantable once process 0 finishes and returns the unit
   * it holds.
   */
  lemma ReleaseUnblocksWaiter()
    ensures Shaped([1], [[1], [0]], [[1], [2]])
    ensures Completable([1], [[1], [0]], [[1], [2]], 0) && Completable([1], [[1], [0]], [[1], [2]], 1)
  {
    var available, allocation, request := [1], [[1], [0]], [[1], [2]];
    var none := [false, false];
    NothingReleased(available, allocation, none);
    assert none == MaskOf([], 2);
    GrantTo(available, allocation, request, [1], none, [], 0, [2], [true, false], [0]);
    GrantTo(available, allocation, request, [2], [true, false], [0], 1, [2], [true, true], [0, 1]);
    ReclaimedAreCompletable(available, allocation, request, [2], [true, true], [0, 1], 0);
    ReclaimedAreCompletable(available, allocation, request, [2], [true, true], [0, 1], 1);
  }
}
