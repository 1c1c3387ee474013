/**
 * The Banker-style deadlock detector: copy `available` into `work`, flag
 * every process unfinished, repeat passes that grant every unfinished
 * process whose request fits `work` until a pass grants nothing, and report
 * the processes left unfinished.
 */
module Banker {
  import opened BankerSpec
  import opened Detection

  /** script.js:146-148: add process `i`'s allocation row to `work`, column by column. */
  method Release(allocation: seq<seq<int>>, i: nat, work: array<int>)
    requires i < |allocation| && |allocation[i]| == work.Length
    modifies work
    ensures forall j :: 0 <= j < work.Length ==> work[j] == old(work[j]) + allocation[i][j]
  {
    for j := 0 to work.Length
      invariant forall k :: 0 <= k < j ==> work[k] == old(work[k]) + allocation[i][k]
      invariant forall k :: j <= k < work.Length ==> work[k] == old(work[k])
    {
      work[j] := work[j] + allocation[i][j];
    }
  }

  /**
   * One pass of the `do … while (changed)` loop (script.js:142-152): every
   * unfinished process whose request fits the current `work` is granted, in
   * index order. `order` is the grant order so far; `order'` extends it with
   * the processes this pass granted.
   */
  method Pass(available: seq<int>, allocation: seq<seq<int>>, request: seq<seq<int>>,
              work: array<int>, finish: array<bool>, ghost order: seq<nat>)
    returns (changed: bool, ghost order': seq<nat>)
    requires Shaped(available, allocation, request)
    requires Reclaiming(available, allocation, request, work[..], finish[..], order)
    modifies work, finish
    ensures Reclaiming(available, allocation, request, work[..], finish[..], order')
    ensures finish[..] == AfterPass(available, allocation, request, old(finish[..]), finish.Length)
    ensures forall i :: 0 <= i < finish.Length && old(finish[i]) ==> finish[i]
    ensures NonNegative(allocation) ==> forall j :: 0 <= j < work.Length ==> old(work[j]) <= work[j]
    ensures changed ==> Count(old(finish[..])) < Count(finish[..])
    ensures !changed ==> work[..] == old(work[..]) && finish[..] == old(finish[..])
    ensures !changed ==> Stable(request, work[..], finish[..])
  {
    ghost var finish0, work0 := finish[..], work[..];
    changed := false;
    order' := order;
    for i := 0 to finish.Length
      invariant Reclaiming(available, allocation, request, work[..], finish[..], order')
      invariant finish[..] == AfterPass(available, allocation, request, finish0, i)
      invariant changed ==> Count(finish0) < Count(finish[..])
      invariant !changed ==> work[..] == work0 && finish[..] == finish0
    {
      if !finish[i] && Fits(request[i], work[..]) {
        order' := Grant(available, allocation, request, work, finish, order', i);
        changed := true;
      }
    }
    AfterPassGrows(available, allocation, request, finish0, 0, finish.Length);
    if NonNegative(allocation) {
      WorkMonotone(available, allocation, finish0, finish[..]);
    }
    IdlePassIffStable(available, allocation, request, finish0);
  }

  /**
   * script.js:145-151: grant process `i`, whose request fits `work`: it releases
   * its allocation into `work` and is flagged finished, extending the grant
   * order by `i`.
   */
  method Grant(available: seq<int>, allocation: seq<seq<int>>, request: seq<seq<int>>,
               work: array<int>, finish: array<bool>, ghost order: seq<nat>, i: nat)
    returns (ghost order': seq<nat>)
    requires Shaped(available, allocation, request)
    requires Reclaiming(available, allocation, request, work[..], finish[..], order)
    requires i < finish.Length && !finish[i] && Fits(request[i], work[..])
    modifies work, finish
    ensures Reclaiming(available, allocation, request, work[..], finish[..], order')
    ensures finish[..] == old(finish[..])[i := true]
    ensures forall j :: 0 <= j < work.Length ==> work[j] == old(work[j]) + allocation[i][j]
    ensures Count(finish[..]) == Count(old(finish[..])) + 1
  {
    ghost var granted := finish[..][i := true];
    GrantKeepsReclaiming(available, allocation, request, work[..], finish[..], order, i);
    CountGrant(finish[..], i);
    Release(allocation, i, work);
    finish[i] := true;
    order' := order + [i];
    assert finish[..] == granted;
    ghost var pool := Work(available, allocation, granted);
    assert forall j :: 0 <= j < work.Length ==> work[j] == pool[j];
    assert work[..] == pool;
  }

  /**
   * script.js:136-153: the reclamation loop. On return `work` is `available`
   * plus what the `finish`ed processes released, no unfinished process's
   * request fits it, and `passes` counts the passes the loop made.
   */
  method Reclaim(available: seq<int>, allocation: seq<seq<int>>, request: seq<seq<int>>)
    returns (work: seq<int>, finish: seq<bool>, ghost passes: nat)
    requires Shaped(available, allocation, request)
    ensures |work| == |available| && |finish| == |allocation|
    ensures work == Work(available, allocation, finish)
    ensures forall i :: 0 <= i < |finish| && !finish[i] ==>
      exists j :: 0 <= j < |available| && request[i][j] > work[j]
    ensures forall i :: 0 <= i < |finish| && finish[i] ==> Completable(available, allocation, request, i)
    ensures NonNegative(allocation) ==>
      forall i :: 0 <= i < |finish| && !finish[i] ==> !Completable(available, allocation, request, i)
    ensures NonNegative(allocation) ==> forall j :: 0 <= j < |work| ==> available[j] <= work[j]
    ensures passes <= Count(finish) + 1 <= |allocation| + 1
  {
    var w := new int[|available|](j requires 0 <= j < |available| => available[j]);
    var f := new bool[|allocation|](_ => false);
    ghost var order: seq<nat> := [];
    NothingReleased(available, allocation, f[..]);
    assert f[..] == MaskOf(order, |allocation|);
    var changed := true;
    passes := 0;
    while changed
      invariant Reclaiming(available, allocation, request, w[..], f[..], order)
      invariant NonNegative(allocation) ==> forall j :: 0 <= j < w.Length ==> available[j] <= w[j]
      invariant !changed ==> Stable(request, w[..], f[..])
      invariant passes + (if changed then 1 else 0) <= Count(f[..]) + 1
      decreases |allocation| - Count(f[..]) + (if changed then 1 else 0)
    {
      changed, order := Pass(available, allocation, request, w, f, order);
      passes := passes + 1;
    }
    work, finish := w[..], f[..];
    forall i | 0 <= i < |finish| && !finish[i]
      ensures exists j :: 0 <= j < |available| && request[i][j] > work[j]
    {
      assert !Fits(request[i], work);
    }
    forall i | 0 <= i < |finish| && finish[i]
      ensures Completable(available, allocation, request, i)
    {
      ReclaimedAreCompletable(available, allocation, request, work, finish, order, i);
    }
    if NonNegative(allocation) {
      forall i | 0 <= i < |finish| && !finish[i]
        ensures !Completable(available, allocation, request, i)
      {
        FixedPointIsComplete(available, allocation, request, finish, i);
      }
    }
  }

  /** script.js:155-157: the unfinished indices, in increasing order. */
  method CollectDeadlocked(finish: seq<bool>) returns (procs: seq<nat>)
    ensures forall i: nat :: i in procs <==> i < |finish| && !finish[i]
    ensures forall a, b :: 0 <= a < b < |procs| ==> procs[a] < procs[b]
    ensures |procs| + Count(finish) == |finish|
  {
    procs := [];
    for i := 0 to |finish|
      invariant forall k: nat :: k in procs <==> k < i && !finish[k]
      invariant forall a :: 0 <= a < |procs| ==> procs[a] < i
      invariant forall a, b :: 0 <= a < b < |procs| ==> procs[a] < procs[b]
      invariant |procs| + Count(finish[..i]) == i
    {
      assert finish[..i + 1][..i] == finish[..i];
      if !finish[i] {
        procs := procs + [i];
      }
    }
    assert finish[..|finish|] == finish;
  }

  /**
   * `runBanker` without its parsing and display: Safe when every process
   * finishes, otherwise Deadlock with the unfinished processes in
   * increasing index order.
   */
  method DetectDeadlock(available: seq<int>, allocation: seq<seq<int>>, request: seq<seq<int>>)
    returns (r: DetectionResult)
    requires Shaped(available, allocation, request)
    ensures r.Deadlock? ==> r.evidence.Processes? && r.evidence.ids != []
    ensures r.Deadlock? ==> forall a, b :: 0 <= a < b < |r.evidence.ids| ==> r.evidence.ids[a] < r.evidence.ids[b]
    ensures r.Deadlock? ==> forall i :: i in r.evidence.ids ==> i < |allocation|
    ensures forall i :: 0 <= i < |allocation| && !Completable(available, allocation, request, i) ==>
      r.Deadlock? && i in r.evidence.ids
    ensures NonNegative(allocation) ==> forall i :: 0 <= i < |allocation| ==>
      ((r.Deadlock? && i in r.evidence.ids) <==> !Completable(available, allocation, request, i))
  {
    var work: seq<int>, finish: seq<bool>;
    ghost var passes: nat;
    work, finish, passes := Reclaim(available, allocation, request);
    var procs := CollectDeadlocked(finish);
    if procs == [] {
      r := Safe;
    } else {
      r := Deadlock(Processes(procs));
    }
  }
}
