# Deadlock detectors: a verified model

This project models the two deadlock detectors of a small browser tool,
`script.js`. Parsing, dispatch and display are stripped away.

- **Wait-for graph** (`runWFG`). Process `a` waits for process `b` when the
  edge `(a, b)` is listed. The detector does three things:
  - builds successor lists in input order;
  - collects the distinct node ids in first-appearance order;
  - runs a recursive depth-first search. The search uses a `visited` flag
    map, a `recStack` flag map, and a `path` array. Each root's search
    starts `path` fresh and passes it down to its recursive calls. Every call
    pushes its node. A call that finds no cycle pops its node again. A call
    that finds one pushes the closing node as well and pops nothing.

  The first edge to a node still on the stack stops everything. The path
  with that node appended becomes `cyclePath`.
- **Banker-style detection** (`runBanker`). `work` starts as a copy of
  `available` and every process starts unfinished. Passes repeat until one
  of them changes nothing. A pass grants each unfinished process whose
  request fits `work`: its allocation is added to `work` and the process is
  marked finished. The processes left unfinished are reported, in
  increasing index order.

Modules:
- `Detection`: the result, `Safe`, or `Deadlock` with a cycle witness or
  with process indices.
- `WaitForGraphSpec`: the reference definitions for the graph detector:
  - successors, flattening, the distinct-node order;
  - walks, cycles and witnesses;
  - finishing ranks;
  - the invariant of the search flags.
- `WaitForGraph`: the detector itself. `WfgRun` is a class. Its fields
  are the state `runWFG`'s closure keeps: the flag maps (as sets),
  `hasCycle` and `cyclePath`. They also include the `path` array each
  root's search passes down. Its methods update these fields in place, as
  `dfs` and the outer loop do.
- `BankerSpec`: the reference definitions for the Banker detector:
  - the pool after a set of processes has finished;
  - possible grant orders;
  - completable processes;
  - the fixed-point condition;
  - the flags after one pass in index order;
  - the invariant of the reclamation loop.
- `Banker`: the detector, over `work` and `finish` arrays.
- `Scenarios`: small instances decided through the reference definitions.

The main results:
- The graph detector reports a deadlock exactly when the edge list has a
  directed cycle, self-loops included. Its witness is a walk over input
  edges whose last node already occurs earlier on it.
- When the search reports no cycle, a ghost finishing rank that descends
  along every edge shows the graph is acyclic.
- The Banker loop ends within n + 1 passes, where n is the number of
  processes.
- Every process the Banker loop finishes can finish in some order of
  grants.
- When no allocation is negative, the reported processes are exactly those
  that no order of grants lets finish.

Three points where the code departs from the textbook form of these
detectors; the model follows the code:
- **Witness shape.** A textbook cycle witness starts and ends at the same
  node. The code's witness is the search path from the root of the current
  depth-first search with the closing node appended. `WfgRun.Dfs` proves
  that it begins with the path the search was entered on, followed by the
  node being searched. Its first node can therefore lie outside the cycle.
  Over (1, 2), (2, 2), a search from 1 must report a walk that starts with
  1, and 1, 2, 2 is such a witness although it is not closed
  (`Scenarios.RootedWitness`). The model states what the code delivers,
  `IsWitness`, and `CycleOf` extracts the closed cycle from it.
- **Pass bound.** n processes need at most n granting passes, but the code's
  `do … while` always ends with one more pass that changes nothing, so the
  proved bound is n + 1 passes.
- **Row lengths.** The code never checks that the rows of `allocation` and
  `request` match `available` in length, so matching lengths are a
  precondition (`Shaped`).

## Model

| member | source | states |
|---|---|---|
| WaitForGraphSpec.SuccessorsAreTargets | script.js:15-19 | `v` is in `u`'s successor list exactly when `(u, v)` is one of the edges |
| WaitForGraphSpec.FlattenHoldsEndpoints | script.js:21 | a value occurs in `edges.flat()` exactly when it is the waiting or the holding end of some edge |
| WaitForGraphSpec.DistinctKeepsFirstAppearances | script.js:21 | the distinct list holds exactly the values of the input, none twice, each first occurring in the input before the ones listed after it |
| WaitForGraphSpec.EnterKeepsFlags | script.js:27-29 | marking an unvisited node visited and on the stack and pushing it (reached by an edge from the top of the path) keeps the flag invariant: the stack is visited, the stack is the path's node set, the path is a walk, finished nodes are ranked downhill along their edges |
| WaitForGraphSpec.LeaveKeepsFlags | script.js:40-41 | once every successor of the top node is visited and off the stack, clearing its stack flag and popping it keeps the flag invariant, with the node ranked as finished last |
| WaitForGraphSpec.BackEdgeCloses | script.js:33-35 | an edge from the top of the path to an on-stack node makes the path plus that node a witness: a walk whose last node already occurs on it |
| WaitForGraphSpec.WitnessClosesCycle | script.js:33-36 | a witness's suffix from the first occurrence of its last node is a closed walk, so the graph has a cycle |
| WaitForGraphSpec.RankDescendsAlongWalk | script.js:40-42 | under a ranking that strictly descends along every edge, the rank drops by at least i over the first i steps of a walk |
| WaitForGraphSpec.RankingForbidsCycles | script.js:45-52 | a ranking that strictly descends along every edge rules out every cycle |
| WaitForGraph.BuildGraph | script.js:15-19 | every node's list in the built map (empty when it has no entry) is its successors in input order |
| WaitForGraph.CollectNodes | script.js:21 | the node list holds exactly the edge endpoints, without repetition, in first-appearance order |
| WaitForGraph.WfgRun.constructor | script.js:15-24 | the graph and node list are built from the edges; flags, path and `cyclePath` start empty and `hasCycle` false |
| WaitForGraph.WfgRun.Dfs | script.js:26-43 | `true` leaves a witness in `cyclePath` that begins with the path the search was entered on, then the node searched. `false` restores `path` and `recStack`, leaves the node visited and off the stack, and keeps the flag invariant |
| WaitForGraph.WfgRun.VisitSuccessors | script.js:31-38 | the successor loop: `true` leaves a witness that extends the path the loop started with. `false` leaves path and stack as they were and every successor visited and off the stack |
| WaitForGraph.WfgRun.VisitNeighbor | script.js:32-37 | one successor: a recursive call that finds a cycle propagates it. After a recursive call that finds none, the neighbour is off the stack and the back-edge test fails. An on-stack neighbour closes the witness. Either witness extends the path at the call |
| WaitForGraph.WfgRun.Enter | script.js:27-29 | the node joins `visited` and `recStack` and is pushed on `path`; the flag invariant holds |
| WaitForGraph.WfgRun.Leave | script.js:40-41 | the node leaves `recStack` and is popped from `path`; the flag invariant holds |
| WaitForGraph.WfgRun.Scan | script.js:45-52 | `hasCycle` holds exactly when the edges contain a cycle; then `cyclePath` is a witness, otherwise it stays empty |
| WaitForGraph.DetectCycle | script.js:13-52 | `Deadlock` exactly when the edge list has a cycle, carrying a witness walk |
| BankerSpec.NothingReleased | script.js:136-137 | with every process unfinished, the pool is `available` itself |
| BankerSpec.HeldGrant | script.js:146-149 | finishing one more process adds its allocation to what the finished processes hold |
| BankerSpec.WorkAfterGrant | script.js:146-149 | finishing process `i` adds allocation row `i` to the pool, column by column |
| BankerSpec.CountGrant | script.js:149 | flagging one more process finished raises the finished count by one |
| BankerSpec.HeldMonotone | script.js:147 | with non-negative allocations, a larger finished set never holds less |
| BankerSpec.WorkMonotone | script.js:147 | with non-negative allocations, the pool never shrinks as more processes finish |
| BankerSpec.GrantKeepsReclaiming | script.js:145-151 | granting an unfinished process whose request fits extends the grant order and keeps `work` equal to `available` plus what the finished processes hold |
| BankerSpec.GrantOrderStaysFinished | script.js:142-153 | at a fixed point with non-negative allocations, every process of any possible grant order is already finished |
| BankerSpec.FixedPointIsComplete | script.js:153-157 | at a fixed point with non-negative allocations, an unfinished process is finished by no possible order of grants |
| BankerSpec.AfterPassGrows | script.js:144-151 | during a pass, a flag that is on after k turns stays on after every later turn |
| BankerSpec.StablePassIsIdle | script.js:144-151 | when no unfinished request fits the pool, no turn of a pass grants anything |
| BankerSpec.IdlePassIffStable | script.js:142-152 | a whole pass leaves the flags unchanged exactly when no unfinished process's request fits the pool |
| BankerSpec.ReclaimedAreCompletable | script.js:145-151 | every process the loop has finished is finished by a possible order of grants |
| Banker.Release | script.js:146-148 | each `work[j]` grows by `allocation[i][j]` |
| Banker.Grant | script.js:145-151 | a fitting unfinished process is flagged finished and its allocation added to `work`; the count of finished processes rises by one and the loop invariant holds |
| Banker.Pass | script.js:143-152 | the new flags are `AfterPass`: each unfinished process, in index order, is granted exactly when its request fits the pool at its turn; flags only turn true; with non-negative allocations `work` never decreases; a changed pass finishes more processes; an unchanged pass alters nothing and leaves no unfinished request fitting |
| Banker.Reclaim | script.js:136-153 | at the end `work` is `available` plus what the finished processes hold. Every unfinished process has a resource it requests more of than `work` holds. Finished processes are completable, and with non-negative allocations unfinished ones are not. The loop makes at most n + 1 passes |
| Banker.CollectDeadlocked | script.js:155-157 | the list holds exactly the unfinished indices, strictly increasing, as many as there are unfinished processes |
| Banker.DetectDeadlock | script.js:136-157 | `Deadlock` carries a non-empty, increasing list of process indices. Every process no grant order can finish is in it; with non-negative allocations, exactly those are |
| Scenarios.SelfLoopHasCycle | script.js:31-36 | the self-loop (1, 1) is a cycle |
| Scenarios.RingHasCycle | script.js:31-36 | the ring (1, 2), (2, 3), (3, 1) has a cycle |
| Scenarios.RootedWitness | script.js:34-35 | the witness 1, 2, 2 over (1, 2), (2, 2) is a valid witness though not closed; its cycle is 2, 2 |
| Scenarios.ChainHasNoCycle | script.js:45-52 | the chain (1, 2), (2, 3) has no cycle |
| Scenarios.MutualWaitIsDeadlocked | script.js:141-157 | two processes each requesting the unit the other holds, with nothing free, can both never finish |
| Scenarios.ReleaseUnblocksWaiter | script.js:141-153 | a process whose request exceeds the free pool finishes after another process releases its allocation |

## Left out

- `runDetection` (script.js:1-11) is UI dispatch, and is not modelled.
- The page updates through `document.getElementById` and the `alert` in the `catch` are UI output, and are not modelled.
- `visualizeGraphWFG` (script.js:60-126) is rendering through the cytoscape library, and is not part of this model. The witness it would highlight is `cyclePath`.
- Parsing is left out: the line splitting and `Number` conversion of the edge text (script.js:14) and `JSON.parse` (script.js:130). Inputs arrive already typed: edges as integer pairs, the Banker matrices as integer sequences.
- JavaScript numbers are modelled as unbounded integers. The model does not cover:
  - floating-point rounding;
  - `NaN` from malformed text;
  - the string coercion of node ids used as object keys. Distinct numbers are treated as distinct nodes.
- Deadlocked processes are reported as indices, not as the strings `P${i}` (script.js:156).
- The `visited` and `recStack` objects are modelled as sets. Setting `recStack[node] = false` is modelled as removal, because a cleared flag and an absent one test the same.
- Banker.DetectDeadlock: a report that is exactly the processes no grant order can finish is proved only when no allocation is negative. With negative allocations, the model proves only one direction: every process no grant order can finish is reported. In that case the fixed point the code reaches can depend on the order of the grants.
- Banker.Reclaim: the same restriction applies: with negative allocations, unfinished processes are not shown to be non-completable, and `work` is not shown to stay at least `available`.
- Banker.DetectDeadlock: rows shorter or longer than `available` are excluded by the `Shaped` precondition. The code would compute with `undefined` entries in that case. A request row shorter than the pool still counts as fitting when its own entries fit, as `every` does.
- Banker.DetectDeadlock: `Shaped` also requires `request` to have exactly as many rows as `allocation`. The code ignores extra request rows. With fewer rows, `request[i].every` throws, and the `catch` (script.js:163-164) shows an alert instead of a result. The model does not cover that error path.
- WaitForGraph.WfgRun.Dfs: the search recurses once per level of depth (script.js:32). A deep enough graph overflows the JavaScript call stack, and `runWFG` has no `catch`, so that exception escapes. Dafny's recursion has no such limit, so the model does not cover this failure.
