/**
 * The value a detector hands back to its caller: either no deadlock, or a
 * deadlock together with the evidence that shows it.
 */
module Detection {
  /** A wait-for cycle (graph detector) or the indices of the processes that
      can never finish (Banker-style detector). */
  datatype Evidence = Cycle(nodes: seq<int>) | Processes(ids: seq<nat>)

  datatype DetectionResult = Safe | Deadlock(evidence: Evidence)
}
