/** One volume archive: who wrote it, for which stack, when, and under which leaf name. */
module Artifacts {

  datatype Artifact = Artifact(stack: string, node: string, at: int, name: string)

  /** Artifacts are judged per producing node and stack. */
  predicate SameGroup(a: Artifact, b: Artifact) {
    a.node == b.node && a.stack == b.stack
  }
}
