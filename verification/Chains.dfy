/** Lists of numbers, and lists of nodes linked by 16-bit indices. */
module Chains {
  const EMPTY_NODE: nat := 0xFFFF

  /** The node behind position i of a chain. */
  function NextIn(chain: seq<nat>, i: nat): nat {
    if i + 1 < |chain| then chain[i + 1] else EMPTY_NODE
  }

  ghost predicate NoDup(s: seq<nat>) {
    forall i, j :: 0 <= i < j < |s| ==> s[i] != s[j]
  }
}
