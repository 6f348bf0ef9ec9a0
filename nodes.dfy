/**
 * Linear searches over lists of scene nodes. Node identity (the host's
 * `isSameObject`) is equality on the handle type `N`.
 */
module Nodes {
  import opened Wrappers

  /** Whether some element of `nodeList` is the node `node`; the walk stops at the first match. */
  function NodeIn<N(==)>(node: N, nodeList: seq<N>): (found: bool)
    ensures found <==> node in nodeList
  {
    if nodeList == [] then false
    else if node == nodeList[0] then true
    else
      assert nodeList == [nodeList[0]] + nodeList[1..];
      NodeIn(node, nodeList[1..])
  }

  /** The index of the first element of `nodeList` that is `node`, or `None` when there is none. */
  function GetNodeIndex<N(==)>(node: N, nodeList: seq<N>): (index: Option<nat>)
    ensures index.None? <==> !NodeIn(node, nodeList)
    ensures index.Some? ==> index.value < |nodeList| && nodeList[index.value] == node
    ensures index.Some? ==> node !in nodeList[..index.value]
  {
    if nodeList == [] then None
    else if node == nodeList[0] then Some(0)
    else
      var rest := GetNodeIndex(node, nodeList[1..]);
      if rest.None? then None
      else
        assert nodeList[..rest.value + 1] == [nodeList[0]] + nodeList[1..][..rest.value];
        Some(rest.value + 1)
  }

  /**
   * The elements of `pinocInfluences` that are not in `allInfluences`, in
   * order and with their repetitions.
   */
  function Missing<N(==)>(pinocInfluences: seq<N>, allInfluences: seq<N>): seq<N>
  {
    if pinocInfluences == [] then []
    else
      var n := |pinocInfluences| - 1;
      var last := pinocInfluences[n];
      var rest := Missing(pinocInfluences[..n], allInfluences);
      if NodeIn(last, allInfluences) then rest else rest + [last]
  }

  /**
   * A joint is added exactly when it is in the skeleton list and not already
   * an influence, and then as many times as it occurs in the skeleton list.
   */
  lemma {:induction false} MissingMembers<N>(pinocInfluences: seq<N>, allInfluences: seq<N>, x: N)
    ensures x in Missing(pinocInfluences, allInfluences) <==> x in pinocInfluences && !NodeIn(x, allInfluences)
    ensures multiset(Missing(pinocInfluences, allInfluences))[x]
         == if x in allInfluences then 0 else multiset(pinocInfluences)[x]
    decreases |pinocInfluences|
  {
    if pinocInfluences != [] {
      var n := |pinocInfluences| - 1;
      MissingMembers(pinocInfluences[..n], allInfluences, x);
      assert pinocInfluences == pinocInfluences[..n] + [pinocInfluences[n]];
    }
  }

  /**
   * The joints of the skeleton list that the import registers as new
   * influences of the skin, in list order: those not among the influences the
   * skin had before the import (that list is read once, before any is added).
   * The import passes `Skeleton.Joints(skelList)` as `pinocInfluences`.
   */
  method InfluencesToAdd<N(==)>(pinocInfluences: seq<N>, allInfluences: seq<N>) returns (added: seq<N>)
    ensures added == Missing(pinocInfluences, allInfluences)
  {
    added := [];
    for i := 0 to |pinocInfluences|
      invariant added == Missing(pinocInfluences[..i], allInfluences)
    {
      var joint := pinocInfluences[i];
      assert pinocInfluences[..i + 1][..i] == pinocInfluences[..i];
      if !NodeIn(joint, allInfluences) {
        added := added + [joint];
      }
    }
    assert pinocInfluences[..|pinocInfluences|] == pinocInfluences;
  }
}
