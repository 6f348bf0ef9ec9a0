/**
 * The flat weight buffer of the fast write path: one slot per (vertex, joint)
 * pair. The source lays rows out with a stride of `numBones` although each
 * row holds `numJoints == numBones + 1` weights; the corrected layout uses a
 * stride of `numJoints`.
 */
module FastPath {

  /** The slot the source writes joint `jointIndex` of vertex `vertIndex` to. */
  function SourceSlot(vertIndex: nat, jointIndex: nat, numBones: nat): nat
  {
    vertIndex * numBones + jointIndex
  }

  /**
   * As written, the last joint of vertex `v` (index `numBones`) and the first
   * joint of vertex `v + 1` share a slot, so the later write replaces the
   * earlier weight.
   */
  lemma SourceSlotsOverlap(numBones: nat, v: nat)
    ensures SourceSlot(v, numBones, numBones) == SourceSlot(v + 1, 0, numBones)
    ensures (v, numBones) != (v + 1, 0)
  {
  }

  /**
   * As written, the last joint of the last vertex is written one past the end
   * of the buffer of `numVertices * numBones` slots.
   */
  lemma SourceSlotOverruns(numVertices: nat, numBones: nat)
    requires numVertices > 0
    ensures SourceSlot(numVertices - 1, numBones, numBones) == numVertices * numBones
  {
  }

  /** The corrected slot of joint `jointIndex` of vertex `vertIndex`: rows of `numJoints` slots, one after another. */
  function WeightSlot(vertIndex: nat, jointIndex: nat, numJoints: nat): nat
  {
    vertIndex * numJoints + jointIndex
  }

  /** A slot of an earlier row lies before every slot of a later row. */
  lemma {:induction false} EarlierRowFirst(numJoints: nat, u: nat, k: nat, v: nat)
    requires u < v && k < numJoints
    ensures WeightSlot(u, k, numJoints) < WeightSlot(v, 0, numJoints)
  {
    calc {
      WeightSlot(u, k, numJoints);
      u * numJoints + k;
    <
      u * numJoints + numJoints;
      (u + 1) * numJoints;
    <=
      v * numJoints;
    }
  }

  /**
   * The corrected layout stays inside a buffer of `numVertices * numJoints`
   * slots and gives every (vertex, joint) pair a slot of its own.
   */
  lemma WeightSlotsDistinct(numVertices: nat, numJoints: nat, v1: nat, j1: nat, v2: nat, j2: nat)
    requires v1 < numVertices && v2 < numVertices && j1 < numJoints && j2 < numJoints
    ensures WeightSlot(v1, j1, numJoints) < numVertices * numJoints
    ensures WeightSlot(v1, j1, numJoints) == WeightSlot(v2, j2, numJoints) ==> v1 == v2 && j1 == j2
  {
    if v1 + 1 < numVertices {
      EarlierRowFirst(numJoints, v1, j1, numVertices);
    } else {
      assert WeightSlot(v1, j1, numJoints) < (v1 + 1) * numJoints;
    }
    if v1 < v2 {
      EarlierRowFirst(numJoints, v1, j1, v2);
    } else if v2 < v1 {
      EarlierRowFirst(numJoints, v2, j2, v1);
    }
  }

  /**
   * Fills the fast path's buffer with the corrected layout: the weight of
   * joint `j` for vertex `v` ends up in slot `v * numJoints + j`.
   */
  method MarshalWeights(vertJointWeights: seq<seq<real>>, numJoints: nat) returns (apiWeights: seq<real>)
    requires forall v :: 0 <= v < |vertJointWeights| ==> |vertJointWeights[v]| == numJoints
    ensures |apiWeights| == |vertJointWeights| * numJoints
    ensures forall v, j :: 0 <= v < |vertJointWeights| && 0 <= j < numJoints ==>
      WeightSlot(v, j, numJoints) < |apiWeights| && apiWeights[WeightSlot(v, j, numJoints)] == vertJointWeights[v][j]
  {
    var numVertices := |vertJointWeights|;
    var buffer := new real[numVertices * numJoints](_ => 0.0);
    for vertIndex := 0 to numVertices
      invariant forall u, k :: 0 <= u < vertIndex && 0 <= k < numJoints ==>
        WeightSlot(u, k, numJoints) < buffer.Length && buffer[WeightSlot(u, k, numJoints)] == vertJointWeights[u][k]
    {
      var jointWeights := vertJointWeights[vertIndex];
      for jointIndex := 0 to numJoints
        invariant forall u, k :: 0 <= u < vertIndex && 0 <= k < numJoints ==>
          WeightSlot(u, k, numJoints) < buffer.Length && buffer[WeightSlot(u, k, numJoints)] == vertJointWeights[u][k]
        invariant forall k :: 0 <= k < jointIndex ==>
          WeightSlot(vertIndex, k, numJoints) < buffer.Length && buffer[WeightSlot(vertIndex, k, numJoints)] == jointWeights[k]
      {
        var slot := WeightSlot(vertIndex, jointIndex, numJoints);
        WeightSlotsDistinct(numVertices, numJoints, vertIndex, jointIndex, vertIndex, jointIndex);
        forall u, k | 0 <= u < vertIndex && 0 <= k < numJoints
          ensures WeightSlot(u, k, numJoints) != slot
        {
          EarlierRowFirst(numJoints, u, k, vertIndex);
        }
        buffer[slot] := jointWeights[jointIndex];
      }
    }
    apiWeights := buffer[..];
  }
}
