/**
 * Reconciling Pinocchio's per-bone weights with the host's per-joint weights.
 * Bone `b` is the segment that ends at skeleton-list joint `b + 1`; each bone's
 * weight is credited to one joint, and bones credited to the same joint add up.
 * Weights are exact reals.
 */
module Weights {
  import opened Skeleton

  /** The policy the import uses: false, so a bone's weight goes to its start (parent) joint. */
  const AssignBoneToEndJoint: bool := false

  // ---------------------------------------------------------------------------
  // Bone-to-joint table.
  // ---------------------------------------------------------------------------

  /** The joint credited with bone `b`: its end joint `b + 1`, or that joint's parent. */
  function BoneJoint<J>(skelList: seq<Entry<J>>, b: nat, assignBoneToEndJoint: bool): int
    requires b + 1 < |skelList|
  {
    if assignBoneToEndJoint then b + 1 else skelList[b + 1].parent
  }

  /** The table of `numBones` entries; an entry no joint fills keeps its initial 0. */
  function BoneMap<J>(skelList: seq<Entry<J>>, numBones: nat, assignBoneToEndJoint: bool): seq<int>
  {
    seq(numBones, b requires 0 <= b < numBones =>
      if b + 1 < |skelList| then BoneJoint(skelList, b, assignBoneToEndJoint) else 0)
  }

  /**
   * Fills a zeroed table of `numBones` entries by visiting joints 1 .. numJoints-1
   * and writing entry `jointIndex - 1`. On a well-formed list with one bone per
   * non-root joint every entry is a joint index: the bone's own end joint under
   * the end-joint policy, an index no larger than the bone's under the parent policy.
   */
  method BuildBoneMap<J>(skelList: seq<Entry<J>>, numBones: nat, assignBoneToEndJoint: bool)
      returns (boneToJoint: seq<int>)
    requires |skelList| <= numBones + 1
    ensures boneToJoint == BoneMap(skelList, numBones, assignBoneToEndJoint)
    ensures WellFormed(skelList) && numBones == |skelList| - 1 ==>
      forall b :: 0 <= b < numBones ==>
        if assignBoneToEndJoint then boneToJoint[b] == b + 1 else 0 <= boneToJoint[b] <= b
  {
    var table := new int[numBones](_ => 0);
    var numJoints := |skelList|;
    var jointIndex := 1;
    while jointIndex < numJoints
      invariant 1 <= jointIndex && (numJoints == 0 || jointIndex <= numJoints)
      invariant forall b :: 0 <= b < numBones ==>
        table[b] == if b + 1 < jointIndex then BoneMap(skelList, numBones, assignBoneToEndJoint)[b] else 0
    {
      if assignBoneToEndJoint {
        table[jointIndex - 1] := jointIndex;
      } else {
        var parentIndex := skelList[jointIndex].parent;
        table[jointIndex - 1] := parentIndex;
      }
      jointIndex := jointIndex + 1;
    }
    boneToJoint := table[..];
    assert forall b :: 0 <= b < numBones ==> boneToJoint[b] == BoneMap(skelList, numBones, assignBoneToEndJoint)[b];
  }

  // ---------------------------------------------------------------------------
  // Aggregation: the specification.
  // ---------------------------------------------------------------------------

  /** Sum of a row of weights. */
  function Sum(s: seq<real>): real
  {
    if s == [] then 0.0 else Sum(s[..|s| - 1]) + s[|s| - 1]
  }

  /** Sum of the weights of the bones in `boneWeights` that the table credits to joint `k`. */
  function BoneSum(boneWeights: seq<real>, boneToJoint: seq<int>, k: int): real
    requires |boneWeights| <= |boneToJoint|
  {
    if boneWeights == [] then 0.0
    else
      var b := |boneWeights| - 1;
      BoneSum(boneWeights[..b], boneToJoint, k) + (if boneToJoint[b] == k then boneWeights[b] else 0.0)
  }

  /** A vertex's joint-weight row: entry `k` collects every bone credited to joint `k`. */
  function JointRow(boneWeights: seq<real>, boneToJoint: seq<int>, numJoints: nat): seq<real>
    requires |boneWeights| <= |boneToJoint|
  {
    seq(numJoints, k requires 0 <= k < numJoints => BoneSum(boneWeights, boneToJoint, k))
  }

  /** The row with every bone not credited to `k` replaced by 0. */
  function Masked(boneWeights: seq<real>, boneToJoint: seq<int>, k: int): seq<real>
    requires |boneWeights| <= |boneToJoint|
  {
    seq(|boneWeights|, b requires 0 <= b < |boneWeights| =>
      if boneToJoint[b] == k then boneWeights[b] else 0.0)
  }

  // ---------------------------------------------------------------------------
  // Aggregation: the loops.
  // ---------------------------------------------------------------------------

  /**
   * For each vertex, starts from a zero row of `numJoints` weights and adds
   * every bone's weight into the entry of the joint the table credits it to.
   * No weight is created or lost: each joint row sums to its bone row.
   */
  method AggregateWeights(vertBoneWeights: seq<seq<real>>, boneToJoint: seq<int>, numJoints: nat)
      returns (vertJointWeights: seq<seq<real>>)
    requires forall v :: 0 <= v < |vertBoneWeights| ==> |vertBoneWeights[v]| <= |boneToJoint|
    requires forall b :: 0 <= b < |boneToJoint| ==> 0 <= boneToJoint[b] < numJoints
    ensures |vertJointWeights| == |vertBoneWeights|
    ensures forall v :: 0 <= v < |vertBoneWeights| ==>
      vertJointWeights[v] == JointRow(vertBoneWeights[v], boneToJoint, numJoints)
    ensures forall v :: 0 <= v < |vertBoneWeights| ==>
      |vertJointWeights[v]| == numJoints && Sum(vertJointWeights[v]) == Sum(vertBoneWeights[v])
  {
    vertJointWeights := [];
    for vertIndex := 0 to |vertBoneWeights|
      invariant |vertJointWeights| == vertIndex
      invariant forall v :: 0 <= v < vertIndex ==>
        vertJointWeights[v] == JointRow(vertBoneWeights[v], boneToJoint, numJoints)
    {
      var boneWeights := vertBoneWeights[vertIndex];
      var jointWeights := new real[numJoints](_ => 0.0);
      assert boneWeights[..0] == [];
      for boneIndex := 0 to |boneWeights|
        invariant jointWeights[..] == JointRow(boneWeights[..boneIndex], boneToJoint, numJoints)
      {
        var jointIndex := boneToJoint[boneIndex];
        assert boneWeights[..boneIndex + 1][..boneIndex] == boneWeights[..boneIndex];
        JointRowSnoc(boneWeights[..boneIndex + 1], boneToJoint, numJoints);
        jointWeights[jointIndex] := jointWeights[jointIndex] + boneWeights[boneIndex];
      }
      assert boneWeights[..|boneWeights|] == boneWeights;
      vertJointWeights := vertJointWeights + [jointWeights[..]];
    }
    forall v | 0 <= v < |vertBoneWeights|
      ensures Sum(vertJointWeights[v]) == Sum(vertBoneWeights[v])
    {
      Conservation(vertBoneWeights[v], boneToJoint, numJoints);
    }
  }

  /**
   * The import of Pinocchio's weights for a skeleton list: one bone per
   * non-root joint (the dimension the solver promises), each bone credited to
   * its start joint, and the weights aggregated per vertex.
   */
  method PinocchioWeightsImport<J>(skelList: seq<Entry<J>>, vertBoneWeights: seq<seq<real>>)
      returns (vertJointWeights: seq<seq<real>>)
    requires WellFormed(skelList)
    requires |vertBoneWeights| > 0
    requires |vertBoneWeights[0]| == |skelList| - 1
    requires forall v :: 0 <= v < |vertBoneWeights| ==> |vertBoneWeights[v]| <= |vertBoneWeights[0]|
    ensures |vertJointWeights| == |vertBoneWeights|
    ensures forall v :: 0 <= v < |vertBoneWeights| ==>
      vertJointWeights[v] == JointRow(vertBoneWeights[v], BoneMap(skelList, |skelList| - 1, AssignBoneToEndJoint), |skelList|)
    ensures forall v :: 0 <= v < |vertBoneWeights| ==>
      |vertJointWeights[v]| == |skelList| && Sum(vertJointWeights[v]) == Sum(vertBoneWeights[v])
  {
    var numBones := |vertBoneWeights[0]|;
    var numJoints := |skelList|;
    var boneToJoint := BuildBoneMap(skelList, numBones, AssignBoneToEndJoint);
    vertJointWeights := AggregateWeights(vertBoneWeights, boneToJoint, numJoints);
  }

  // ---------------------------------------------------------------------------
  // Properties of the aggregation.
  // ---------------------------------------------------------------------------

  /** Adding one more bone adds its weight to exactly the entry of the joint it is credited to. */
  lemma JointRowSnoc(boneWeights: seq<real>, boneToJoint: seq<int>, numJoints: nat)
    requires 0 < |boneWeights| <= |boneToJoint|
    requires 0 <= boneToJoint[|boneWeights| - 1] < numJoints
    ensures var b := |boneWeights| - 1;
      var before := JointRow(boneWeights[..b], boneToJoint, numJoints);
      JointRow(boneWeights, boneToJoint, numJoints)
        == before[boneToJoint[b] := before[boneToJoint[b]] + boneWeights[b]]
  {
  }

  /** Increasing one entry of a row increases its sum by the same amount. */
  lemma {:induction false} SumAddAt(s: seq<real>, m: nat, x: real)
    requires m < |s|
    ensures Sum(s[m := s[m] + x]) == Sum(s) + x
    decreases |s|
  {
    var n := |s| - 1;
    var t := s[m := s[m] + x];
    if m < n {
      assert t[..n] == s[..n][m := s[..n][m] + x];
      SumAddAt(s[..n], m, x);
    } else {
      assert t[..n] == s[..n];
    }
  }

  /** A row of zeros sums to zero. */
  lemma {:induction false} SumOfZeros(s: seq<real>)
    requires forall i :: 0 <= i < |s| ==> s[i] == 0.0
    ensures Sum(s) == 0.0
    decreases |s|
  {
    if s != [] {
      SumOfZeros(s[..|s| - 1]);
    }
  }

  /**
   * Conservation: when every bone is credited to an existing joint, the
   * vertex's joint weights sum to exactly the sum of its bone weights.
   */
  lemma {:induction false} Conservation(boneWeights: seq<real>, boneToJoint: seq<int>, numJoints: nat)
    requires |boneWeights| <= |boneToJoint|
    requires forall b :: 0 <= b < |boneWeights| ==> 0 <= boneToJoint[b] < numJoints
    ensures Sum(JointRow(boneWeights, boneToJoint, numJoints)) == Sum(boneWeights)
    decreases |boneWeights|
  {
    if boneWeights == [] {
      SumOfZeros(JointRow(boneWeights, boneToJoint, numJoints));
    } else {
      var b := |boneWeights| - 1;
      var before := JointRow(boneWeights[..b], boneToJoint, numJoints);
      Conservation(boneWeights[..b], boneToJoint, numJoints);
      JointRowSnoc(boneWeights, boneToJoint, numJoints);
      SumAddAt(before, boneToJoint[b], boneWeights[b]);
    }
  }

  /** Bones credited to the same joint add up: joint `k` gets the sum of the row masked to `k`'s bones. */
  lemma {:induction false} BoneSumIsMaskedSum(boneWeights: seq<real>, boneToJoint: seq<int>, k: int)
    requires |boneWeights| <= |boneToJoint|
    ensures BoneSum(boneWeights, boneToJoint, k) == Sum(Masked(boneWeights, boneToJoint, k))
    decreases |boneWeights|
  {
    if boneWeights != [] {
      var b := |boneWeights| - 1;
      BoneSumIsMaskedSum(boneWeights[..b], boneToJoint, k);
      assert Masked(boneWeights, boneToJoint, k)[..b] == Masked(boneWeights[..b], boneToJoint, k);
    }
  }

  /** A joint that no bone is credited to receives weight 0. */
  lemma {:induction false} UncreditedJointIsZero(boneWeights: seq<real>, boneToJoint: seq<int>, k: int)
    requires |boneWeights| <= |boneToJoint|
    requires forall b :: 0 <= b < |boneWeights| ==> boneToJoint[b] != k
    ensures BoneSum(boneWeights, boneToJoint, k) == 0.0
    decreases |boneWeights|
  {
    if boneWeights != [] {
      UncreditedJointIsZero(boneWeights[..|boneWeights| - 1], boneToJoint, k);
    }
  }

  /**
   * The tolerance check on bone rows carries over: a vertex whose bone weights
   * sum to within 0.1 of 1 has joint weights that do too.
   */
  lemma NormalizationCarriesOver(boneWeights: seq<real>, boneToJoint: seq<int>, numJoints: nat)
    requires |boneWeights| <= |boneToJoint|
    requires forall b :: 0 <= b < |boneWeights| ==> 0 <= boneToJoint[b] < numJoints
    requires -0.1 < Sum(boneWeights) - 1.0 < 0.1
    ensures -0.1 < Sum(JointRow(boneWeights, boneToJoint, numJoints)) - 1.0 < 0.1
  {
    Conservation(boneWeights, boneToJoint, numJoints);
  }

  // ---------------------------------------------------------------------------
  // The two policies on a flattened hierarchy.
  // ---------------------------------------------------------------------------

  /**
   * Under the parent policy bone `b` is credited to an index no larger than
   * `b`, and the joint there is the hierarchy parent of the bone's end joint.
   */
  lemma ProximalBoneGoesToTreeParent<J>(root: Joint<J>, b: nat)
    requires b + 1 < Size(root)
    ensures var boneToJoint := BoneMap(Flatten(root), Size(root) - 1, false);
      && 0 <= boneToJoint[b] <= b
      && SubtreeAt(root, b + 1) in SubtreeAt(root, boneToJoint[b]).children
  {
    FlattenParentIsTreeParent(root, b + 1);
  }

  /**
   * Conversely, the bone that ends at child `k` of the joint at position `q`
   * is credited to `q`: a joint receives the weights of the bones ending at
   * its children (the root, at position 0, those ending at the root's children).
   */
  lemma ChildBoneGoesToParent<J>(root: Joint<J>, q: nat, k: nat)
    requires q < Size(root) && k < |SubtreeAt(root, q).children|
    ensures var pos := q + 1 + SizeAll(SubtreeAt(root, q).children[..k]);
      && 0 < pos < Size(root)
      && SubtreeAt(root, pos) == SubtreeAt(root, q).children[k]
      && BoneMap(Flatten(root), Size(root) - 1, false)[pos - 1] == q
  {
    PreorderChildEntry(root, 0, -1, q, k);
  }

  /** Under the parent policy a leaf joint receives weight 0 for every vertex. */
  lemma LeafJointGetsNoWeight<J>(root: Joint<J>, boneWeights: seq<real>, k: nat)
    requires |boneWeights| <= Size(root) - 1
    requires k < Size(root) && SubtreeAt(root, k).children == []
    ensures BoneSum(boneWeights, BoneMap(Flatten(root), Size(root) - 1, false), k) == 0.0
  {
    var boneToJoint := BoneMap(Flatten(root), Size(root) - 1, false);
    forall b | 0 <= b < |boneWeights| ensures boneToJoint[b] != k {
      ProximalBoneGoesToTreeParent(root, b);
    }
    UncreditedJointIsZero(boneWeights, boneToJoint, k);
  }

  /** Under the end-joint policy the root receives weight 0 ... */
  lemma {:induction false} EndJointPolicyRootGetsNoWeight<J>(skelList: seq<Entry<J>>, boneWeights: seq<real>)
    requires 0 < |skelList| && |boneWeights| <= |skelList| - 1
    ensures BoneSum(boneWeights, BoneMap(skelList, |skelList| - 1, true), 0) == 0.0
  {
    UncreditedJointIsZero(boneWeights, BoneMap(skelList, |skelList| - 1, true), 0);
  }

  /** ... and every other joint receives exactly the weight of the bone that ends at it. */
  lemma EndJointPolicyIsOneToOne<J>(skelList: seq<Entry<J>>, boneWeights: seq<real>, k: nat)
    requires |boneWeights| == |skelList| - 1
    requires 0 < k < |skelList|
    ensures BoneSum(boneWeights, BoneMap(skelList, |skelList| - 1, true), k) == boneWeights[k - 1]
  {
    var boneToJoint := BoneMap(skelList, |skelList| - 1, true);
    BoneSumIsMaskedSum(boneWeights, boneToJoint, k);
    var masked := Masked(boneWeights, boneToJoint, k);
    var delta := masked[k - 1];
    var zeros := masked[k - 1 := 0.0];
    assert masked == zeros[k - 1 := zeros[k - 1] + delta];
    SumAddAt(zeros, k - 1, delta);
    SumOfZeros(zeros);
  }

  /**
   * The chain R -> A -> B with one vertex whose bone weights are [0.6, 0.4]:
   * bone 0 (R to A) goes to R and bone 1 (A to B) to A, so the joint weights
   * are [0.6, 0.4, 0.0].
   */
  lemma ChainExample<J>(r: J, a: J, b: J)
    ensures var root := Joint(r, [Joint(a, [Joint(b, [])])]);
      && Flatten(root) == [Entry(r, -1), Entry(a, 0), Entry(b, 1)]
      && JointRow([0.6, 0.4], BoneMap(Flatten(root), 2, false), 3) == [0.6, 0.4, 0.0]
  {
    var leaf := Joint(b, []);
    var mid := Joint(a, [leaf]);
    var root := Joint(r, [mid]);
    assert Preorder(leaf, 2, 1) == [Entry(b, 1)];
    assert [mid][1..] == [];
    assert [leaf][1..] == [];
    assert PreorderAll([leaf], 2, 1) == [Entry(b, 1)];
    assert Preorder(mid, 1, 0) == [Entry(a, 0), Entry(b, 1)];
    assert PreorderAll([mid], 1, 0) == [Entry(a, 0), Entry(b, 1)];
    var skel := Flatten(root);
    assert skel == [Entry(r, -1), Entry(a, 0), Entry(b, 1)];
    var boneToJoint := BoneMap(skel, 2, false);
    assert boneToJoint == [0, 1];
    var w := [0.6, 0.4];
    assert w[..1] == [0.6];
    assert [0.6][..0] == [];
    assert BoneSum([], boneToJoint, 0) == 0.0;
    assert BoneSum([0.6], boneToJoint, 0) == 0.6;
    assert BoneSum([0.6], boneToJoint, 1) == 0.0;
    assert BoneSum([0.6], boneToJoint, 2) == 0.0;
    assert BoneSum(w, boneToJoint, 0) == 0.6;
    assert BoneSum(w, boneToJoint, 1) == 0.4;
    assert BoneSum(w, boneToJoint, 2) == 0.0;
  }

  // ---------------------------------------------------------------------------
  // The per-vertex influence map of the fallback write path.
  // ---------------------------------------------------------------------------

  /**
   * Index `j` is the last index below `upTo` that writes joint `influences[j]`
   * into the map: its weight is positive and no later positive weight has the
   * same joint.
   */
  predicate LastPositive<J(==)>(influences: seq<J>, jointWeights: seq<real>, j: nat, upTo: nat)
    requires j < upTo <= |jointWeights| <= |influences|
  {
    && jointWeights[j] > 0.0
    && forall i :: j < i < upTo && influences[i] == influences[j] ==> jointWeights[i] <= 0.0
  }

  /**
   * The joint-to-weight map written for one vertex: exactly the joints with a
   * positive weight, each with its weight (a later entry for the same joint
   * replaces an earlier one); zero and negative weights are left out.
   * The import passes `Joints(skelList)` as `influences`, so entry `k` of a
   * joint row belongs to skeleton-list joint `k`.
   */
  method PositiveJointValues<J(==)>(influences: seq<J>, jointWeights: seq<real>)
      returns (jointValues: map<J, real>)
    requires |jointWeights| <= |influences|
    ensures forall x :: x in jointValues <==>
      exists j :: 0 <= j < |jointWeights| && influences[j] == x && jointWeights[j] > 0.0
    ensures forall x :: x in jointValues ==> jointValues[x] > 0.0
    ensures forall j :: 0 <= j < |jointWeights| && LastPositive(influences, jointWeights, j, |jointWeights|) ==>
      influences[j] in jointValues && jointValues[influences[j]] == jointWeights[j]
    ensures (forall i, j :: 0 <= i < j < |influences| ==> influences[i] != influences[j]) ==>
      forall j :: 0 <= j < |jointWeights| && jointWeights[j] > 0.0 ==>
        influences[j] in jointValues && jointValues[influences[j]] == jointWeights[j]
  {
    jointValues := map[];
    for jointIndex := 0 to |jointWeights|
      invariant forall x :: x in jointValues <==>
        exists j :: 0 <= j < jointIndex && influences[j] == x && jointWeights[j] > 0.0
      invariant forall x :: x in jointValues ==> jointValues[x] > 0.0
      invariant forall j :: 0 <= j < jointIndex && LastPositive(influences, jointWeights, j, jointIndex) ==>
        influences[j] in jointValues && jointValues[influences[j]] == jointWeights[j]
    {
      var jointValue := jointWeights[jointIndex];
      if jointValue > 0.0 {
        jointValues := jointValues[influences[jointIndex] := jointValue];
      }
      assert LastPositive(influences, jointWeights, jointIndex, jointIndex + 1) <==> jointValue > 0.0;
      forall j | 0 <= j < jointIndex && LastPositive(influences, jointWeights, j, jointIndex + 1)
        ensures LastPositive(influences, jointWeights, j, jointIndex)
      {
      }
    }
    if forall i, j :: 0 <= i < j < |influences| ==> influences[i] != influences[j] {
      forall j | 0 <= j < |jointWeights| && jointWeights[j] > 0.0
        ensures LastPositive(influences, jointWeights, j, |jointWeights|)
      {
      }
    }
  }
}
