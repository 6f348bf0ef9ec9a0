# pmHeatWeight skeleton and weight bookkeeping, in Dafny

`PM_autoWeight.py` drives the Pinocchio auto-rigging solver from Maya. The
Maya side runs in three steps. First it flattens a joint hierarchy into a
*skeleton list* of `(joint, parentIndex)` entries and sends that list to the
solver. Then it reads back one weight per vertex per *bone*, where bone `b`
is the segment that ends at skeleton-list joint `b + 1`. Last, it turns those
bone weights into per-*joint* weights for the skin. This project models that
bookkeeping and proves its properties:

- `Skeleton` (`skeleton.dfy`): the hierarchy is the datatype
  `Joint(id, children)`. The recursive walk is the method `AppendSkeleton`.
  It threads the list that the source appends to, so an entry's index is the
  list's length when the entry is appended. The other definitions in the
  module say what the walk builds: `Preorder` and `Flatten` build the list,
  and `SubtreeAt` says which joint sits at each pre-order position. The
  lemmas prove the root entry, the parent-before-child order, the
  contiguous blocks of pre-order, and that the entry at a parent index is
  the joint's parent in the hierarchy.
- `Weights` (`weights.dfy`):
  - The bone-to-joint table (`BuildBoneMap`) is a loop over an array and
    supports both policies. The import uses the source's fixed choice, the
    start (parent) joint.
  - The aggregation (`AggregateWeights`) runs nested loops that `+=` into a
    zeroed row per vertex.
  - Its specification is `BoneSum` / `JointRow`: joint `k` gets the sum of
    the bones credited to `k`.
  - The lemmas prove that weight is conserved, that bones sharing a joint
    add up, and facts about each policy (leaves, the root, one-to-one).
  - `PositiveJointValues` builds the per-vertex joint-to-weight map of the
    fallback write path.
- `Nodes` (`nodes.dfy`): `nodeIn` and `getNodeIndex` as recursive
  functions, and the selection of skeleton joints that must be added as
  skin influences. Host node identity (`isSameObject`) is equality on the
  handle type.
- `FastPath` (`fastpath.dfy`): the layout of the fast path's flat weight
  buffer. See Findings.
- `Wrappers` (`wrappers.dfy`): `Option`, used for `getNodeIndex`'s `None`.

Weights are exact `real`s, so the conservation law is exact. The solver's
float output is only conserved approximately.

Points worth knowing about what the code does; the model follows the code:

- **Dimension and tolerance checks.** These are written as Python 2
  `assert(cond, msg)` (lines 107-108 and 126-128). Their messages read as
  checks, but that asserts a non-empty tuple, which is always true, so
  neither check ever rejects anything. The
  model does not turn them into error results.
  It states the dimensions as preconditions of `PinocchioWeightsImport`. It
  states the tolerance as a property that carries over from the bone rows
  to the joint rows (`NormalizationCarriesOver`).
- **No cycle detection.** The walk never detects a cycle. The `Joint`
  datatype cannot hold one.
- **Who gets zero weight.** The root receives weight 0 only under the
  unused end-joint policy
  (`EndJointPolicyRootGetsNoWeight`). Under the parent policy the code
  actually uses, the root collects the bones that end at its children
  (`ChildBoneGoesToParent`), and the leaves receive 0
  (`LeafJointGetsNoWeight`).
- **Zero weights.** The code adds every bone value, not only the nonzero
  ones. A zero adds nothing, so the result is the same.

## Model

| member | source | states |
|---|---|---|
| `Skeleton.Preorder` | PM_autoWeight.py:78-87 | the entries appended for a joint: one per joint below and including it, its own entry first with the parent index it was called with |
| `Skeleton.PreorderAll` | PM_autoWeight.py:85-86 | the entries appended for the children loop: one per joint in the children's hierarchies |
| `Skeleton.AppendSkeleton` | PM_autoWeight.py:78-87 | the recursive walk appends to the shared list exactly the pre-order entries of the joint, with indices counted from the list's length on entry |
| `Skeleton.MakeSkeletonList` | PM_autoWeight.py:69-76 | the skeleton list has one entry per joint, entry 0 is `(root, -1)`, every later parent index is smaller than its own index, and every joint of the hierarchy appears as often as in the hierarchy |
| `Skeleton.FlattenWellFormed` | PM_autoWeight.py:76-80 | length equals the number of joints; entry 0 is the root with parent -1; for `i > 0`, `0 <= parent < i` |
| `Skeleton.FlattenParentIsTreeParent` | PM_autoWeight.py:79-86 | entry `i` names the joint at pre-order position `i`, and the joint at its parent index is that joint's parent in the hierarchy |
| `Skeleton.PreorderChildBlock` | PM_autoWeight.py:85-86 | pre-order: each child's hierarchy takes one contiguous block right after the blocks of the earlier children, and that block is the child's own flattening pointing back at the parent |
| `Skeleton.PreorderChildEntry` | PM_autoWeight.py:79-86 | conversely, child `k` of the joint at position `q` sits at position `q + 1 + (sizes of the earlier children)` and its entry points back at `q` |
| `Skeleton.FlattenJoints` | PM_autoWeight.py:78-87 | the multiset of joints of the list equals the multiset of joints of the hierarchy |
| `Skeleton.EveryEntryIsAnInfluence` | PM_autoWeight.py:92 | the influence list taken from the skeleton list has one joint per entry, and every entry's joint is in it |
| `Nodes.NodeIn` | PM_autoWeight.py:286-291 | true exactly when some element of the list is the node |
| `Nodes.GetNodeIndex` | PM_autoWeight.py:293-298 | `None` exactly when `NodeIn` is false; otherwise an in-range index holding the node with no earlier match (the first match) |
| `Nodes.InfluencesToAdd` | PM_autoWeight.py:91-95 | the joints registered as new influences are the skeleton-list joints not among the skin's current influences, in list order |
| `Nodes.MissingMembers` | PM_autoWeight.py:92-95 | a joint is added iff it is in the skeleton list and not already an influence, and as many times as it occurs in the list |
| `Weights.BuildBoneMap` | PM_autoWeight.py:113-123 | the table has `numBones` entries: entry `j-1` is joint `j`'s parent index, or under the end-joint policy `j`, and any entries no joint fills are 0. On a well-formed list with `numBones == numJoints - 1`, every entry is a joint index: at most the bone's own index under the parent policy, exactly `b + 1` under the end-joint policy |
| `Weights.AggregateWeights` | PM_autoWeight.py:114-133 | one row of `numJoints` weights per vertex; entry `k` is the sum of the vertex's bone weights credited to `k`; each row sums to its bone row |
| `Weights.PinocchioWeightsImport` | PM_autoWeight.py:99-133 | with bone count = joint count - 1, joint rows are the aggregation of the bone rows under the parent policy, with `numJoints` entries each and the same sum as the bone row |
| `Weights.Conservation` | PM_autoWeight.py:129-133 | the joint-weight row sums to exactly the bone-weight row's sum when every bone is credited to an existing joint |
| `Weights.BoneSumIsMaskedSum` | PM_autoWeight.py:130-133 | bones credited to the same joint add rather than overwrite: joint `k`'s weight is the sum of the row with every other bone zeroed |
| `Weights.UncreditedJointIsZero` | PM_autoWeight.py:114-133 | a joint no bone is credited to keeps its initial weight 0 |
| `Weights.NormalizationCarriesOver` | PM_autoWeight.py:125-133 | a bone row within 0.1 of summing to 1 gives a joint row within 0.1 of summing to 1 |
| `Weights.ProximalBoneGoesToTreeParent` | PM_autoWeight.py:120-123 | under the parent policy bone `b` goes to an index at most `b` that holds the hierarchy parent of the bone's end joint |
| `Weights.ChildBoneGoesToParent` | PM_autoWeight.py:120-123 | under the parent policy the bone ending at any child of the joint at position `q` goes to `q`, so the root collects the bones ending at its children |
| `Weights.LeafJointGetsNoWeight` | PM_autoWeight.py:121-133 | under the parent policy a joint without children receives weight 0 |
| `Weights.EndJointPolicyRootGetsNoWeight` | PM_autoWeight.py:116-119 | under the end-joint policy the root receives weight 0 |
| `Weights.EndJointPolicyIsOneToOne` | PM_autoWeight.py:116-119 | under the end-joint policy joint `k > 0` receives exactly bone `k - 1`'s weight |
| `Weights.ChainExample` | PM_autoWeight.py:113-133 | hierarchy R -> A -> B flattens to `[(R,-1), (A,0), (B,1)]`, and bone weights `[0.6, 0.4]` become joint weights `[0.6, 0.4, 0.0]` |
| `Weights.PositiveJointValues` | PM_autoWeight.py:180-186 | the map's keys are exactly the joints with a positive weight; every value is positive; each joint maps to its last positive weight, so with distinct joints each positive weight appears exactly; zero and negative weights are left out |
| `FastPath.SourceSlotsOverlap` | PM_autoWeight.py:148-151 | as written, the last joint of vertex `v` and the first joint of vertex `v + 1` share a buffer slot |
| `FastPath.SourceSlotOverruns` | PM_autoWeight.py:148-151 | as written, the last weight is written one past the end of the `numVertices * numBones` buffer |
| `FastPath.WeightSlotsDistinct` | PM_autoWeight.py:148-151 | the corrected layout gives each (vertex, joint) pair its own slot inside a `numVertices * numJoints` buffer |
| `FastPath.MarshalWeights` | PM_autoWeight.py:148-151 | the corrected buffer holds the weight of joint `j` of vertex `v` at slot `v * numJoints + j` |

## Left out

- Maya calls. `skinCluster(addInfluence=...)` is out; the model computes only which joints it is called for. Also out: `skinPercent` pruning and writing, `undoInfo`/`flushUndo`, `MFnSkinCluster.setWeights`, `influenceObjects` and the component and `MIntArray` set-up. They are host side effects with no visible semantics here.
- The fallback write loop over vertices. Its cancellation check, timer and progress window are host UI. The model computes only the map that the loop writes for one vertex (`PositiveJointValues`).
- The fast path's influence-index array, which is filled through `getNodeIndex`. It depends on the skin's influence order, which the host owns. `getNodeIndex` itself is modelled.
- File formats and I/O: the skeleton export (`%.5f`, CRLF lines), `readPinocchioWeights`, the OBJ export and `addShape`.
- Processes and files: `runPinocchioBin` (subprocess, `chdir`) and the temporary-file handling in `autoWeight`.
- Thin host wrappers: `getTranslation`, `toMObject`, `toMDagPath`, `getSkinClusters`, `isATypeOf`, `getShape`, `getChildren`, `getParent`, `isValidMObject` and `confirmNonUndoableMethod` (which always returns true).
- `listForNone`. The host's child query plus `listForNone` is the `children` sequence of `Joint`; a `None` answer is the empty sequence.
- `isSameObject`. It is equality on the node handle type.
- Floating point rounding. Weights are exact reals.
- The commented-out `exportPinocchioAnimation` and the `DEBUG` printing.
- Weights.PinocchioWeightsImport: requires at least one row, the bone count equal to the joint count minus one, and no row longer than the first. The source checks none of these (its tuple asserts never fire). An empty weight list raises an IndexError at line 101 (`len(vertBoneWeights[0])`). With fewer bones, the source raises an IndexError in the table loop. With more bones, the extra bones stay credited to joint 0. With a longer row, it raises an IndexError. None of these cases is modelled.
- Weights.PinocchioWeightsImport: requires a well-formed skeleton list, with every non-root parent index in range. Python would read a parent index of -1 as the last joint. That cannot happen for lists built by the walk (`FlattenWellFormed`).
- Weights.AggregateWeights: allocates each vertex's zero row just before filling it, not all rows up front. The result is the same.

## Findings

| source | as written | input that shows it | evidently intended | confidence | as-written member | corrected member |
|---|---|---|---|---|---|---|
| PM_autoWeight.py:148-151 | The fast path stores joint `j` of vertex `v` at slot `v * numBones + j`. Its buffer holds `numVertices * numBones` slots, but each vertex has `numBones + 1` joint weights. | 2 vertices, 1 bone (2 joints): vertex 0 joint 1 and vertex 1 joint 0 both land in slot 1, and vertex 1 joint 1 lands in slot 2 of a 2-slot buffer | rows of `numJoints` slots (`v * numJoints + j`) in a buffer of `numVertices * numJoints` | high for the overlap; not executed | `FastPath.SourceSlotsOverlap` | `FastPath.WeightSlotsDistinct` |
