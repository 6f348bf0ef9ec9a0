/**
 * The skeleton list handed to the Pinocchio solver: a pre-order, depth-first
 * flattening of a joint hierarchy in which every entry carries the list index
 * of its parent's entry (-1 for the root).
 */
module Skeleton {

  /** A joint of the host scene together with the joints parented under it, in the host's child order. */
  datatype Joint<J> = Joint(id: J, children: seq<Joint<J>>)

  /** One skeleton-list entry: a joint and the list index of its parent's entry. */
  datatype Entry<J> = Entry(joint: J, parent: int)

  /** Number of joints in the hierarchy below and including `t`. */
  function Size<J>(t: Joint<J>): nat
    decreases t
  {
    1 + SizeAll(t.children)
  }

  /** Number of joints in a sequence of sibling hierarchies. */
  function SizeAll<J>(ts: seq<Joint<J>>): nat
    decreases ts
  {
    if ts == [] then 0 else Size(ts[0]) + SizeAll(ts[1..])
  }

  /** The multiset of joint handles of the hierarchy. */
  function Ids<J>(t: Joint<J>): multiset<J>
    decreases t
  {
    multiset{t.id} + IdsAll(t.children)
  }

  function IdsAll<J>(ts: seq<Joint<J>>): multiset<J>
    decreases ts
  {
    if ts == [] then multiset{} else Ids(ts[0]) + IdsAll(ts[1..])
  }

  /**
   * The entries that the recursive walk appends for `t` when the list already
   * holds `base` entries and `t`'s parent sits at index `parent`: `t` first,
   * then each child's block in order, every child pointing back at `base`.
   */
  function Preorder<J>(t: Joint<J>, base: nat, parent: int): (r: seq<Entry<J>>)
    ensures |r| == Size(t)
    ensures r[0] == Entry(t.id, parent)
    decreases t
  {
    [Entry(t.id, parent)] + PreorderAll(t.children, base + 1, base)
  }

  /** The entries appended for a run of siblings whose first block starts at index `base`. */
  function PreorderAll<J>(ts: seq<Joint<J>>, base: nat, parent: int): (r: seq<Entry<J>>)
    ensures |r| == SizeAll(ts)
    decreases ts
  {
    if ts == [] then []
    else Preorder(ts[0], base, parent) + PreorderAll(ts[1..], base + Size(ts[0]), parent)
  }

  /** The skeleton list of a whole hierarchy: the root is entry 0 and has parent -1. */
  function Flatten<J>(root: Joint<J>): seq<Entry<J>>
  {
    Preorder(root, 0, -1)
  }

  /**
   * The joint handles of a skeleton list, in list order: the influences the
   * import asks the skin to have, one per entry.
   */
  function Joints<J>(skelList: seq<Entry<J>>): seq<J>
  {
    seq(|skelList|, i requires 0 <= i < |skelList| => skelList[i].joint)
  }

  /** One influence per entry, and every entry's joint is among the influences. */
  lemma EveryEntryIsAnInfluence<J>(skelList: seq<Entry<J>>)
    ensures |Joints(skelList)| == |skelList|
    ensures forall e :: e in skelList ==> e.joint in Joints(skelList)
  {
    forall e | e in skelList
      ensures e.joint in Joints(skelList)
    {
      var i :| 0 <= i < |skelList| && skelList[i] == e;
      assert Joints(skelList)[i] == e.joint;
    }
  }

  /**
   * The shape every skeleton list has: a root entry with parent -1 and every
   * later entry pointing at an earlier one.
   */
  predicate WellFormed<J>(skelList: seq<Entry<J>>)
  {
    && |skelList| > 0
    && skelList[0].parent == -1
    && forall i :: 0 < i < |skelList| ==> 0 <= skelList[i].parent < i
  }

  /**
   * The hierarchy whose root has pre-order position `i` in `t`: an independent
   * description of which joint each list index stands for.
   */
  function SubtreeAt<J>(t: Joint<J>, i: nat): Joint<J>
    requires i < Size(t)
    decreases t
  {
    if i == 0 then t else SubtreeAtAll(t.children, i - 1)
  }

  function SubtreeAtAll<J>(ts: seq<Joint<J>>, i: nat): Joint<J>
    requires i < SizeAll(ts)
    decreases ts
  {
    if i < Size(ts[0]) then SubtreeAt(ts[0], i) else SubtreeAtAll(ts[1..], i - Size(ts[0]))
  }

  // ---------------------------------------------------------------------------
  // The walk itself: it appends to one shared list and recurses into each child.
  // ---------------------------------------------------------------------------

  /**
   * Appends `joint`'s entry, then recursively the entries of each of its
   * children, to `skelList`; the new entry's index is the list's length at the
   * moment it is appended.
   */
  method AppendSkeleton<J>(skelList: seq<Entry<J>>, joint: Joint<J>, parent: int) returns (result: seq<Entry<J>>)
    ensures result == skelList + Preorder(joint, |skelList|, parent)
    decreases joint
  {
    var newIndex := |skelList|;
    result := skelList + [Entry(joint.id, parent)];
    var children := joint.children;
    for i := 0 to |children|
      invariant result == skelList + [Entry(joint.id, parent)] + PreorderAll(children[..i], newIndex + 1, newIndex)
    {
      PreorderAllSnoc(children, i, newIndex + 1, newIndex);
      result := AppendSkeleton(result, children[i], newIndex);
    }
    assert children[..|children|] == children;
  }

  /** The skeleton list of the hierarchy under `rootJoint`. */
  method MakeSkeletonList<J>(rootJoint: Joint<J>) returns (skelList: seq<Entry<J>>)
    ensures skelList == Flatten(rootJoint)
    ensures |skelList| == Size(rootJoint) && skelList[0] == Entry(rootJoint.id, -1)
    ensures WellFormed(skelList)
    ensures multiset(Joints(skelList)) == Ids(rootJoint)
  {
    skelList := AppendSkeleton([], rootJoint, -1);
    FlattenWellFormed(rootJoint);
    FlattenJoints(rootJoint);
  }

  // ---------------------------------------------------------------------------
  // Block structure of the flattening.
  // ---------------------------------------------------------------------------

  /** Splitting a run of siblings splits its entries at the matching index. */
  lemma {:induction false} PreorderAllSplit<J>(ts: seq<Joint<J>>, k: nat, base: nat, parent: int)
    requires k <= |ts|
    ensures SizeAll(ts) == SizeAll(ts[..k]) + SizeAll(ts[k..])
    ensures PreorderAll(ts, base, parent)
         == PreorderAll(ts[..k], base, parent) + PreorderAll(ts[k..], base + SizeAll(ts[..k]), parent)
    decreases k
  {
    if k == 0 {
      assert ts[..0] == [];
      assert ts[0..] == ts;
    } else {
      PreorderAllSplit(ts[1..], k - 1, base + Size(ts[0]), parent);
      assert ts[1..][..k - 1] == ts[..k][1..];
      assert ts[1..][k - 1..] == ts[k..];
      assert ts[..k][0] == ts[0];
    }
  }

  /** The entries of the first `i + 1` siblings are those of the first `i` followed by sibling `i`'s block. */
  lemma PreorderAllSnoc<J>(ts: seq<Joint<J>>, i: nat, base: nat, parent: int)
    requires i < |ts|
    ensures SizeAll(ts[..i + 1]) == SizeAll(ts[..i]) + Size(ts[i])
    ensures PreorderAll(ts[..i + 1], base, parent)
         == PreorderAll(ts[..i], base, parent) + Preorder(ts[i], base + SizeAll(ts[..i]), parent)
  {
    var pre := ts[..i + 1];
    PreorderAllSplit(pre, i, base, parent);
    assert pre[..i] == ts[..i];
    assert pre[i..] == [ts[i]];
    assert [ts[i]][1..] == [];
  }

  /** Sibling `k` of a run owns the block that starts after the blocks of the siblings before it. */
  lemma PreorderAllBlock<J>(ts: seq<Joint<J>>, k: nat, base: nat, parent: int)
    requires k < |ts|
    ensures SizeAll(ts[..k]) + Size(ts[k]) <= SizeAll(ts)
    ensures PreorderAll(ts, base, parent)[SizeAll(ts[..k]) .. SizeAll(ts[..k]) + Size(ts[k])]
         == Preorder(ts[k], base + SizeAll(ts[..k]), parent)
    ensures forall j :: 0 <= j < Size(ts[k]) ==> SubtreeAtAll(ts, SizeAll(ts[..k]) + j) == SubtreeAt(ts[k], j)
  {
    PreorderAllSplit(ts, k, base, parent);
    var off := SizeAll(ts[..k]);
    assert ts[k..][0] == ts[k];
    assert ts[k..][1..] == ts[k + 1..];
    forall j | 0 <= j < Size(ts[k]) ensures SubtreeAtAll(ts, off + j) == SubtreeAt(ts[k], j) {
      SubtreeAtAllShift(ts, k, j);
    }
  }

  /** Position `SizeAll(ts[..k]) + j` of a run is position `j` of sibling `k`. */
  lemma {:induction false} SubtreeAtAllShift<J>(ts: seq<Joint<J>>, k: nat, j: nat)
    requires k < |ts| && j < Size(ts[k])
    ensures SizeAll(ts[..k]) + j < SizeAll(ts)
    ensures SubtreeAtAll(ts, SizeAll(ts[..k]) + j) == SubtreeAt(ts[k], j)
    decreases k
  {
    PreorderAllSplit(ts, k, 0, -1);
    PreorderAllSplit(ts, k + 1, 0, -1);
    assert ts[..k + 1][..k] == ts[..k];
    if k > 0 {
      SubtreeAtAllShift(ts[1..], k - 1, j);
      assert ts[1..][..k - 1] == ts[..k][1..];
      assert ts[..k][0] == ts[0];
      assert ts[1..][k - 1] == ts[k];
    } else {
      assert ts[..0] == [];
    }
  }

  /**
   * Pre-order: each child's hierarchy occupies one contiguous block of the list,
   * the blocks follow one another in child order right after the parent's own
   * entry, and position `off + j` of the parent is position `j` of that child.
   */
  lemma PreorderChildBlock<J>(t: Joint<J>, base: nat, parent: int, k: nat)
    requires k < |t.children|
    ensures var off := 1 + SizeAll(t.children[..k]);
      && off + Size(t.children[k]) <= Size(t)
      && Preorder(t, base, parent)[off .. off + Size(t.children[k])] == Preorder(t.children[k], base + off, base)
      && forall j :: 0 <= j < Size(t.children[k]) ==> SubtreeAt(t, off + j) == SubtreeAt(t.children[k], j)
  {
    PreorderAllBlock(t.children, k, base + 1, base);
  }

  // ---------------------------------------------------------------------------
  // Parent back-references.
  // ---------------------------------------------------------------------------

  /**
   * Every entry after the first names the joint at its pre-order position, its
   * parent index lies before it (and not before the block's start), and the
   * entry at that parent index is the joint whose children the entry's joint is.
   */
  lemma {:induction false} PreorderParents<J>(t: Joint<J>, base: nat, parent: int, i: nat)
    requires 0 < i < Size(t)
    ensures Preorder(t, base, parent)[i].joint == SubtreeAt(t, i).id
    ensures base <= Preorder(t, base, parent)[i].parent < base + i
    ensures SubtreeAt(t, i) in SubtreeAt(t, Preorder(t, base, parent)[i].parent - base).children
    decreases t, 0
  {
    PreorderAllParents(t.children, base + 1, base, i - 1);
  }

  lemma {:induction false} PreorderAllParents<J>(ts: seq<Joint<J>>, base: nat, parent: int, i: nat)
    requires i < SizeAll(ts)
    ensures var e := PreorderAll(ts, base, parent)[i];
      && e.joint == SubtreeAtAll(ts, i).id
      && ((e.parent == parent && SubtreeAtAll(ts, i) in ts)
          || (base <= e.parent < base + i && SubtreeAtAll(ts, i) in SubtreeAtAll(ts, e.parent - base).children))
    decreases ts
  {
    var first := Size(ts[0]);
    if i < first {
      assert PreorderAll(ts, base, parent)[i] == Preorder(ts[0], base, parent)[i];
      if i > 0 {
        PreorderParents(ts[0], base, parent, i);
      }
    } else {
      var j := i - first;
      assert PreorderAll(ts, base, parent)[i] == PreorderAll(ts[1..], base + first, parent)[j];
      PreorderAllParents(ts[1..], base + first, parent, j);
      var e := PreorderAll(ts, base, parent)[i];
      if SubtreeAtAll(ts[1..], j) in ts[1..] {
        assert SubtreeAtAll(ts, i) in ts;
      }
    }
  }

  /**
   * The converse: child `k` of the joint at position `q` sits at position
   * `q + 1 + SizeAll(children[..k])` and its entry points back at `q`.
   */
  lemma {:induction false} PreorderChildEntry<J>(t: Joint<J>, base: nat, parent: int, q: nat, k: nat)
    requires q < Size(t) && k < |SubtreeAt(t, q).children|
    ensures var c := SubtreeAt(t, q).children;
      var pos := q + 1 + SizeAll(c[..k]);
      && pos < Size(t)
      && SubtreeAt(t, pos) == c[k]
      && Preorder(t, base, parent)[pos] == Entry(c[k].id, base + q)
    decreases t, 0
  {
    if q == 0 {
      PreorderChildBlock(t, base, parent, k);
      assert SubtreeAt(t.children[k], 0) == t.children[k];
      var off := 1 + SizeAll(t.children[..k]);
      assert Preorder(t, base, parent)[off] == Preorder(t, base, parent)[off .. off + Size(t.children[k])][0];
    } else {
      PreorderAllChildEntry(t.children, base + 1, base, q - 1, k);
    }
  }

  lemma {:induction false} PreorderAllChildEntry<J>(ts: seq<Joint<J>>, base: nat, parent: int, q: nat, k: nat)
    requires q < SizeAll(ts) && k < |SubtreeAtAll(ts, q).children|
    ensures var c := SubtreeAtAll(ts, q).children;
      var pos := q + 1 + SizeAll(c[..k]);
      && pos < SizeAll(ts)
      && SubtreeAtAll(ts, pos) == c[k]
      && PreorderAll(ts, base, parent)[pos] == Entry(c[k].id, base + q)
    decreases ts
  {
    var first := Size(ts[0]);
    var head := Preorder(ts[0], base, parent);
    var tail := PreorderAll(ts[1..], base + first, parent);
    assert PreorderAll(ts, base, parent) == head + tail;
    if q < first {
      assert SubtreeAtAll(ts, q) == SubtreeAt(ts[0], q);
      PreorderChildEntry(ts[0], base, parent, q, k);
      var pos := q + 1 + SizeAll(SubtreeAt(ts[0], q).children[..k]);
      assert SubtreeAtAll(ts, pos) == SubtreeAt(ts[0], pos);
      assert (head + tail)[pos] == head[pos];
    } else {
      var q' := q - first;
      assert SubtreeAtAll(ts, q) == SubtreeAtAll(ts[1..], q');
      PreorderAllChildEntry(ts[1..], base + first, parent, q', k);
      var pos := q' + 1 + SizeAll(SubtreeAtAll(ts[1..], q').children[..k]);
      assert SubtreeAtAll(ts, first + pos) == SubtreeAtAll(ts[1..], pos);
      assert (head + tail)[first + pos] == tail[pos];
    }
  }

  // ---------------------------------------------------------------------------
  // Properties of the whole list.
  // ---------------------------------------------------------------------------

  /**
   * The skeleton list has one entry per joint, entry 0 is the root with parent
   * -1, and every later entry's parent index is smaller than its own.
   */
  lemma FlattenWellFormed<J>(root: Joint<J>)
    ensures |Flatten(root)| == Size(root)
    ensures Flatten(root)[0] == Entry(root.id, -1)
    ensures WellFormed(Flatten(root))
  {
    forall i | 0 < i < Size(root) ensures 0 <= Flatten(root)[i].parent < i {
      PreorderParents(root, 0, -1, i);
    }
  }

  /**
   * Entry `i` of the skeleton list names the joint at pre-order position `i`,
   * and for `i > 0` the entry at its parent index is that joint's parent in the
   * hierarchy.
   */
  lemma FlattenParentIsTreeParent<J>(root: Joint<J>, i: nat)
    requires 0 < i < Size(root)
    ensures Flatten(root)[i].joint == SubtreeAt(root, i).id
    ensures 0 <= Flatten(root)[i].parent < i
    ensures SubtreeAt(root, i) in SubtreeAt(root, Flatten(root)[i].parent).children
  {
    PreorderParents(root, 0, -1, i);
  }

  /** Every joint of the hierarchy appears in the skeleton list exactly as often as in the hierarchy. */
  lemma FlattenJoints<J>(root: Joint<J>)
    ensures multiset(Joints(Flatten(root))) == Ids(root)
  {
    PreorderJoints(root, 0, -1);
  }

  lemma JointsAppend<J>(a: seq<Entry<J>>, b: seq<Entry<J>>)
    ensures Joints(a + b) == Joints(a) + Joints(b)
  {
  }

  lemma {:induction false} PreorderJoints<J>(t: Joint<J>, base: nat, parent: int)
    ensures multiset(Joints(Preorder(t, base, parent))) == Ids(t)
    decreases t, 0
  {
    PreorderAllJoints(t.children, base + 1, base);
    JointsAppend([Entry(t.id, parent)], PreorderAll(t.children, base + 1, base));
    assert Joints([Entry(t.id, parent)]) == [t.id];
  }

  lemma {:induction false} PreorderAllJoints<J>(ts: seq<Joint<J>>, base: nat, parent: int)
    ensures multiset(Joints(PreorderAll(ts, base, parent))) == IdsAll(ts)
    decreases ts
  {
    if ts != [] {
      var head := Preorder(ts[0], base, parent);
      var tail := PreorderAll(ts[1..], base + Size(ts[0]), parent);
      assert PreorderAll(ts, base, parent) == head + tail;
      PreorderJoints(ts[0], base, parent);
      PreorderAllJoints(ts[1..], base + Size(ts[0]), parent);
      JointsAppend(head, tail);
      assert multiset(Joints(head) + Joints(tail)) == multiset(Joints(head)) + multiset(Joints(tail));
    } else {
      assert Joints<J>([]) == [];
    }
  }
}
