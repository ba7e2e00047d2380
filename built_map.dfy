/**
 * The traversals on the dictionary `ast_from_file_name` returns, where every
 * entry has been rewritten with its edges. The traversals read only labels,
 * nodes, children and parents, so they agree on any two maps of the same
 * shape; the theorems proved for the labeller's output carry over.
 */
module BuiltMap {
  import opened Wrappers
  import opened Ast
  import opened Labels
  import opened Traversal
  import opened Edges

  lemma ChildrenAboveSameShape<N>(a: LabelMap<N>, b: LabelMap<N>)
    requires SameShape(a, b) && ChildrenAbove(b)
    ensures ChildrenAbove(a)
  {
    assert forall l :: l in a ==> a[l].children == b[l].children;
  }

  /** Preorder from a label is the same on two maps of the same shape. */
  lemma {:induction false} PreorderSameShape<N>(a: LabelMap<N>, b: LabelMap<N>, l: Label, dontRecurseOn: Option<N -> bool>)
    requires SameShape(a, b) && ChildrenAbove(b) && l in b
    ensures ChildrenAbove(a) && l in a
    ensures Preorder(a, l, dontRecurseOn) == Preorder(b, l, dontRecurseOn)
    decreases Above(b, l), 1
  {
    ChildrenAboveSameShape(a, b);
    PreorderKidsSameShape(a, b, l, |b[l].children|, dontRecurseOn);
  }

  /** The children's part of the preorder is the same on two maps of the same shape. */
  lemma {:induction false} PreorderKidsSameShape<N>(a: LabelMap<N>, b: LabelMap<N>, l: Label, k: nat,
                                                    dontRecurseOn: Option<N -> bool>)
    requires SameShape(a, b) && ChildrenAbove(b) && l in b && k <= |b[l].children|
    ensures ChildrenAbove(a) && l in a && k <= |a[l].children|
    ensures PreorderKids(a, l, k, dontRecurseOn) == PreorderKids(b, l, k, dontRecurseOn)
    decreases Above(b, l), 0, k
  {
    ChildrenAboveSameShape(a, b);
    if k > 0 {
      var c := b[l].children[k - 1];
      AboveShrinks(b, l, c);
      PreorderKidsSameShape(a, b, l, k - 1, dontRecurseOn);
      PreorderSameShape(a, b, c, dontRecurseOn);
    }
  }

  /** Postorder from a label is the same on two maps of the same shape. */
  lemma {:induction false} PostorderSameShape<N>(a: LabelMap<N>, b: LabelMap<N>, l: Label, dontRecurseOn: Option<N -> bool>)
    requires SameShape(a, b) && ChildrenAbove(b) && l in b
    ensures ChildrenAbove(a) && l in a
    ensures Postorder(a, l, dontRecurseOn) == Postorder(b, l, dontRecurseOn)
    decreases Above(b, l), 1
  {
    ChildrenAboveSameShape(a, b);
    PostorderKidsSameShape(a, b, l, |b[l].children|, dontRecurseOn);
  }

  /** The children's part of the postorder is the same on two maps of the same shape. */
  lemma {:induction false} PostorderKidsSameShape<N>(a: LabelMap<N>, b: LabelMap<N>, l: Label, k: nat,
                                                     dontRecurseOn: Option<N -> bool>)
    requires SameShape(a, b) && ChildrenAbove(b) && l in b && k <= |b[l].children|
    ensures ChildrenAbove(a) && l in a && k <= |a[l].children|
    ensures PostorderKids(a, l, k, dontRecurseOn) == PostorderKids(b, l, k, dontRecurseOn)
    decreases Above(b, l), 0, k
  {
    ChildrenAboveSameShape(a, b);
    if k > 0 {
      var c := b[l].children[k - 1];
      AboveShrinks(b, l, c);
      PostorderKidsSameShape(a, b, l, k - 1, dontRecurseOn);
      PostorderSameShape(a, b, c, dontRecurseOn);
    }
  }

  /** The reference for pruning reads only parents and nodes. */
  lemma {:induction false} UnprunedSameShape<N>(a: LabelMap<N>, b: LabelMap<N>, top: Label, x: Label,
                                                dontRecurseOn: Option<N -> bool>)
    requires SameShape(a, b)
    ensures Unpruned(a, top, x, dontRecurseOn) == Unpruned(b, top, x, dontRecurseOn)
    decreases x
  {
    if x != top && x in b && b[x].parent < x {
      UnprunedSameShape(a, b, top, b[x].parent, dontRecurseOn);
    }
  }

  lemma {:induction false} KeptSameShape<N>(a: LabelMap<N>, b: LabelMap<N>, top: Label, xs: seq<Label>,
                                            dontRecurseOn: Option<N -> bool>)
    requires SameShape(a, b)
    ensures Kept(a, top, xs, dontRecurseOn) == Kept(b, top, xs, dontRecurseOn)
    decreases |xs|
  {
    if xs != [] {
      UnprunedSameShape(a, b, top, xs[0], dontRecurseOn);
      KeptSameShape(a, b, top, xs[1..], dontRecurseOn);
    }
  }

  /**
   * On a map with the labeller's shape (such as the one `AstFromTree`
   * returns), the unpruned preorder from 1 is 1, 2, ..., Size(root).
   */
  lemma BuiltLabelsArePreorder<N>(root: Tree<N>, m: LabelMap<N>)
    requires SameShape(m, Assigned(root, 1, 0))
    ensures 1 in m && ChildrenAbove(m)
    ensures Preorder(m, 1, None) == Range(1, Size(root) + 1)
  {
    LabelsArePreorder(root);
    PreorderSameShape(m, Assigned(root, 1, 0), 1, None);
  }

  /** On a map with the labeller's shape, the unpruned preorder from any label lists no label twice. */
  lemma BuiltPreorderDistinct<N>(root: Tree<N>, m: LabelMap<N>, l: Label)
    requires SameShape(m, Assigned(root, 1, 0)) && l in m
    ensures ChildrenAbove(m)
    ensures var pre := Preorder(m, l, None);
      forall i, j :: 0 <= i < j < |pre| ==> pre[i] != pre[j]
  {
    PreorderDistinct(root, l);
    PreorderSameShape(m, Assigned(root, 1, 0), l, None);
  }

  /**
   * On a map with the labeller's shape, the pruned preorder from any label
   * is the unpruned one filtered by `Unpruned`.
   */
  lemma BuiltPrunedPreorder<N>(root: Tree<N>, m: LabelMap<N>, l: Label, dontRecurseOn: Option<N -> bool>)
    requires SameShape(m, Assigned(root, 1, 0)) && l in m
    ensures ChildrenAbove(m)
    ensures Preorder(m, l, dontRecurseOn) == Kept(m, l, Preorder(m, l, None), dontRecurseOn)
  {
    var b := Assigned(root, 1, 0);
    PrunedPreorderFromAnyLabel(root, l, dontRecurseOn);
    PreorderSameShape(m, b, l, dontRecurseOn);
    PreorderSameShape(m, b, l, None);
    KeptSameShape(m, b, l, Preorder(b, l, None), dontRecurseOn);
  }

  /**
   * On a map with the labeller's shape, the pruned postorder from any label
   * is the unpruned one filtered by `Unpruned`.
   */
  lemma BuiltPrunedPostorder<N>(root: Tree<N>, m: LabelMap<N>, l: Label, dontRecurseOn: Option<N -> bool>)
    requires SameShape(m, Assigned(root, 1, 0)) && l in m
    ensures ChildrenAbove(m)
    ensures Postorder(m, l, dontRecurseOn) == Kept(m, l, Postorder(m, l, None), dontRecurseOn)
  {
    var b := Assigned(root, 1, 0);
    PrunedPostorderFromAnyLabel(root, l, dontRecurseOn);
    PostorderSameShape(m, b, l, dontRecurseOn);
    PostorderSameShape(m, b, l, None);
    KeptSameShape(m, b, l, Postorder(b, l, None), dontRecurseOn);
  }
}
