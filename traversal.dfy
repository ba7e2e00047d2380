/**
 * `preorder_descendants` and `postorder_descendants`: the label sequences the
 * zipper's descendant iterators are checked against, optionally pruned at
 * nodes matching `dont_recurse_on`.
 */
module Traversal {
  import opened Wrappers
  import opened Ast
  import opened Labels

  /** The labels of `m` greater than `l`: shrinks when the walk moves to a child. */
  ghost function Above<N>(m: LabelMap<N>, l: Label): set<Label>
  {
    set k | k in m && l < k
  }

  lemma AboveShrinks<N>(m: LabelMap<N>, l: Label, c: Label)
    requires c in m && l < c
    ensures Above(m, c) < Above(m, l)
  {
    assert c in Above(m, l) && c !in Above(m, c);
  }

  /** `dont_recurse_on is not None and isinstance(node, dont_recurse_on)`. */
  predicate Prunes<N>(dontRecurseOn: Option<N -> bool>, node: N)
  {
    dontRecurseOn.Some? && dontRecurseOn.value(node)
  }

  /**
   * `preorder_descendants(l, ast, dont_recurse_on)`: the outer call lists
   * `l` without testing it, then each child's inner preorder.
   */
  function Preorder<N>(m: LabelMap<N>, l: Label, dontRecurseOn: Option<N -> bool>): (r: seq<Label>)
    requires l in m && ChildrenAbove(m)
    ensures |r| >= 1 && r[0] == l
    decreases Above(m, l), 1
  {
    [l] + PreorderKids(m, l, |m[l].children|, dontRecurseOn)
  }

  /** `_preorder_descendants(l)`: nothing at all for a node that prunes. */
  function PreorderInner<N>(m: LabelMap<N>, l: Label, dontRecurseOn: Option<N -> bool>): seq<Label>
    requires l in m && ChildrenAbove(m)
    decreases Above(m, l), 2
  {
    if Prunes(dontRecurseOn, m[l].node) then [] else Preorder(m, l, dontRecurseOn)
  }

  /** The `sum(..., ())` over the first `k` children of `l`. */
  function PreorderKids<N>(m: LabelMap<N>, l: Label, k: nat, dontRecurseOn: Option<N -> bool>): seq<Label>
    requires l in m && ChildrenAbove(m) && k <= |m[l].children|
    decreases Above(m, l), 0, k
  {
    if k == 0 then []
    else
      var c := m[l].children[k - 1];
      AboveShrinks(m, l, c);
      PreorderKids(m, l, k - 1, dontRecurseOn) + PreorderInner(m, c, dontRecurseOn)
  }

  /**
   * `postorder_descendants(l, ast, dont_recurse_on)`: each child's inner
   * postorder, then `l`, which the outer call does not test.
   */
  function Postorder<N>(m: LabelMap<N>, l: Label, dontRecurseOn: Option<N -> bool>): (r: seq<Label>)
    requires l in m && ChildrenAbove(m)
    ensures |r| >= 1 && r[|r| - 1] == l
    decreases Above(m, l), 1
  {
    PostorderKids(m, l, |m[l].children|, dontRecurseOn) + [l]
  }

  /** `_postorder_descendants(l)`: nothing at all for a node that prunes. */
  function PostorderInner<N>(m: LabelMap<N>, l: Label, dontRecurseOn: Option<N -> bool>): seq<Label>
    requires l in m && ChildrenAbove(m)
    decreases Above(m, l), 2
  {
    if Prunes(dontRecurseOn, m[l].node) then [] else Postorder(m, l, dontRecurseOn)
  }

  function PostorderKids<N>(m: LabelMap<N>, l: Label, k: nat, dontRecurseOn: Option<N -> bool>): seq<Label>
    requires l in m && ChildrenAbove(m) && k <= |m[l].children|
    decreases Above(m, l), 0, k
  {
    if k == 0 then []
    else
      var c := m[l].children[k - 1];
      AboveShrinks(m, l, c);
      PostorderKids(m, l, k - 1, dontRecurseOn) + PostorderInner(m, c, dontRecurseOn)
  }

  /**
   * Reference for pruning: walking up the parent fields from `x` reaches
   * `top` without meeting a node that prunes (`top` itself is not tested).
   */
  function Unpruned<N>(m: LabelMap<N>, top: Label, x: Label, dontRecurseOn: Option<N -> bool>): bool
    decreases x
  {
    if x == top then true
    else if x !in m || x <= m[x].parent then false
    else !Prunes(dontRecurseOn, m[x].node) && Unpruned(m, top, m[x].parent, dontRecurseOn)
  }

  /** The labels of `xs` that are `Unpruned` below `top`, in their order in `xs`. */
  function Kept<N>(m: LabelMap<N>, top: Label, xs: seq<Label>, dontRecurseOn: Option<N -> bool>): seq<Label>
  {
    if xs == [] then []
    else
      var head := if Unpruned(m, top, xs[0], dontRecurseOn) then [xs[0]] else [];
      head + Kept(m, top, xs[1..], dontRecurseOn)
  }

  lemma {:induction false} KeptConcat<N>(m: LabelMap<N>, top: Label, a: seq<Label>, b: seq<Label>,
                                         dontRecurseOn: Option<N -> bool>)
    ensures Kept(m, top, a + b, dontRecurseOn) == Kept(m, top, a, dontRecurseOn) + Kept(m, top, b, dontRecurseOn)
  {
    if a == [] {
      assert a + b == b;
    } else {
      var head := if Unpruned(m, top, a[0], dontRecurseOn) then [a[0]] else [];
      assert (a + b)[0] == a[0] && (a + b)[1..] == a[1..] + b;
      assert Kept(m, top, a + b, dontRecurseOn) == head + Kept(m, top, a[1..] + b, dontRecurseOn);
      KeptConcat(m, top, a[1..], b, dontRecurseOn);
      var ka, kb := Kept(m, top, a[1..], dontRecurseOn), Kept(m, top, b, dontRecurseOn);
      assert head + (ka + kb) == (head + ka) + kb;
    }
  }

  /** Filtering by two tops that agree on every label of `xs` gives the same result. */
  lemma {:induction false} KeptAgree<N>(m: LabelMap<N>, top: Label, top': Label, xs: seq<Label>,
                                        dontRecurseOn: Option<N -> bool>)
    requires forall x :: x in xs ==> Unpruned(m, top, x, dontRecurseOn) == Unpruned(m, top', x, dontRecurseOn)
    ensures Kept(m, top, xs, dontRecurseOn) == Kept(m, top', xs, dontRecurseOn)
  {
    if xs != [] {
      KeptAgree(m, top, top', xs[1..], dontRecurseOn);
    }
  }

  lemma {:induction false} KeptNone<N>(m: LabelMap<N>, top: Label, xs: seq<Label>,
                                       dontRecurseOn: Option<N -> bool>)
    requires forall x :: x in xs ==> !Unpruned(m, top, x, dontRecurseOn)
    ensures Kept(m, top, xs, dontRecurseOn) == []
  {
    if xs != [] {
      KeptNone(m, top, xs[1..], dontRecurseOn);
    }
  }

  // ---------------------------------------------------------------------
  // Pre- and postorder list the same labels, on any map the walks terminate on.
  // ---------------------------------------------------------------------

  /** Preorder and postorder, pruned alike, are permutations of each other. */
  lemma {:induction false} PreorderPostorderSameLabels<N>(m: LabelMap<N>, l: Label,
                                                         dontRecurseOn: Option<N -> bool>)
    requires l in m && ChildrenAbove(m)
    ensures multiset(Preorder(m, l, dontRecurseOn)) == multiset(Postorder(m, l, dontRecurseOn))
    decreases Above(m, l), 1
  {
    KidsSameLabels(m, l, |m[l].children|, dontRecurseOn);
  }

  lemma {:induction false} KidsSameLabels<N>(m: LabelMap<N>, l: Label, k: nat,
                                             dontRecurseOn: Option<N -> bool>)
    requires l in m && ChildrenAbove(m) && k <= |m[l].children|
    ensures multiset(PreorderKids(m, l, k, dontRecurseOn)) == multiset(PostorderKids(m, l, k, dontRecurseOn))
    decreases Above(m, l), 0, k
  {
    if k > 0 {
      var c := m[l].children[k - 1];
      AboveShrinks(m, l, c);
      KidsSameLabels(m, l, k - 1, dontRecurseOn);
      if !Prunes(dontRecurseOn, m[c].node) {
        PreorderPostorderSameLabels(m, c, dontRecurseOn);
      }
    }
  }

  // ---------------------------------------------------------------------
  // Unpruned walks over the labeller's output.
  // ---------------------------------------------------------------------

  lemma SubmapTrans<N>(a: LabelMap<N>, b: LabelMap<N>, c: LabelMap<N>)
    requires Submap(a, b) && Submap(b, c)
    ensures Submap(a, c)
  {
  }

  /** The children of a node the labeller wrote, as they appear in any map holding its entries. */
  lemma ChildAt<N>(t: Tree<N>, start: Label, parent: Label, m: LabelMap<N>, i: nat)
    requires Submap(Assigned(t, start, parent), m)
    requires i < |t.children|
    ensures start in m && |m[start].children| == |t.children|
    ensures m[start].children[i] == start + 1 + KidsSize(t, i)
    ensures Submap(Assigned(t.children[i], start + 1 + KidsSize(t, i), start), m)
  {
    assert Assigned(t, start, parent)[start].children == KidLabels(t, |t.children|, start + 1);
    KidLabelsAt(t, |t.children|, start + 1, i);
    KidSubmap(t, start, parent, i);
    SubmapTrans(Assigned(t.children[i], start + 1 + KidsSize(t, i), start), Assigned(t, start, parent), m);
  }

  /**
   * The unpruned preorder from a label the labeller gave to subtree `t` is
   * exactly the consecutive labels of that subtree: the labels were handed
   * out in preorder.
   */
  lemma {:induction false} PreorderOfSubtree<N>(t: Tree<N>, start: Label, parent: Label, m: LabelMap<N>)
    requires Submap(Assigned(t, start, parent), m) && ChildrenAbove(m)
    ensures start in m
    ensures Preorder(m, start, None) == Range(start, start + Size(t))
    decreases t, 1
  {
    assert start in Assigned(t, start, parent);
    assert |m[start].children| == |t.children| by {
      assert Assigned(t, start, parent)[start].children == KidLabels(t, |t.children|, start + 1);
      KidLabelsLength(t, |t.children|, start + 1);
    }
    PreorderKidsOfSubtree(t, start, parent, m, |t.children|);
  }

  lemma {:induction false} PreorderKidsOfSubtree<N>(t: Tree<N>, start: Label, parent: Label, m: LabelMap<N>, k: nat)
    requires Submap(Assigned(t, start, parent), m) && ChildrenAbove(m)
    requires k <= |t.children|
    ensures start in m && k <= |m[start].children|
    ensures PreorderKids(m, start, k, None) == Range(start + 1, start + 1 + KidsSize(t, k))
    decreases t, 0, k, 1
  {
    assert start in Assigned(t, start, parent);
    assert |m[start].children| == |t.children| by {
      assert Assigned(t, start, parent)[start].children == KidLabels(t, |t.children|, start + 1);
      KidLabelsLength(t, |t.children|, start + 1);
    }
    if k > 0 {
      PreorderKidsOfSubtree(t, start, parent, m, k - 1);
      PreorderChildAt(t, start, parent, m, k - 1);
      PreorderKidsStep(m, start, k, start + 1 + KidsSize(t, k - 1), start + 1 + KidsSize(t, k));
    } else {
      assert Range(start + 1, start + 1 + KidsSize(t, k)) == [];
    }
  }

  /** The `i`th child of `start` and its unpruned preorder. */
  lemma PreorderChildAt<N>(t: Tree<N>, start: Label, parent: Label, m: LabelMap<N>, i: nat)
    requires Submap(Assigned(t, start, parent), m) && ChildrenAbove(m)
    requires i < |t.children|
    ensures start in m && |m[start].children| == |t.children|
    ensures m[start].children[i] == start + 1 + KidsSize(t, i)
    ensures start + 1 + KidsSize(t, i) < start + 1 + KidsSize(t, i + 1)
    ensures Preorder(m, start + 1 + KidsSize(t, i), None)
         == Range(start + 1 + KidsSize(t, i), start + 1 + KidsSize(t, i + 1))
    decreases t, 0, i + 1, 0
  {
    var c := start + 1 + KidsSize(t, i);
    var u := t.children[i];
    ChildAt(t, start, parent, m, i);
    PreorderOfSubtree(u, c, start, m);
    assert c + Size(u) == start + 1 + KidsSize(t, i + 1);
  }

  /** Appending the `k`th child's preorder to the preorder of the first `k - 1` children. */
  lemma PreorderKidsStep<N>(m: LabelMap<N>, start: Label, k: nat, c: Label, hi: Label)
    requires ChildrenAbove(m) && start in m && 0 < k <= |m[start].children| && m[start].children[k - 1] == c
    requires start + 1 <= c <= hi
    requires PreorderKids(m, start, k - 1, None) == Range(start + 1, c)
    requires Preorder(m, c, None) == Range(c, hi)
    ensures PreorderKids(m, start, k, None) == Range(start + 1, hi)
  {
    AboveShrinks(m, start, c);
    assert PreorderKids(m, start, k, None) == PreorderKids(m, start, k - 1, None) + PreorderInner(m, c, None);
    assert PreorderInner(m, c, None) == Preorder(m, c, None);
    JoinRanges(PreorderKids(m, start, k - 1, None), Preorder(m, c, None), start + 1, c, hi);
  }

  lemma JoinRanges(xs: seq<Label>, ys: seq<Label>, lo: Label, mid: Label, hi: Label)
    requires lo <= mid <= hi
    requires xs == Range(lo, mid) && ys == Range(mid, hi)
    ensures xs + ys == Range(lo, hi)
  {
    RangeSplit(lo, mid, hi);
  }

  /**
   * The unpruned postorder from the same label ends with it and lists the
   * same labels, each once: it is a permutation of the preorder.
   */
  lemma PostorderOfSubtree<N>(t: Tree<N>, start: Label, parent: Label, m: LabelMap<N>)
    requires Submap(Assigned(t, start, parent), m) && ChildrenAbove(m)
    ensures start in m
    ensures var post := Postorder(m, start, None);
      && |post| == Size(t)
      && post[|post| - 1] == start
      && multiset(post) == multiset(Range(start, start + Size(t)))
  {
    PreorderOfSubtree(t, start, parent, m);
    PreorderPostorderSameLabels(m, start, None);
    assert |Postorder(m, start, None)| == |Preorder(m, start, None)| by {
      assert |multiset(Postorder(m, start, None))| == |multiset(Preorder(m, start, None))|;
    }
  }

  // ---------------------------------------------------------------------
  // Pruned walks over the labeller's output.
  // ---------------------------------------------------------------------

  /**
   * Inside the subtree labelled from `c` (a child of `top`), a label is
   * unpruned below `top` exactly when `c` does not prune and the label is
   * unpruned below `c`.
   */
  lemma {:induction false} UnprunedThroughChild<N>(u: Tree<N>, c: Label, top: Label, m: LabelMap<N>, x: Label,
                                                   dontRecurseOn: Option<N -> bool>)
    requires Submap(Assigned(u, c, top), m) && top < c
    requires x in Assigned(u, c, top)
    ensures c in m
    ensures Unpruned(m, top, x, dontRecurseOn)
        == (!Prunes(dontRecurseOn, m[c].node) && Unpruned(m, c, x, dontRecurseOn))
    decreases x
  {
    var a := Assigned(u, c, top);
    AssignedShape(u, c, top);
    assert c in a;
    assert [c][0] == c;
    if x != c {
      assert x !in [c];
      UnprunedThroughChild(u, c, top, m, a[x].parent, dontRecurseOn);
    }
  }

  /**
   * The pruned preorder from a label the labeller gave to subtree `t` is the
   * unpruned one filtered by `Unpruned`: the start is always listed, a
   * descendant is dropped exactly when it or a label between it and the start
   * prunes, and the rest keep their order.
   */
  lemma {:induction false} PrunedPreorderOfSubtree<N>(t: Tree<N>, start: Label, parent: Label, m: LabelMap<N>,
                                                      dontRecurseOn: Option<N -> bool>)
    requires Submap(Assigned(t, start, parent), m) && ChildrenAbove(m)
    ensures start in m
    ensures Preorder(m, start, dontRecurseOn) == Kept(m, start, Preorder(m, start, None), dontRecurseOn)
    decreases t, 1
  {
    PreorderOfSubtree(t, start, parent, m);
    assert |m[start].children| == |t.children| by {
      assert Assigned(t, start, parent)[start].children == KidLabels(t, |t.children|, start + 1);
      KidLabelsLength(t, |t.children|, start + 1);
    }
    PrunedPreorderKids(t, start, parent, m, |t.children|, dontRecurseOn);
    var rest := Range(start + 1, start + Size(t));
    assert Range(start, start + Size(t)) == [start] + rest;
    assert ([start] + rest)[0] == start && ([start] + rest)[1..] == rest;
  }

  lemma {:induction false} PrunedPreorderKids<N>(t: Tree<N>, start: Label, parent: Label, m: LabelMap<N>, k: nat,
                                                 dontRecurseOn: Option<N -> bool>)
    requires Submap(Assigned(t, start, parent), m) && ChildrenAbove(m)
    requires k <= |t.children|
    requires start in m && |m[start].children| == |t.children|
    ensures PreorderKids(m, start, k, dontRecurseOn)
        == Kept(m, start, Range(start + 1, start + 1 + KidsSize(t, k)), dontRecurseOn)
    decreases t, 0, k, 1
  {
    if k > 0 {
      PrunedPreorderKids(t, start, parent, m, k - 1, dontRecurseOn);
      PrunedChildAt(t, start, parent, m, k - 1, dontRecurseOn);
      PrunedKidsStep(m, start, k, dontRecurseOn, start + 1 + KidsSize(t, k - 1), start + 1 + KidsSize(t, k));
    } else {
      assert Range(start + 1, start + 1 + KidsSize(t, k)) == [];
    }
  }

  /** The `i`th child of `start` and its part of the pruned preorder. */
  lemma PrunedChildAt<N>(t: Tree<N>, start: Label, parent: Label, m: LabelMap<N>, i: nat,
                         dontRecurseOn: Option<N -> bool>)
    requires Submap(Assigned(t, start, parent), m) && ChildrenAbove(m)
    requires i < |t.children|
    ensures start in m && |m[start].children| == |t.children|
    ensures m[start].children[i] == start + 1 + KidsSize(t, i)
    ensures start + 1 + KidsSize(t, i) < start + 1 + KidsSize(t, i + 1)
    ensures PreorderInner(m, start + 1 + KidsSize(t, i), dontRecurseOn)
         == Kept(m, start, Range(start + 1 + KidsSize(t, i), start + 1 + KidsSize(t, i + 1)), dontRecurseOn)
    decreases t, 0, i + 1, 0
  {
    var c := start + 1 + KidsSize(t, i);
    var u := t.children[i];
    ChildAt(t, start, parent, m, i);
    PrunedChildPortion(u, c, start, m, dontRecurseOn);
    assert c + Size(u) == start + 1 + KidsSize(t, i + 1);
  }

  /** Appending the `k`th child's part to the pruned preorder of the first `k - 1` children. */
  lemma PrunedKidsStep<N>(m: LabelMap<N>, start: Label, k: nat, dontRecurseOn: Option<N -> bool>, c: Label, hi: Label)
    requires ChildrenAbove(m) && start in m && 0 < k <= |m[start].children| && m[start].children[k - 1] == c
    requires start + 1 <= c <= hi
    requires PreorderKids(m, start, k - 1, dontRecurseOn) == Kept(m, start, Range(start + 1, c), dontRecurseOn)
    requires PreorderInner(m, c, dontRecurseOn) == Kept(m, start, Range(c, hi), dontRecurseOn)
    ensures PreorderKids(m, start, k, dontRecurseOn) == Kept(m, start, Range(start + 1, hi), dontRecurseOn)
  {
    AboveShrinks(m, start, c);
    assert PreorderKids(m, start, k, dontRecurseOn)
        == PreorderKids(m, start, k - 1, dontRecurseOn) + PreorderInner(m, c, dontRecurseOn);
    KeptJoin(m, start, dontRecurseOn, PreorderKids(m, start, k - 1, dontRecurseOn), PreorderInner(m, c, dontRecurseOn),
      start + 1, c, hi);
  }

  lemma KeptJoin<N>(m: LabelMap<N>, top: Label, dontRecurseOn: Option<N -> bool>, xs: seq<Label>, ys: seq<Label>,
                    lo: Label, mid: Label, hi: Label)
    requires lo <= mid <= hi
    requires xs == Kept(m, top, Range(lo, mid), dontRecurseOn)
    requires ys == Kept(m, top, Range(mid, hi), dontRecurseOn)
    ensures xs + ys == Kept(m, top, Range(lo, hi), dontRecurseOn)
  {
    RangeSplit(lo, mid, hi);
    KeptConcat(m, top, Range(lo, mid), Range(mid, hi), dontRecurseOn);
  }

  /** A child's part of its parent's pruned preorder. */
  lemma {:induction false} PrunedChildPortion<N>(u: Tree<N>, c: Label, top: Label, m: LabelMap<N>,
                                                 dontRecurseOn: Option<N -> bool>)
    requires Submap(Assigned(u, c, top), m) && ChildrenAbove(m) && top < c
    ensures c in m
    ensures PreorderInner(m, c, dontRecurseOn) == Kept(m, top, Range(c, c + Size(u)), dontRecurseOn)
    decreases u, 2
  {
    var sub := Range(c, c + Size(u));
    PreorderOfSubtree(u, c, top, m);
    ChildFilter(u, c, top, m, sub, dontRecurseOn);
    if Prunes(dontRecurseOn, m[c].node) {
      assert PreorderInner(m, c, dontRecurseOn) == [];
      KeptNone(m, top, sub, dontRecurseOn);
    } else {
      assert PreorderInner(m, c, dontRecurseOn) == Preorder(m, c, dontRecurseOn);
      PrunedPreorderOfSubtree(u, c, top, m, dontRecurseOn);
      KeptAgree(m, top, c, sub, dontRecurseOn);
    }
  }

  /**
   * Filtering the labels of the subtree labelled from `c` (a child of
   * `top`) below `top`: nothing if `c` prunes, else the same as below `c`.
   */
  lemma ChildFilter<N>(u: Tree<N>, c: Label, top: Label, m: LabelMap<N>, sub: seq<Label>,
                       dontRecurseOn: Option<N -> bool>)
    requires Submap(Assigned(u, c, top), m) && top < c
    requires forall x :: x in sub ==> c <= x < c + Size(u)
    ensures c in m
    ensures Prunes(dontRecurseOn, m[c].node) ==> forall x :: x in sub ==> !Unpruned(m, top, x, dontRecurseOn)
    ensures !Prunes(dontRecurseOn, m[c].node) ==>
      forall x :: x in sub ==> Unpruned(m, top, x, dontRecurseOn) == Unpruned(m, c, x, dontRecurseOn)
  {
    AssignedShape(u, c, top);
    assert c in Assigned(u, c, top);
    forall x | x in sub
      ensures Unpruned(m, top, x, dontRecurseOn)
           == (!Prunes(dontRecurseOn, m[c].node) && Unpruned(m, c, x, dontRecurseOn))
    {
      UnprunedThroughChild(u, c, top, m, x, dontRecurseOn);
    }
  }

  /** The same for postorder: the pruned postorder filters the unpruned one by `Unpruned`. */
  lemma {:induction false} PrunedPostorderOfSubtree<N>(t: Tree<N>, start: Label, parent: Label, m: LabelMap<N>,
                                                       dontRecurseOn: Option<N -> bool>)
    requires Submap(Assigned(t, start, parent), m) && ChildrenAbove(m)
    ensures start in m
    ensures Postorder(m, start, dontRecurseOn) == Kept(m, start, Postorder(m, start, None), dontRecurseOn)
    decreases t, 1
  {
    assert start in Assigned(t, start, parent);
    assert |m[start].children| == |t.children| by {
      assert Assigned(t, start, parent)[start].children == KidLabels(t, |t.children|, start + 1);
      KidLabelsLength(t, |t.children|, start + 1);
    }
    var kids := PostorderKids(m, start, |t.children|, None);
    PrunedPostorderKids(t, start, parent, m, |t.children|, dontRecurseOn);
    KeptConcat(m, start, kids, [start], dontRecurseOn);
    assert [start][1..] == [];
  }

  lemma {:induction false} PrunedPostorderKids<N>(t: Tree<N>, start: Label, parent: Label, m: LabelMap<N>, k: nat,
                                                  dontRecurseOn: Option<N -> bool>)
    requires Submap(Assigned(t, start, parent), m) && ChildrenAbove(m)
    requires k <= |t.children|
    requires start in m && |m[start].children| == |t.children|
    ensures PostorderKids(m, start, k, dontRecurseOn)
        == Kept(m, start, PostorderKids(m, start, k, None), dontRecurseOn)
    decreases t, 0, k
  {
    if k > 0 {
      var c := start + 1 + KidsSize(t, k - 1);
      var u := t.children[k - 1];
      ChildAt(t, start, parent, m, k - 1);
      AboveShrinks(m, start, c);
      var sub := Postorder(m, c, None);
      var before := PostorderKids(m, start, k - 1, None);
      assert PostorderKids(m, start, k, None) == before + PostorderInner(m, c, None);
      assert PostorderInner(m, c, None) == sub;
      assert PostorderKids(m, start, k, dontRecurseOn)
          == PostorderKids(m, start, k - 1, dontRecurseOn) + PostorderInner(m, c, dontRecurseOn);
      PrunedPostorderKids(t, start, parent, m, k - 1, dontRecurseOn);
      KeptConcat(m, start, before, sub, dontRecurseOn);
      PostorderChildPortion(u, c, start, m, dontRecurseOn);
    }
  }

  /** A child's part of its parent's pruned postorder. */
  lemma {:induction false} PostorderChildPortion<N>(u: Tree<N>, c: Label, top: Label, m: LabelMap<N>,
                                                    dontRecurseOn: Option<N -> bool>)
    requires Submap(Assigned(u, c, top), m) && ChildrenAbove(m) && top < c
    ensures c in m
    ensures PostorderInner(m, c, dontRecurseOn) == Kept(m, top, Postorder(m, c, None), dontRecurseOn)
    decreases u, 2
  {
    var sub := Postorder(m, c, None);
    PostorderOfSubtree(u, c, top, m);
    forall x | x in sub ensures c <= x < c + Size(u) {
      assert x in multiset(Range(c, c + Size(u)));
    }
    ChildFilter(u, c, top, m, sub, dontRecurseOn);
    if Prunes(dontRecurseOn, m[c].node) {
      assert PostorderInner(m, c, dontRecurseOn) == [];
      KeptNone(m, top, sub, dontRecurseOn);
    } else {
      assert PostorderInner(m, c, dontRecurseOn) == Postorder(m, c, dontRecurseOn);
      PrunedPostorderOfSubtree(u, c, top, m, dontRecurseOn);
      KeptAgree(m, top, c, sub, dontRecurseOn);
    }
  }

  // ---------------------------------------------------------------------
  // From any label of a labelled tree.
  // ---------------------------------------------------------------------

  /** Every label of the labeller's output starts the entries written for some subtree. */
  lemma {:induction false} EveryLabelStartsSubtree<N>(t: Tree<N>, start: Label, parent: Label, l: Label)
    requires l in Assigned(t, start, parent)
    ensures exists u: Tree<N>, q: Label :: Submap(Assigned(u, l, q), Assigned(t, start, parent))
    decreases t, 1
  {
    var a := Assigned(t, start, parent);
    if l == start {
      assert Submap(Assigned(t, start, parent), a);
    } else {
      var kids := AssignedKids(t, |t.children|, start + 1, start);
      AssignedKidsShape(t, |t.children|, start + 1, start);
      assert l in kids;
      KidsLabelStartsSubtree(t, |t.children|, start + 1, start, l);
      var u: Tree<N>, q: Label :| Submap(Assigned(u, l, q), kids);
      assert Submap(Assigned(u, l, q), a);
    }
  }

  lemma {:induction false} KidsLabelStartsSubtree<N>(t: Tree<N>, k: nat, first: Label, owner: Label, l: Label)
    requires k <= |t.children| && owner < first
    requires l in AssignedKids(t, k, first, owner)
    ensures exists u: Tree<N>, q: Label :: Submap(Assigned(u, l, q), AssignedKids(t, k, first, owner))
    decreases t, 0, k
  {
    var a := first + KidsSize(t, k - 1);
    var before := AssignedKids(t, k - 1, first, owner);
    var kid := Assigned(t.children[k - 1], a, owner);
    var all := AssignedKids(t, k, first, owner);
    assert all == before + kid;
    if l in kid {
      EveryLabelStartsSubtree(t.children[k - 1], a, owner, l);
      var u: Tree<N>, q: Label :| Submap(Assigned(u, l, q), kid);
      assert Submap(Assigned(u, l, q), all);
    } else {
      KidsLabelStartsSubtree(t, k - 1, first, owner, l);
      var u: Tree<N>, q: Label :| Submap(Assigned(u, l, q), before);
      AssignedKidsShape(t, k - 1, first, owner);
      AssignedShape(t.children[k - 1], a, owner);
      assert Submap(Assigned(u, l, q), all);
    }
  }

  /** `AssignLabels` numbers the whole tree 1, 2, ..., Size(t) in preorder. */
  lemma LabelsArePreorder<N>(t: Tree<N>)
    ensures 1 in Assigned(t, 1, 0) && ChildrenAbove(Assigned(t, 1, 0))
    ensures Preorder(Assigned(t, 1, 0), 1, None) == Range(1, Size(t) + 1)
  {
    AssignedWellFormed(t);
    PreorderOfSubtree(t, 1, 0, Assigned(t, 1, 0));
  }

  /** The subtree whose entries start at `l`, and the label of its parent. */
  lemma SubtreeAt<N>(t: Tree<N>, l: Label) returns (u: Tree<N>, q: Label)
    requires l in Assigned(t, 1, 0)
    ensures Submap(Assigned(u, l, q), Assigned(t, 1, 0)) && ChildrenAbove(Assigned(t, 1, 0))
  {
    AssignedWellFormed(t);
    EveryLabelStartsSubtree(t, 1, 0, l);
    u, q :| Submap(Assigned(u, l, q), Assigned(t, 1, 0));
  }

  /** From any label of a labelled tree, the unpruned preorder lists no label twice. */
  lemma PreorderDistinct<N>(t: Tree<N>, l: Label)
    requires l in Assigned(t, 1, 0)
    ensures ChildrenAbove(Assigned(t, 1, 0))
    ensures var pre := Preorder(Assigned(t, 1, 0), l, None);
      forall i, j :: 0 <= i < j < |pre| ==> pre[i] != pre[j]
  {
    var u, q := SubtreeAt(t, l);
    PreorderOfSubtree(u, l, q, Assigned(t, 1, 0));
  }

  /** From any label of a labelled tree, the postorder is a permutation of the preorder. */
  lemma PostorderPermutesPreorder<N>(t: Tree<N>, l: Label, dontRecurseOn: Option<N -> bool>)
    requires l in Assigned(t, 1, 0)
    ensures ChildrenAbove(Assigned(t, 1, 0))
    ensures multiset(Preorder(Assigned(t, 1, 0), l, dontRecurseOn))
         == multiset(Postorder(Assigned(t, 1, 0), l, dontRecurseOn))
  {
    AssignedWellFormed(t);
    PreorderPostorderSameLabels(Assigned(t, 1, 0), l, dontRecurseOn);
  }

  /**
   * From any label of a labelled tree, the pruned preorder is the unpruned
   * one filtered by `Unpruned`.
   */
  lemma PrunedPreorderFromAnyLabel<N>(t: Tree<N>, l: Label, dontRecurseOn: Option<N -> bool>)
    requires l in Assigned(t, 1, 0)
    ensures ChildrenAbove(Assigned(t, 1, 0))
    ensures var m := Assigned(t, 1, 0);
      Preorder(m, l, dontRecurseOn) == Kept(m, l, Preorder(m, l, None), dontRecurseOn)
  {
    var u, q := SubtreeAt(t, l);
    PrunedPreorderOfSubtree(u, l, q, Assigned(t, 1, 0), dontRecurseOn);
  }

  /**
   * From any label of a labelled tree, the pruned postorder is the unpruned
   * one filtered by `Unpruned`.
   */
  lemma PrunedPostorderFromAnyLabel<N>(t: Tree<N>, l: Label, dontRecurseOn: Option<N -> bool>)
    requires l in Assigned(t, 1, 0)
    ensures ChildrenAbove(Assigned(t, 1, 0))
    ensures var m := Assigned(t, 1, 0);
      Postorder(m, l, dontRecurseOn) == Kept(m, l, Postorder(m, l, None), dontRecurseOn)
  {
    var u, q := SubtreeAt(t, l);
    PrunedPostorderOfSubtree(u, l, q, Assigned(t, 1, 0), dontRecurseOn);
  }
}
