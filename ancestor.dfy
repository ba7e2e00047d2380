/**
 * `common_ancestor`: collect the ancestors of the first label (itself
 * included) whose node is not the `Empty` node, then walk up from the second
 * label to the first of them.
 */
module Ancestor {
  import opened Wrappers
  import opened Ast

  /**
   * The labels the first loop collects from `l`: those on its chain whose
   * node passes the emptiness test.
   */
  function Collected<N>(m: LabelMap<N>, l: Label, isEmpty: N -> bool): set<Label>
    requires ParentsBelow(m)
    requires l == 0 || l in m
    decreases l
  {
    if l == 0 then {} else (if isEmpty(m[l].node) then {} else {l}) + Collected(m, m[l].parent, isEmpty)
  }

  /**
   * Where the second loop stops walking up from `l`: the first label in
   * `s`, or None where it looks up a missing entry (KeyError).
   */
  function FirstIn<N>(m: LabelMap<N>, l: Label, s: set<Label>): Option<Label>
    requires ParentsBelow(m)
    decreases l
  {
    if l in s then Some(l) else if l !in m then None else FirstIn(m, m[l].parent, s)
  }

  /** What `common_ancestor(label1, label2, ast)` returns; None where it raises KeyError. */
  function Common<N>(m: LabelMap<N>, label1: Label, label2: Label, isEmpty: N -> bool): Option<Label>
    requires ParentsBelow(m)
  {
    if label1 != 0 && label1 !in m then None else FirstIn(m, label2, Collected(m, label1, isEmpty))
  }

  /**
   * The two loops of `common_ancestor`. `isEmpty(n)` stands for the test
   * `n is nodes.Empty`.
   */
  method CommonAncestor<N>(label1: Label, label2: Label, m: LabelMap<N>, isEmpty: N -> bool) returns (r: Option<Label>)
    requires ParentsBelow(m)
    ensures r == Common(m, label1, label2, isEmpty)
  {
    var ancestors: set<Label> := {};
    var l1 := label1;
    while l1 != 0
      invariant l1 == label1 || l1 == 0 || l1 in m
      invariant l1 == label1 || label1 == 0 || label1 in m
      invariant (label1 == 0 || label1 in m) && (l1 == 0 || l1 in m) ==>
        ancestors + Collected(m, l1, isEmpty) == Collected(m, label1, isEmpty)
      decreases l1
    {
      if l1 !in m {
        // `ast[label1]` raises KeyError
        return None;
      }
      if !isEmpty(m[l1].node) {
        ancestors := ancestors + {l1};
      }
      l1 := m[l1].parent;
    }
    var l2 := label2;
    while l2 !in ancestors
      invariant FirstIn(m, l2, ancestors) == FirstIn(m, label2, ancestors)
      decreases l2
    {
      if l2 !in m {
        // `ast[label2]` raises KeyError
        return None;
      }
      l2 := m[l2].parent;
    }
    r := Some(l2);
  }

  /** The chain from `l` holds keys no greater than `l`, `l` first. */
  lemma {:induction false} ChainBelow<N>(m: LabelMap<N>, l: Label)
    requires ParentsBelow(m) && (l == 0 || l in m)
    ensures l != 0 ==> Chain(m, l)[0] == l
    ensures forall x :: x in Chain(m, l) ==> x in m && x <= l
    decreases l
  {
    if l != 0 {
      ChainBelow(m, m[l].parent);
    }
  }

  /** The first loop collects exactly the non-empty labels on the chain. */
  lemma {:induction false} CollectedIsChain<N>(m: LabelMap<N>, l: Label, isEmpty: N -> bool)
    requires ParentsBelow(m) && (l == 0 || l in m)
    ensures forall x :: x in Collected(m, l, isEmpty) <==> x in Chain(m, l) && x in m && !isEmpty(m[x].node)
    decreases l
  {
    ChainBelow(m, l);
    if l != 0 {
      CollectedIsChain(m, m[l].parent, isEmpty);
    }
  }

  /** The second loop stops at a label of `s` on the chain from `l`, and before every other. */
  lemma {:induction false} FirstInIsFirst<N>(m: LabelMap<N>, l: Label, s: set<Label>)
    requires ParentsBelow(m)
    requires forall x :: x in s ==> x in m
    requires FirstIn(m, l, s).Some?
    ensures l in m
    ensures
      var a := FirstIn(m, l, s).value;
      && a in s && a in Chain(m, l)
      && forall x :: x in Chain(m, l) && x in s ==> x in Chain(m, a)
    decreases l
  {
    if l !in s {
      var p := m[l].parent;
      FirstInIsFirst(m, p, s);
      assert Chain(m, l) == [l] + Chain(m, p);
    } else {
      assert Chain(m, l) == [l] + Chain(m, m[l].parent);
    }
  }

  /** The second loop finds a label of `s` whenever one lies on the chain. */
  lemma {:induction false} FirstInFinds<N>(m: LabelMap<N>, l: Label, s: set<Label>, x: Label)
    requires ParentsBelow(m) && (l == 0 || l in m)
    requires x in Chain(m, l) && x in s
    ensures FirstIn(m, l, s).Some?
    decreases l
  {
    if l !in s {
      FirstInFinds(m, m[l].parent, s, x);
    }
  }

  /**
   * What `common_ancestor` returns is a non-empty ancestor (or self) of
   * both labels, and every other such label is an ancestor of it: it is
   * the deepest common one.
   */
  lemma CommonIsDeepest<N>(m: LabelMap<N>, label1: Label, label2: Label, isEmpty: N -> bool)
    requires ParentsBelow(m)
    requires Common(m, label1, label2, isEmpty).Some?
    ensures label1 in m && label2 in m
    ensures
      var a := Common(m, label1, label2, isEmpty).value;
      && a in m && a in Chain(m, label1) && a in Chain(m, label2) && !isEmpty(m[a].node)
      && forall x :: x in Chain(m, label1) && x in Chain(m, label2) && x in m && !isEmpty(m[x].node) ==>
           x in Chain(m, a)
  {
    var s := Collected(m, label1, isEmpty);
    CollectedIsChain(m, label1, isEmpty);
    FirstInIsFirst(m, label2, s);
    ChainBelow(m, label1);
  }

  /** Every label lies below the root: its chain ends with label 1. */
  lemma {:induction false} ChainReachesRoot<N>(m: LabelMap<N>, l: Label)
    requires WellFormed(m) && l in m
    ensures 1 in Chain(m, l)
    decreases l
  {
    if l != 1 {
      ChainReachesRoot(m, m[l].parent);
    }
  }

  /**
   * On a well-formed map `common_ancestor` never raises for two labels of
   * the map, as long as the root is not the `Empty` node.
   */
  lemma CommonExists<N>(m: LabelMap<N>, label1: Label, label2: Label, isEmpty: N -> bool)
    requires WellFormed(m) && label1 in m && label2 in m
    requires !isEmpty(m[1].node)
    ensures Common(m, label1, label2, isEmpty).Some?
  {
    ChainReachesRoot(m, label1);
    ChainReachesRoot(m, label2);
    CollectedIsChain(m, label1, isEmpty);
    FirstInFinds(m, label2, Collected(m, label1, isEmpty), 1);
  }

  /**
   * `n is nodes.Empty` compares a node with a class and never holds, so
   * every label is collected: on a well-formed map `common_ancestor` is
   * the lowest common ancestor of the two labels.
   */
  lemma LowestCommonAncestor<N>(m: LabelMap<N>, label1: Label, label2: Label)
    requires WellFormed(m) && label1 in m && label2 in m
    ensures
      var r := Common(m, label1, label2, NeverEmpty);
      && r.Some?
      && r.value in m && r.value in Chain(m, label1) && r.value in Chain(m, label2)
      && forall x :: x in Chain(m, label1) && x in Chain(m, label2) ==> x in Chain(m, r.value)
  {
    CommonExists(m, label1, label2, NeverEmpty);
    CommonIsDeepest(m, label1, label2, NeverEmpty);
    ChainBelow(m, label1);
  }

  /** The literal reading of `n is nodes.Empty`: an instance is never the class itself. */
  predicate NeverEmpty<N>(n: N)
  {
    false
  }

  /**
   * When the first label is a non-empty ancestor of the second (or the
   * second itself), it is the answer.
   */
  lemma {:induction false} AncestorIsCommon<N>(m: LabelMap<N>, label1: Label, label2: Label, isEmpty: N -> bool)
    requires ParentsBelow(m) && label1 in m && label2 in m
    requires label1 in Chain(m, label2) && !isEmpty(m[label1].node)
    ensures Common(m, label1, label2, isEmpty) == Some(label1)
    decreases label2
  {
    CollectedIsChain(m, label1, isEmpty);
    ChainBelow(m, label1);
    ChainBelow(m, label2);
    if label2 != label1 {
      assert label1 in Chain(m, m[label2].parent);
      AncestorIsCommon(m, label1, m[label2].parent, isEmpty);
    }
  }
}
