/** Option, the absence of a result (a Python exception or a `None` move). */
module Wrappers {
  datatype Option<+T> = None | Some(value: T)
}

/**
 * The labelled view of a syntax tree that the zipper tests use as their oracle:
 * a dictionary from labels to entries, where label 0 stands for "no parent".
 */
module Ast {
  import opened Wrappers

  /** A node's number in the labelled tree; 0 is the root's parent. */
  type Label = nat

  /** The zipper moves the edge table names. */
  datatype Move = Down | Up | Root | Left | Leftmost | Right | Rightmost

  /** A legal move from a label and the label it reaches. */
  datatype Edge = Edge(target: Label, move: Move)

  /**
   * An entry of the labelled tree: first written without edges by the labeller,
   * then rewritten with its edge table by the edge pass.
   */
  datatype Entry<N> =
    | Labelled(node: N, children: seq<Label>, parent: Label)
    | Annotated(node: N, children: seq<Label>, parent: Label, edges: seq<Edge>)

  type LabelMap<N> = map<Label, Entry<N>>

  /** The dictionary both passes fill in place. */
  class AstMap<N> {
    var entries: LabelMap<N>

    constructor ()
      ensures entries == map[]
    {
      entries := map[];
    }
  }

  /** `s.index(x)`: the first position of `x`, or None where Python raises ValueError. */
  function IndexOf(s: seq<Label>, x: Label): (r: Option<nat>)
    ensures r.Some? ==> r.value < |s| && s[r.value] == x && x !in s[..r.value]
    ensures r.None? ==> x !in s
  {
    if s == [] then None
    else if s[0] == x then Some(0)
    else match IndexOf(s[1..], x)
      case None => None
      case Some(i) => Some(i + 1)
  }

  /** Every child label is a key and is greater than its parent's label. */
  ghost predicate ChildrenAbove<N>(m: LabelMap<N>)
  {
    forall l, i :: l in m && 0 <= i < |m[l].children| ==>
      m[l].children[i] in m && l < m[l].children[i]
  }

  /** Every parent label is 0 or a key, and is smaller than the label itself. */
  ghost predicate ParentsBelow<N>(m: LabelMap<N>)
  {
    forall l :: l in m ==> m[l].parent < l && (m[l].parent == 0 || m[l].parent in m)
  }

  /** Sibling labels are listed in increasing order (so they are distinct). */
  ghost predicate SiblingsIncreasing<N>(m: LabelMap<N>)
  {
    forall l, i, j :: l in m && 0 <= i < j < |m[l].children| ==>
      m[l].children[i] < m[l].children[j]
  }

  /**
   * The shape the labeller produces: label 1 is the only root, parent and
   * children fields agree with each other, and labels grow downwards.
   */
  ghost predicate WellFormed<N>(m: LabelMap<N>)
  {
    && ChildrenAbove(m)
    && ParentsBelow(m)
    && SiblingsIncreasing(m)
    && 1 in m && m[1].parent == 0
    && (forall l :: l in m && l != 1 ==> m[l].parent != 0 && l in m[m[l].parent].children)
    && (forall l, i :: l in m && 0 <= i < |m[l].children| ==> m[m[l].children[i]].parent == l)
  }

  /** The labels met walking from `l` up the parent fields, `l` first, stopping at 0. */
  function Chain<N>(m: LabelMap<N>, l: Label): (r: seq<Label>)
    requires ParentsBelow(m)
    requires l == 0 || l in m
    decreases l
  {
    if l == 0 then [] else [l] + Chain(m, m[l].parent)
  }

  /** Labels `lo`, `lo + 1`, ..., `hi - 1`. */
  function Range(lo: Label, hi: Label): (r: seq<Label>)
    requires lo <= hi
    ensures |r| == hi - lo
    ensures forall i :: 0 <= i < |r| ==> r[i] == lo + i
    decreases hi - lo
  {
    if lo == hi then [] else [lo] + Range(lo + 1, hi)
  }

  lemma RangeSplit(lo: Label, mid: Label, hi: Label)
    requires lo <= mid <= hi
    ensures Range(lo, hi) == Range(lo, mid) + Range(mid, hi)
  {
  }
}
