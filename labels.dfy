/**
 * `AssignLabels`: numbering the nodes of a syntax tree in preorder, starting
 * at 1, and recording for each label its node, its children's labels and its
 * parent's label (0 for the root).
 */
module Labels {
  import opened Ast

  /** A syntax-tree node: a payload and its ordered children. */
  datatype Tree<N> = Node(value: N, children: seq<Tree<N>>)

  /** The number of nodes in `t`. */
  function Size<N>(t: Tree<N>): nat
    decreases t, 1
  {
    1 + KidsSize(t, |t.children|)
  }

  /** The number of nodes in the first `k` children subtrees of `t`. */
  function KidsSize<N>(t: Tree<N>, k: nat): nat
    requires k <= |t.children|
    decreases t, 0, k
  {
    if k == 0 then 0 else KidsSize(t, k - 1) + Size(t.children[k - 1])
  }

  /** The labels given to the first `k` children of `t` when the first of them gets `first`. */
  function KidLabels<N>(t: Tree<N>, k: nat, first: Label): seq<Label>
    requires k <= |t.children|
  {
    if k == 0 then [] else KidLabels(t, k - 1, first) + [first + KidsSize(t, k - 1)]
  }

  /** The entries the labeller writes for `t` when `t` gets label `start` under `parent`. */
  function Assigned<N>(t: Tree<N>, start: Label, parent: Label): LabelMap<N>
    decreases t, 1
  {
    AssignedKids(t, |t.children|, start + 1, start)
      [start := Labelled(t.value, KidLabels(t, |t.children|, start + 1), parent)]
  }

  /** The entries written for the first `k` children subtrees of `t`, whose label is `owner`. */
  function AssignedKids<N>(t: Tree<N>, k: nat, first: Label, owner: Label): LabelMap<N>
    requires k <= |t.children|
    decreases t, 0, k
  {
    if k == 0 then map[]
    else AssignedKids(t, k - 1, first, owner) + Assigned(t.children[k - 1], first + KidsSize(t, k - 1), owner)
  }

  lemma UnionAssoc<K, V>(a: map<K, V>, b: map<K, V>, c: map<K, V>)
    ensures (a + b) + c == a + (b + c)
  {
  }

  lemma UnionUpdate<K, V>(a: map<K, V>, b: map<K, V>, k: K, v: V)
    ensures (a + b)[k := v] == a + b[k := v]
  {
  }

  /** The labeller: a counter holding the next label to hand out. */
  class AssignLabels<N> {
    var nextLabel: Label

    constructor ()
      ensures nextLabel == 1
    {
      nextLabel := 1;
    }

    /**
     * Labels `node` and its subtree, children first written, the node's own
     * entry last; returns the node's label.
     */
    method Call(labels: AstMap<N>, node: Tree<N>, parentLabel: Label) returns (given: Label)
      modifies this, labels
      decreases node
      ensures given == old(nextLabel) && nextLabel == given + Size(node)
      ensures labels.entries == old(labels.entries) + Assigned(node, given, parentLabel)
    {
      given := nextLabel;
      nextLabel := nextLabel + 1;
      var children: seq<Label> := [];
      var i := 0;
      while i < |node.children|
        invariant i <= |node.children|
        invariant nextLabel == given + 1 + KidsSize(node, i)
        invariant children == KidLabels(node, i, given + 1)
        invariant labels.entries == old(labels.entries) + AssignedKids(node, i, given + 1, given)
      {
        var c := Call(labels, node.children[i], given);
        UnionAssoc(old(labels.entries), AssignedKids(node, i, given + 1, given),
          Assigned(node.children[i], given + 1 + KidsSize(node, i), given));
        children := children + [c];
        i := i + 1;
      }
      UnionUpdate(old(labels.entries), AssignedKids(node, |node.children|, given + 1, given),
        given, Labelled(node.value, children, parentLabel));
      labels.entries := labels.entries[given := Labelled(node.value, children, parentLabel)];
    }
  }

  /** `AssignLabels()(ast, root)` on an empty dictionary. */
  method LabelTree<N>(ast: AstMap<N>, root: Tree<N>) returns (given: Label)
    requires ast.entries == map[]
    modifies ast
    ensures given == 1
    ensures ast.entries == Assigned(root, 1, 0)
  {
    var labeller := new AssignLabels<N>();
    given := labeller.Call(ast, root, 0);
  }

  /** `m` holds exactly the labels `lo` .. `lo + n - 1`. */
  ghost predicate KeysSpan<N>(m: LabelMap<N>, lo: Label, n: nat)
  {
    forall l :: l in m <==> lo <= l < lo + n
  }

  ghost predicate Increasing(s: seq<Label>)
  {
    forall i, j :: 0 <= i < j < |s| ==> s[i] < s[j]
  }

  /** Every entry of `a` is an entry of `b`. */
  ghost predicate Submap<N>(a: LabelMap<N>, b: LabelMap<N>)
  {
    forall l :: l in a ==> l in b && b[l] == a[l]
  }

  /**
   * The shape of the entries written for a forest whose roots are `roots`
   * (under the label `owner`): a root's parent is `owner`; any other entry's
   * parent is a smaller label of the forest listing it among its children;
   * children are labels of the forest, greater than their parent, naming it
   * as parent, and listed in increasing order.
   */
  ghost predicate Linked<N>(m: LabelMap<N>, owner: Label, roots: seq<Label>)
  {
    && (forall i :: 0 <= i < |roots| ==> roots[i] in m)
    && Increasing(roots)
    && (forall l :: l in m && l in roots ==> m[l].parent == owner)
    && UpLinked(m, roots)
    && DownLinked(m)
    && SiblingsIncreasing(m)
  }

  /** An entry outside `roots` has a smaller parent in `m` that lists it as a child. */
  ghost predicate UpLinked<N>(m: LabelMap<N>, roots: seq<Label>)
  {
    forall l :: l in m && l !in roots ==>
      m[l].parent in m && m[l].parent < l && l in m[m[l].parent].children
  }

  /** Children are greater labels of `m` naming their parent. */
  ghost predicate DownLinked<N>(m: LabelMap<N>)
  {
    forall l, i :: l in m && 0 <= i < |m[l].children| ==>
      m[l].children[i] in m && l < m[l].children[i] && m[m[l].children[i]].parent == l
  }

  /** Joining the forests of two consecutive label ranges. */
  lemma LinkedUnion<N>(a: LabelMap<N>, b: LabelMap<N>, owner: Label, ra: seq<Label>, x: Label,
                       lo: Label, n: nat, size: nat)
    requires KeysSpan(a, lo, n) && Linked(a, owner, ra)
    requires x == lo + n
    requires KeysSpan(b, x, size) && Linked(b, owner, [x])
    ensures KeysSpan(a + b, lo, n + size)
    ensures Linked(a + b, owner, ra + [x])
  {
    assert forall l :: l in ra ==> l in a && l < x;
    assert [x][0] == x;
    UnionRoots(a, b, owner, ra, x);
    UnionUp(a, b, ra, x);
    UnionDown(a, b);
    UnionSiblings(a, b);
  }

  lemma UnionRoots<N>(a: LabelMap<N>, b: LabelMap<N>, owner: Label, ra: seq<Label>, x: Label)
    requires forall l :: l in a ==> l < x
    requires forall l :: l in b ==> x <= l
    requires x in b && b[x].parent == owner
    requires forall i :: 0 <= i < |ra| ==> ra[i] in a
    requires Increasing(ra)
    requires forall l :: l in a && l in ra ==> a[l].parent == owner
    ensures forall i :: 0 <= i < |ra + [x]| ==> (ra + [x])[i] in a + b
    ensures Increasing(ra + [x])
    ensures forall l :: l in a + b && l in ra + [x] ==> (a + b)[l].parent == owner
  {
    var r := ra + [x];
    forall l | l in a + b && l in r
      ensures (a + b)[l].parent == owner
    {
      if l != x {
        assert l in ra;
      }
    }
    forall i, j | 0 <= i < j < |r|
      ensures r[i] < r[j]
    {
      if j == |ra| {
        assert r[i] in a;
      }
    }
  }

  lemma UnionUp<N>(a: LabelMap<N>, b: LabelMap<N>, ra: seq<Label>, x: Label)
    requires forall l :: l in a ==> l < x
    requires forall l :: l in b ==> x <= l
    requires UpLinked(a, ra) && UpLinked(b, [x])
    ensures UpLinked(a + b, ra + [x])
  {
    var m := a + b;
    var r := ra + [x];
    forall l | l in m && l !in r
      ensures m[l].parent in m && m[l].parent < l && l in m[m[l].parent].children
    {
      if l in b {
        assert l !in [x];
        assert b[l].parent in b;
      } else {
        assert l !in ra;
        assert a[l].parent in a;
      }
    }
  }

  lemma UnionDown<N>(a: LabelMap<N>, b: LabelMap<N>)
    requires a.Keys !! b.Keys
    requires DownLinked(a) && DownLinked(b)
    ensures DownLinked(a + b)
  {
    var m := a + b;
    forall l, i | l in m && 0 <= i < |m[l].children|
      ensures m[l].children[i] in m && l < m[l].children[i] && m[m[l].children[i]].parent == l
    {
      if l in b {
        assert m[l] == b[l];
        assert b[l].children[i] in b;
      } else {
        assert m[l] == a[l];
        assert a[l].children[i] in a;
      }
    }
  }

  lemma UnionSiblings<N>(a: LabelMap<N>, b: LabelMap<N>)
    requires SiblingsIncreasing(a) && SiblingsIncreasing(b)
    ensures SiblingsIncreasing(a + b)
  {
    var m := a + b;
    forall l, i, j | l in m && 0 <= i < j < |m[l].children|
      ensures m[l].children[i] < m[l].children[j]
    {
      if l in b {
        assert m[l] == b[l];
      } else {
        assert m[l] == a[l];
      }
    }
  }

  /** Adding the entry of the node whose children are the forest's roots. */
  lemma LinkedAdopt<N>(kids: LabelMap<N>, start: Label, n: nat, value: N, roots: seq<Label>, parent: Label)
    requires KeysSpan(kids, start + 1, n) && Linked(kids, start, roots)
    ensures KeysSpan(kids[start := Labelled(value, roots, parent)], start, n + 1)
    ensures Linked(kids[start := Labelled(value, roots, parent)], parent, [start])
  {
    var m := kids[start := Labelled(value, roots, parent)];
    forall l | l in m && l !in [start]
      ensures m[l].parent in m && m[l].parent < l && l in m[m[l].parent].children
    {
      assert l in kids && m[l] == kids[l];
      if l !in roots {
        assert m[l].parent in kids;
      }
    }
    forall l, i | l in m && 0 <= i < |m[l].children|
      ensures m[l].children[i] in m && l < m[l].children[i] && m[m[l].children[i]].parent == l
    {
      if l == start {
        assert m[l].children[i] == roots[i];
      } else {
        assert m[l] == kids[l];
      }
    }
  }

  lemma {:induction false} KidsSizeGrows<N>(t: Tree<N>, i: nat, k: nat)
    requires i < k <= |t.children|
    ensures KidsSize(t, i) + Size(t.children[i]) <= KidsSize(t, k)
    decreases k
  {
    if i < k - 1 {
      KidsSizeGrows(t, i, k - 1);
    }
  }

  lemma {:induction false} KidLabelsAt<N>(t: Tree<N>, k: nat, first: Label, i: nat)
    requires i < k <= |t.children|
    ensures |KidLabels(t, k, first)| == k
    ensures KidLabels(t, k, first)[i] == first + KidsSize(t, i)
    decreases k
  {
    KidLabelsLength(t, k - 1, first);
    if i < k - 1 {
      KidLabelsAt(t, k - 1, first, i);
    }
  }

  lemma {:induction false} KidLabelsLength<N>(t: Tree<N>, k: nat, first: Label)
    requires k <= |t.children|
    ensures |KidLabels(t, k, first)| == k
  {
    if k > 0 {
      KidLabelsLength(t, k - 1, first);
    }
  }

  /** The entries written for a subtree labelled from `start` form a forest rooted at `start`. */
  lemma {:induction false} AssignedShape<N>(t: Tree<N>, start: Label, parent: Label)
    ensures KeysSpan(Assigned(t, start, parent), start, Size(t))
    ensures Linked(Assigned(t, start, parent), parent, [start])
    decreases t, 1
  {
    var n := |t.children|;
    AssignedKidsShape(t, n, start + 1, start);
    LinkedAdopt(AssignedKids(t, n, start + 1, start), start, KidsSize(t, n), t.value,
      KidLabels(t, n, start + 1), parent);
  }

  /** The entries written for the first `k` children form a forest rooted at their labels. */
  lemma {:induction false} AssignedKidsShape<N>(t: Tree<N>, k: nat, first: Label, owner: Label)
    requires k <= |t.children|
    requires owner < first
    ensures KeysSpan(AssignedKids(t, k, first, owner), first, KidsSize(t, k))
    ensures Linked(AssignedKids(t, k, first, owner), owner, KidLabels(t, k, first))
    decreases t, 0, k
  {
    if k > 0 {
      AssignedKidsShape(t, k - 1, first, owner);
      AssignedShape(t.children[k - 1], first + KidsSize(t, k - 1), owner);
      KidsShapeStep(t, k, first, owner);
    }
  }

  /** One more child: its entries join the forest of the children before it. */
  lemma KidsShapeStep<N>(t: Tree<N>, k: nat, first: Label, owner: Label)
    requires 0 < k <= |t.children|
    requires KeysSpan(AssignedKids(t, k - 1, first, owner), first, KidsSize(t, k - 1))
    requires Linked(AssignedKids(t, k - 1, first, owner), owner, KidLabels(t, k - 1, first))
    requires KeysSpan(Assigned(t.children[k - 1], first + KidsSize(t, k - 1), owner),
                      first + KidsSize(t, k - 1), Size(t.children[k - 1]))
    requires Linked(Assigned(t.children[k - 1], first + KidsSize(t, k - 1), owner), owner, [first + KidsSize(t, k - 1)])
    ensures KeysSpan(AssignedKids(t, k, first, owner), first, KidsSize(t, k))
    ensures Linked(AssignedKids(t, k, first, owner), owner, KidLabels(t, k, first))
  {
    var a := first + KidsSize(t, k - 1);
    var before := AssignedKids(t, k - 1, first, owner);
    var kid := Assigned(t.children[k - 1], a, owner);
    var roots := KidLabels(t, k - 1, first);
    assert AssignedKids(t, k, first, owner) == before + kid;
    assert KidLabels(t, k, first) == roots + [a];
    LinkedUnion(before, kid, owner, roots, a, first, KidsSize(t, k - 1), Size(t.children[k - 1]));
  }

  /** The labeller's output for a whole tree: labels 1 .. Size(t), well formed. */
  lemma AssignedWellFormed<N>(t: Tree<N>)
    ensures KeysSpan(Assigned(t, 1, 0), 1, Size(t))
    ensures WellFormed(Assigned(t, 1, 0))
  {
    AssignedShape(t, 1, 0);
    var m := Assigned(t, 1, 0);
    assert forall l :: l in m && l != 1 ==> l !in [1];
  }

  /** The entries written for the `i`th child are among those written for its parent. */
  lemma {:induction false} KidSubmap<N>(t: Tree<N>, start: Label, parent: Label, i: nat)
    requires i < |t.children|
    ensures Submap(Assigned(t.children[i], start + 1 + KidsSize(t, i), start), Assigned(t, start, parent))
  {
    KidInKids(t, |t.children|, start + 1, start, i);
    AssignedKidsShape(t, |t.children|, start + 1, start);
  }

  lemma {:induction false} KidInKids<N>(t: Tree<N>, k: nat, first: Label, owner: Label, i: nat)
    requires i < k <= |t.children|
    requires owner < first
    ensures Submap(Assigned(t.children[i], first + KidsSize(t, i), owner), AssignedKids(t, k, first, owner))
    decreases k
  {
    if i < k - 1 {
      KidInKids(t, k - 1, first, owner, i);
      var a := first + KidsSize(t, k - 1);
      AssignedShape(t.children[i], first + KidsSize(t, i), owner);
      AssignedShape(t.children[k - 1], a, owner);
      KidsSizeGrows(t, i, k - 1);
    } else {
      AssignedKidsShape(t, k - 1, first, owner);
    }
  }
}
