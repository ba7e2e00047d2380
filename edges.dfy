/**
 * The edge pass of `ast_from_file_name`: a stack walk over the labelled tree
 * that rewrites every entry with the zipper moves legal at that label and the
 * label each move reaches. This table is what zipper navigation is checked
 * against.
 */
module Edges {
  import opened Wrappers
  import opened Ast
  import opened Labels
  import opened Traversal

  /**
   * The pass can read the edges of `l`: `l` is the root, or its parent has an
   * entry that lists `l` among its children.
   */
  ghost predicate Attached<N>(m: LabelMap<N>, l: Label)
    requires l in m
  {
    m[l].parent == 0 || (m[l].parent in m && l in m[m[l].parent].children)
  }

  /** The `down` edge, to the first child, if there are children. */
  function DownEdges(children: seq<Label>): seq<Edge>
  {
    if children != [] then [Edge(children[0], Down)] else []
  }

  /**
   * The edges of a label below the root at position `index` among
   * `siblings`: `up`, `root`, then `leftmost` and `left` if it has a left
   * sibling, then `right` and `rightmost` if it has a right sibling.
   */
  function SideEdges(parent: Label, siblings: seq<Label>, index: nat): seq<Edge>
    requires index < |siblings|
  {
    var toLeft := if index > 0 then [Edge(siblings[0], Leftmost), Edge(siblings[index - 1], Left)] else [];
    var toRight :=
      if index < |siblings| - 1
      then [Edge(siblings[index + 1], Right), Edge(siblings[|siblings| - 1], Rightmost)]
      else [];
    [Edge(parent, Up), Edge(1, Root)] + toLeft + toRight
  }

  /**
   * The edges of `l`, in the order the pass appends them: the down edge,
   * then, below the root, the side edges. None where the pass raises: the
   * parent has no entry (KeyError) or does not list `l` among its children
   * (ValueError).
   */
  function EdgesOf<N>(m: LabelMap<N>, l: Label): (r: Option<seq<Edge>>)
    requires l in m
    ensures r.Some? <==> Attached(m, l)
  {
    var parent := m[l].parent;
    if parent == 0 then Some(DownEdges(m[l].children))
    else if parent !in m then None
    else
      match IndexOf(m[parent].children, l)
      case None => None
      case Some(index) => Some(DownEdges(m[l].children) + SideEdges(parent, m[parent].children, index))
  }

  /** The label `move` reaches according to an edge list (its first edge with that move). */
  function Target(edges: seq<Edge>, move: Move): Option<Label>
  {
    if edges == [] then None
    else if edges[0].move == move then Some(edges[0].target)
    else Target(edges[1..], move)
  }

  lemma {:induction false} TargetConcat(a: seq<Edge>, b: seq<Edge>, move: Move)
    ensures Target(a + b, move) == if Target(a, move).Some? then Target(a, move) else Target(b, move)
  {
    if a == [] {
      assert a + b == b;
    } else {
      assert (a + b)[0] == a[0] && (a + b)[1..] == a[1..] + b;
      TargetConcat(a[1..], b, move);
    }
  }

  /** The position of `l` among its siblings (0 at the root, which has none). */
  function SiblingIndex<N>(m: LabelMap<N>, l: Label): nat
    requires l in m && EdgesOf(m, l).Some?
  {
    if m[l].parent == 0 then 0 else IndexOf(m[m[l].parent].children, l).value
  }

  lemma TargetOfSingle(a: Edge, move: Move)
    ensures Target([a], move) == if a.move == move then Some(a.target) else None
  {
    assert [a][1..] == [];
  }

  lemma TargetOfPair(a: Edge, b: Edge, move: Move)
    ensures Target([a, b], move)
         == if a.move == move then Some(a.target) else if b.move == move then Some(b.target) else None
  {
    assert [a, b][1..] == [b];
    TargetOfSingle(b, move);
  }

  /** `down` reaches the first child, if any; no other move is a down edge. */
  lemma DownTargets(children: seq<Label>, move: Move)
    ensures Target(DownEdges(children), move) == if children != [] && move == Down then Some(children[0]) else None
  {
    if children != [] {
      TargetOfSingle(Edge(children[0], Down), move);
    }
  }

  /** What each move reaches through the side edges. */
  lemma SideTargets(parent: Label, siblings: seq<Label>, i: nat, move: Move)
    requires i < |siblings|
    ensures Target(SideEdges(parent, siblings, i), move)
         == match move
            case Down => None
            case Up => Some(parent)
            case Root => Some(1)
            case Leftmost => if i > 0 then Some(siblings[0]) else None
            case Left => if i > 0 then Some(siblings[i - 1]) else None
            case Right => if i < |siblings| - 1 then Some(siblings[i + 1]) else None
            case Rightmost => if i < |siblings| - 1 then Some(siblings[|siblings| - 1]) else None
  {
    var middle := [Edge(parent, Up), Edge(1, Root)];
    var toLeft := if i > 0 then [Edge(siblings[0], Leftmost), Edge(siblings[i - 1], Left)] else [];
    var toRight :=
      if i < |siblings| - 1
      then [Edge(siblings[i + 1], Right), Edge(siblings[|siblings| - 1], Rightmost)]
      else [];
    TargetConcat(middle + toLeft, toRight, move);
    TargetConcat(middle, toLeft, move);
    TargetOfPair(Edge(parent, Up), Edge(1, Root), move);
    if i > 0 {
      TargetOfPair(Edge(siblings[0], Leftmost), Edge(siblings[i - 1], Left), move);
    }
    if i < |siblings| - 1 {
      TargetOfPair(Edge(siblings[i + 1], Right), Edge(siblings[|siblings| - 1], Rightmost), move);
    }
  }

  /**
   * The rules of the edge table: `down` exists iff there are children and
   * reaches the first; `up` and `root` exist iff `l` is not the root and reach
   * the parent and 1; `left`/`leftmost` exist iff `l` has a left sibling and
   * reach it and the first sibling; `right`/`rightmost` exist iff `l` has a
   * right sibling and reach it and the last sibling.
   */
  lemma EdgeTableRules<N>(m: LabelMap<N>, l: Label)
    requires l in m && EdgesOf(m, l).Some?
    ensures var es := EdgesOf(m, l).value;
      var children := m[l].children;
      var parent := m[l].parent;
      var i := SiblingIndex(m, l);
      var siblings := if parent == 0 then [l] else m[parent].children;
      && i < |siblings| && siblings[i] == l
      && Target(es, Down) == (if children != [] then Some(children[0]) else None)
      && Target(es, Up) == (if parent != 0 then Some(parent) else None)
      && Target(es, Root) == (if parent != 0 then Some(1) else None)
      && Target(es, Leftmost) == (if i > 0 then Some(siblings[0]) else None)
      && Target(es, Left) == (if i > 0 then Some(siblings[i - 1]) else None)
      && Target(es, Right) == (if i < |siblings| - 1 then Some(siblings[i + 1]) else None)
      && Target(es, Rightmost) == (if i < |siblings| - 1 then Some(siblings[|siblings| - 1]) else None)
  {
    var children := m[l].children;
    var parent := m[l].parent;
    forall move: Move
      ensures Target(DownEdges(children), move) == if children != [] && move == Down then Some(children[0]) else None
    {
      DownTargets(children, move);
    }
    if parent != 0 {
      var siblings := m[parent].children;
      var i := IndexOf(siblings, l).value;
      var down, side := DownEdges(children), SideEdges(parent, siblings, i);
      assert SiblingIndex(m, l) == i;
      assert EdgesOf(m, l).value == down + side;
      forall move: Move
        ensures Target(down + side, move) == if Target(down, move).Some? then Target(down, move) else Target(side, move)
      {
        TargetConcat(down, side, move);
      }
      SideTargets(parent, siblings, i, Down);
      SideTargets(parent, siblings, i, Up);
      SideTargets(parent, siblings, i, Root);
      SideTargets(parent, siblings, i, Leftmost);
      SideTargets(parent, siblings, i, Left);
      SideTargets(parent, siblings, i, Right);
      SideTargets(parent, siblings, i, Rightmost);
    }
  }

  /** `s.index(s[i])` is `i` when `s` increases. */
  lemma IndexOfIncreasing(s: seq<Label>, i: nat)
    requires Increasing(s) && i < |s|
    ensures IndexOf(s, s[i]) == Some(i)
  {
    assert s[i] in s;
  }

  /** In a well-formed map every label has an edge table (the pass never raises). */
  lemma EdgesDefined<N>(m: LabelMap<N>, l: Label)
    requires WellFormed(m) && l in m
    ensures EdgesOf(m, l).Some?
  {
  }

  /** Zipper round trip: `up` after `down` comes back. */
  lemma DownThenUp<N>(m: LabelMap<N>, l: Label)
    requires WellFormed(m) && l in m && m[l].children != []
    ensures var c := m[l].children[0];
      && c in m
      && Target(EdgesOf(m, l).value, Down) == Some(c)
      && Target(EdgesOf(m, c).value, Up) == Some(l)
  {
    var c := m[l].children[0];
    EdgeTableRules(m, l);
    EdgeTableRules(m, c);
  }

  /** The `j`-th child of `p` has `p` as its parent and sits at position `j` among its siblings. */
  lemma ChildPosition<N>(m: LabelMap<N>, p: Label, j: nat)
    requires WellFormed(m) && p in m && j < |m[p].children|
    ensures var c := m[p].children[j];
      && c in m && m[c].parent == p && p != 0
      && EdgesOf(m, c).Some? && SiblingIndex(m, c) == j
  {
    var siblings := m[p].children;
    assert Increasing(siblings);
    IndexOfIncreasing(siblings, j);
  }

  /** Zipper round trip: `left` after `right` comes back. */
  lemma RightThenLeft<N>(m: LabelMap<N>, l: Label, r: Label)
    requires WellFormed(m) && l in m
    requires Target(EdgesOf(m, l).value, Right) == Some(r)
    ensures r in m && Target(EdgesOf(m, r).value, Left) == Some(l)
  {
    EdgeTableRules(m, l);
    var parent := m[l].parent;
    var i := SiblingIndex(m, l);
    assert parent != 0 && i + 1 < |m[parent].children|;
    ChildPosition(m, parent, i);
    ChildPosition(m, parent, i + 1);
    EdgeTableRules(m, r);
  }

  /** Zipper round trip: `right` after `left` comes back. */
  lemma LeftThenRight<N>(m: LabelMap<N>, l: Label, r: Label)
    requires WellFormed(m) && l in m
    requires Target(EdgesOf(m, l).value, Left) == Some(r)
    ensures r in m && Target(EdgesOf(m, r).value, Right) == Some(l)
  {
    EdgeTableRules(m, l);
    var parent := m[l].parent;
    var i := SiblingIndex(m, l);
    assert parent != 0 && 0 < i < |m[parent].children|;
    ChildPosition(m, parent, i);
    ChildPosition(m, parent, i - 1);
    EdgeTableRules(m, r);
  }

  // ---------------------------------------------------------------------
  // The stack walk.
  // ---------------------------------------------------------------------

  /** `reversed(s)`. */
  function Reverse(s: seq<Label>): (r: seq<Label>)
    ensures |r| == |s|
    ensures forall i :: 0 <= i < |s| ==> r[i] == s[|s| - 1 - i]
  {
    if s == [] then [] else Reverse(s[1..]) + [s[0]]
  }

  lemma ReverseConcat(a: seq<Label>, b: seq<Label>)
    ensures Reverse(a + b) == Reverse(b) + Reverse(a)
  {
  }

  lemma ReverseReverse(s: seq<Label>)
    ensures Reverse(Reverse(s)) == s
  {
  }

  /** The preorders of `ls`, one after another. */
  function PreorderForest<N>(m: LabelMap<N>, ls: seq<Label>): seq<Label>
    requires ChildrenAbove(m) && forall x :: x in ls ==> x in m
  {
    if ls == [] then [] else PreorderForest(m, ls[..|ls| - 1]) + Preorder(m, ls[|ls| - 1], None)
  }

  lemma {:induction false} PreorderForestConcat<N>(m: LabelMap<N>, a: seq<Label>, b: seq<Label>)
    requires ChildrenAbove(m) && (forall x :: x in a ==> x in m) && (forall x :: x in b ==> x in m)
    ensures PreorderForest(m, a + b) == PreorderForest(m, a) + PreorderForest(m, b)
    decreases |b|
  {
    if b == [] {
      assert a + b == a;
    } else {
      var b', x := b[..|b| - 1], b[|b| - 1];
      assert forall y :: y in b' ==> y in b;
      assert (a + b)[..|a + b| - 1] == a + b' && (a + b)[|a + b| - 1] == x;
      assert PreorderForest(m, a + b) == PreorderForest(m, a + b') + Preorder(m, x, None);
      PreorderForestConcat(m, a, b');
      var fa, fb, px := PreorderForest(m, a), PreorderForest(m, b'), Preorder(m, x, None);
      assert (fa + fb) + px == fa + (fb + px);
    }
  }

  /** The unpruned preorder of `l`: `l`, then the preorders of its children. */
  lemma {:induction false} PreorderUnfolds<N>(m: LabelMap<N>, l: Label, k: nat)
    requires ChildrenAbove(m) && l in m && k <= |m[l].children|
    ensures forall x :: x in m[l].children[..k] ==> x in m
    ensures PreorderKids(m, l, k, None) == PreorderForest(m, m[l].children[..k])
  {
    if k > 0 {
      PreorderUnfolds(m, l, k - 1);
      assert m[l].children[..k][..k - 1] == m[l].children[..k - 1];
    }
  }

  /** Every label in `visited` carries its edge table; the other entries are untouched. */
  function Annotate<N>(m: LabelMap<N>, visited: seq<Label>): LabelMap<N>
    requires forall l :: l in visited && l in m ==> Attached(m, l)
  {
    map l | l in m :: if l in visited then Annotated(m[l].node, m[l].children, m[l].parent, EdgesOf(m, l).value) else m[l]
  }

  /** Two maps with the same labels, nodes, children and parents. */
  ghost predicate SameShape<N>(a: LabelMap<N>, b: LabelMap<N>)
  {
    && a.Keys == b.Keys
    && forall l :: l in a ==> a[l].node == b[l].node && a[l].children == b[l].children && a[l].parent == b[l].parent
  }

  lemma AnnotateSameShape<N>(m: LabelMap<N>, visited: seq<Label>)
    requires forall l :: l in visited && l in m ==> Attached(m, l)
    ensures SameShape(Annotate(m, visited), m)
  {
  }

  lemma EdgesOfSameShape<N>(a: LabelMap<N>, b: LabelMap<N>, l: Label)
    requires SameShape(a, b) && l in a
    ensures EdgesOf(a, l) == EdgesOf(b, l)
  {
  }

  lemma WellFormedSameShape<N>(a: LabelMap<N>, b: LabelMap<N>)
    requires SameShape(a, b) && WellFormed(b)
    ensures WellFormed(a)
  {
    assert forall l :: l in a ==> a[l].children == b[l].children && a[l].parent == b[l].parent;
  }

  lemma {:induction false} ReverseMembers(s: seq<Label>)
    ensures forall x :: x in Reverse(s) <==> x in s
  {
    if s != [] {
      ReverseMembers(s[1..]);
      assert s == [s[0]] + s[1..];
    }
  }

  /** The children of a key are keys. */
  lemma ChildrenAreKeys<N>(m: LabelMap<N>, l: Label)
    requires ChildrenAbove(m) && l in m
    ensures forall x :: x in m[l].children ==> x in m
  {
    forall x | x in m[l].children ensures x in m {
      var i :| 0 <= i < |m[l].children| && m[l].children[i] == x;
    }
  }

  lemma ReverseStep(rest: seq<Label>, current: Label, children: seq<Label>)
    ensures Reverse(rest + [current]) == [current] + Reverse(rest)
    ensures Reverse(rest + Reverse(children)) == children + Reverse(rest)
  {
    ReverseConcat(rest, [current]);
    ReverseConcat(rest, Reverse(children));
    ReverseReverse(children);
    assert Reverse([current]) == [current];
  }

  /** The walk from `current` then `r` is `current`, then the walk from its children then `r`. */
  lemma ForestStep<N>(m: LabelMap<N>, current: Label, r: seq<Label>)
    requires ChildrenAbove(m) && current in m && forall x :: x in r ==> x in m
    requires forall x :: x in m[current].children ==> x in m
    ensures PreorderForest(m, [current] + r) == [current] + PreorderForest(m, m[current].children + r)
  {
    var children := m[current].children;
    PreorderForestConcat(m, [current], r);
    PreorderForestConcat(m, children, r);
    assert PreorderForest(m, [current]) == Preorder(m, current, None) by {
      assert [current][..0] == [];
    }
    PreorderUnfolds(m, current, |children|);
    assert children[..|children|] == children;
    var kids := PreorderForest(m, children);
    var tail := PreorderForest(m, r);
    assert Preorder(m, current, None) == [current] + kids;
    assert [current] + kids + tail == [current] + (kids + tail);
  }

  /** The walk still owed for a stack: the preorders of its labels, top of the stack first. */
  ghost function Pending<N>(m: LabelMap<N>, stack: seq<Label>): seq<Label>
    requires ChildrenAbove(m) && forall x :: x in stack ==> x in m
  {
    ReverseMembers(stack);
    PreorderForest(m, Reverse(stack))
  }

  /** Popping `current` and pushing its children reversed moves `current` from the pending walk to the done part. */
  lemma StackStep<N>(m: LabelMap<N>, rest: seq<Label>, current: Label)
    requires ChildrenAbove(m) && current in m && forall x :: x in rest ==> x in m
    ensures forall x :: x in rest + [current] ==> x in m
    ensures forall x :: x in rest + Reverse(m[current].children) ==> x in m
    ensures Pending(m, rest + [current]) == [current] + Pending(m, rest + Reverse(m[current].children))
  {
    var children := m[current].children;
    ChildrenAreKeys(m, current);
    ReverseMembers(children);
    ReverseMembers(rest);
    ReverseStep(rest, current, children);
    ForestStep(m, current, Reverse(rest));
  }

  /** Moving the head of the pending walk to the visited part keeps the whole walk. */
  lemma VisitStep(visited: seq<Label>, current: Label, pending: seq<Label>, walk: seq<Label>)
    requires visited + ([current] + pending) == walk
    ensures (visited + [current]) + pending == walk && current in walk
  {
    assert walk[|visited|] == current;
  }

  /** Rewriting one more entry with its edges extends the annotated set by that label. */
  lemma AnnotateStep<N>(m: LabelMap<N>, done: seq<Label>, current: Label)
    requires forall l :: l in done && l in m ==> Attached(m, l)
    requires current in m && Attached(m, current)
    ensures Annotate(m, done)[current := Annotated(m[current].node, m[current].children, m[current].parent, EdgesOf(m, current).value)]
         == Annotate(m, done + [current])
  {
  }

  /**
   * The body of the `to_visit` loop after the push: compute the edges of
   * `current` from the dictionary as it stands and rewrite its entry with
   * them. `ok` is false where `ast[parent]` raises KeyError or
   * `siblings.index(label)` raises ValueError.
   */
  method AnnotateLabel<N>(ast: AstMap<N>, current: Label, children: seq<Label>, ghost m: LabelMap<N>, ghost done: seq<Label>)
    returns (ok: bool)
    requires current in m && children == m[current].children
    requires forall l :: l in done && l in m ==> Attached(m, l)
    requires ast.entries == Annotate(m, done)
    modifies ast
    ensures ok <==> Attached(m, current)
    ensures ok ==> ast.entries == Annotate(m, done + [current])
  {
    AnnotateSameShape(m, done);
    var parent := ast.entries[current].parent;
    EdgesOfSameShape(ast.entries, m, current);
    var edges := EdgesOf(ast.entries, current);
    if edges.None? {
      return false;
    }
    AnnotateStep(m, done, current);
    ast.entries := ast.entries[current := Annotated(ast.entries[current].node, children, parent, edges.value)];
    return true;
  }

  /**
   * The `to_visit` loop: pops labels, pushes the children reversed, and
   * rewrites each popped entry with its edges. It visits exactly the
   * preorder from 1, in that order, and changes nothing but the edges.
   * `ok` is false where the pass raises.
   */
  method BuildEdges<N>(ast: AstMap<N>) returns (ok: bool, ghost visited: seq<Label>)
    requires ChildrenAbove(ast.entries)
    modifies ast
    ensures ok <==> (1 in old(ast.entries) && forall x :: x in Preorder(old(ast.entries), 1, None) ==>
      x in old(ast.entries) && Attached(old(ast.entries), x))
    ensures ok ==> visited == Preorder(old(ast.entries), 1, None)
    ensures ok ==> ast.entries == Annotate(old(ast.entries), visited)
  {
    ghost var m := ast.entries;
    visited := [];
    if 1 !in ast.entries {
      // the first `ast[label]` raises KeyError
      return false, visited;
    }
    var toVisit: seq<Label> := [1];
    assert Pending(m, [1]) == Preorder(m, 1, None) by {
      assert Reverse([1]) == [1] && [1][..0] == [];
      assert PreorderForest(m, [1]) == Preorder(m, 1, None);
    }
    while toVisit != []
      invariant forall x :: x in toVisit ==> x in m
      invariant visited + Pending(m, toVisit) == Preorder(m, 1, None)
      invariant forall x :: x in visited ==> x in m && Attached(m, x)
      invariant ast.entries == Annotate(m, visited)
      decreases |Preorder(m, 1, None)| - |visited|
    {
      var current := toVisit[|toVisit| - 1];
      ghost var rest := toVisit[..|toVisit| - 1];
      assert toVisit == rest + [current];
      StackStep(m, rest, current);
      AnnotateSameShape(m, visited);
      var children := ast.entries[current].children;
      toVisit := toVisit[..|toVisit| - 1] + Reverse(children);
      VisitStep(visited, current, Pending(m, toVisit), Preorder(m, 1, None));
      ok := AnnotateLabel(ast, current, children, m, visited);
      if !ok {
        return false, visited;
      }
      visited := visited + [current];
    }
    assert Pending(m, []) == [] by {
      assert Reverse([]) == [];
    }
    return true, visited;
  }

  /** Every entry carries the edge table the pass computes for it. */
  ghost predicate EdgesFilled<N>(m: LabelMap<N>)
  {
    forall l :: l in m ==> m[l].Annotated? && EdgesOf(m, l) == Some(m[l].edges)
  }

  /**
   * `ast_from_file_name` after parsing: label the tree, then build the edge
   * table. The edge pass visits the labels 1, 2, ..., Size(root) in that
   * order. The result is well formed, holds those labels, and every entry
   * carries its edges.
   */
  method AstFromTree<N>(root: Tree<N>) returns (ast: AstMap<N>, ghost visited: seq<Label>)
    ensures fresh(ast)
    ensures visited == Range(1, Size(root) + 1)
    ensures KeysSpan(ast.entries, 1, Size(root))
    ensures SameShape(ast.entries, Assigned(root, 1, 0))
    ensures WellFormed(ast.entries) && EdgesFilled(ast.entries)
  {
    ast := new AstMap<N>();
    var _ := LabelTree(ast, root);
    LabelledTreeAttached(root);
    LabelsArePreorder(root);
    var ok;
    ok, visited := BuildEdges(ast);
    LabelledTreeAnnotated(root);
  }

  /**
   * In the labeller's output the preorder from 1 holds every label, and
   * only labels the pass can annotate.
   */
  lemma LabelledTreeAttached<N>(root: Tree<N>)
    ensures var m := Assigned(root, 1, 0);
      && 1 in m && ChildrenAbove(m)
      && (forall x :: x in Preorder(m, 1, None) ==> x in m && Attached(m, x))
      && (forall x :: x in m ==> x in Preorder(m, 1, None))
  {
    var m := Assigned(root, 1, 0);
    AssignedWellFormed(root);
    LabelsArePreorder(root);
    var visited := Preorder(m, 1, None);
    forall x | x in visited ensures x in m && Attached(m, x) {
      EdgesDefined(m, x);
    }
    forall x | x in m ensures x in visited {
      assert visited[x - 1] == x;
    }
  }

  /** Annotating every label of a well-formed map leaves it well formed, with every entry carrying its edges. */
  lemma AnnotateEverything<N>(m: LabelMap<N>, visited: seq<Label>)
    requires WellFormed(m)
    requires forall l :: l in visited && l in m ==> Attached(m, l)
    requires forall l :: l in m ==> l in visited
    ensures SameShape(Annotate(m, visited), m)
    ensures WellFormed(Annotate(m, visited)) && EdgesFilled(Annotate(m, visited))
  {
    var a := Annotate(m, visited);
    AnnotateSameShape(m, visited);
    WellFormedSameShape(a, m);
    forall l | l in a
      ensures a[l].Annotated? && EdgesOf(a, l) == Some(a[l].edges)
    {
      EdgesOfSameShape(a, m, l);
    }
  }

  /** Annotating every label of the labeller's output gives a well-formed map whose entries all carry their edges. */
  lemma LabelledTreeAnnotated<N>(root: Tree<N>)
    ensures var m := Assigned(root, 1, 0);
      && 1 in m && ChildrenAbove(m)
      && (forall x :: x in Preorder(m, 1, None) ==> x in m && Attached(m, x))
      && var a := Annotate(m, Preorder(m, 1, None));
      && KeysSpan(a, 1, Size(root)) && SameShape(a, m) && WellFormed(a) && EdgesFilled(a)
  {
    var m := Assigned(root, 1, 0);
    LabelledTreeAttached(root);
    AssignedWellFormed(root);
    LabelsArePreorder(root);
    AnnotateEverything(m, Preorder(m, 1, None));
  }
}
