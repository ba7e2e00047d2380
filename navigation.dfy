/**
 * `traverse_to_node`: the moves that take a zipper from the root to a
 * label (for each ancestor, `down` to its first child and `right` as many
 * times as the position among the siblings), and the walk that applies
 * them. The zipper is represented by the edge table the edge pass builds:
 * a location is a label, and a move reaches what the table says, or
 * nothing.
 */
module Navigation {
  import opened Wrappers
  import opened Ast
  import opened Edges

  /** `index * (right,)`. */
  function Rights(n: nat): (r: seq<Move>)
    ensures |r| == n && forall i :: 0 <= i < n ==> r[i] == Right
  {
    if n == 0 then [] else Rights(n - 1) + [Right]
  }

  /**
   * One zipper move from `location`: what the edge table of that label
   * gives; None when there is no such move or no location (calling a move
   * on None raises AttributeError).
   */
  function Step<N>(m: LabelMap<N>, location: Option<Label>, move: Move): Option<Label>
  {
    match location
    case None => None
    case Some(x) => if x in m && m[x].Annotated? then Target(m[x].edges, move) else None
  }

  /** `for move in moves: location = move(location)`. */
  function Walk<N>(m: LabelMap<N>, location: Option<Label>, moves: seq<Move>): Option<Label>
    decreases |moves|
  {
    if moves == [] then location else Step(m, Walk(m, location, moves[..|moves| - 1]), moves[|moves| - 1])
  }

  /** `moves` with `suffix` appended, when it exists. */
  function Append(moves: Option<seq<Move>>, suffix: seq<Move>): Option<seq<Move>>
  {
    match moves
    case None => None
    case Some(p) => Some(p + suffix)
  }

  /**
   * The moves `traverse_to_node` collects for `l`: none at the root; else
   * the moves to the parent, `down`, and one `right` per sibling to the
   * left. None where the loop raises: a missing entry (KeyError) or a
   * parent that does not list the label (ValueError).
   */
  function PathMoves<N>(m: LabelMap<N>, l: Label): Option<seq<Move>>
    requires ParentsBelow(m)
    decreases l
  {
    if l == 1 then Some([])
    else if l !in m || m[l].parent !in m then None
    else
      match IndexOf(m[m[l].parent].children, l)
      case None => None
      case Some(index) => Append(PathMoves(m, m[l].parent), [Down] + Rights(index))
  }

  /**
   * `traverse_to_node(label, ast, location)`: a loop that prepends the
   * moves for each ancestor, then a loop that applies them. None where the
   * first loop raises, or where the walk has no location.
   */
  method TraverseToNode<N>(l: Label, m: LabelMap<N>, location: Option<Label>) returns (r: Option<Label>)
    requires ParentsBelow(m)
    ensures PathMoves(m, l).None? ==> r.None?
    ensures PathMoves(m, l).Some? ==> r == Walk(m, location, PathMoves(m, l).value)
  {
    var moves: seq<Move> := [];
    var current := l;
    AppendNothing(PathMoves(m, l));
    while current != 1
      invariant PathMoves(m, l) == Append(PathMoves(m, current), moves)
      decreases current
    {
      if current !in m {
        // `ast[label]` raises KeyError
        return None;
      }
      var parent := m[current].parent;
      if parent !in m {
        // `ast[ast[label].parent]` raises KeyError
        return None;
      }
      var siblings := m[parent].children;
      var index := IndexOf(siblings, current);
      if index.None? {
        // `siblings.index(label)` raises ValueError
        return None;
      }
      AppendAssoc(PathMoves(m, parent), [Down] + Rights(index.value), moves);
      moves := [Down] + Rights(index.value) + moves;
      current := parent;
    }
    assert [] + moves == moves;
    r := location;
    for i := 0 to |moves|
      invariant r == Walk(m, location, moves[..i])
    {
      assert moves[..i + 1][..i] == moves[..i];
      r := Step(m, r, moves[i]);
    }
    assert moves[..|moves|] == moves;
  }

  lemma AppendNothing(p: Option<seq<Move>>)
    ensures Append(p, []) == p
  {
    if p.Some? {
      assert p.value + [] == p.value;
    }
  }

  lemma AppendAssoc(p: Option<seq<Move>>, a: seq<Move>, b: seq<Move>)
    ensures Append(Append(p, a), b) == Append(p, a + b)
  {
    if p.Some? {
      assert p.value + a + b == p.value + (a + b);
    }
  }

  lemma {:induction false} WalkConcat<N>(m: LabelMap<N>, location: Option<Label>, a: seq<Move>, b: seq<Move>)
    ensures Walk(m, location, a + b) == Walk(m, Walk(m, location, a), b)
    decreases |b|
  {
    if b == [] {
      assert a + b == a;
    } else {
      var b', x := b[..|b| - 1], b[|b| - 1];
      assert (a + b)[..|a + b| - 1] == a + b' && (a + b)[|a + b| - 1] == x;
      WalkConcat(m, location, a, b');
    }
  }

  /** From the first child, `k` moves right reach the `k`th child. */
  lemma {:induction false} RightsReachSibling<N>(m: LabelMap<N>, p: Label, k: nat)
    requires WellFormed(m) && EdgesFilled(m)
    requires p in m && k < |m[p].children|
    ensures Walk(m, Some(m[p].children[0]), Rights(k)) == Some(m[p].children[k])
  {
    if k > 0 {
      RightsReachSibling(m, p, k - 1);
      RightOfSibling(m, p, k - 1);
      assert Rights(k)[..k - 1] == Rights(k - 1);
    }
  }

  /** A `right` move from a child that is not the last reaches the next child. */
  lemma RightOfSibling<N>(m: LabelMap<N>, p: Label, j: nat)
    requires WellFormed(m) && EdgesFilled(m)
    requires p in m && j + 1 < |m[p].children|
    ensures Step(m, Some(m[p].children[j]), Right) == Some(m[p].children[j + 1])
  {
    ChildPosition(m, p, j);
    EdgeTableRules(m, m[p].children[j]);
  }

  /**
   * The moves `traverse_to_node` collects lead the zipper from the root to
   * the label: on a well-formed map whose entries carry their edges, every
   * label has a path, and walking it from 1 ends at that label.
   */
  lemma {:induction false} PathReachesLabel<N>(m: LabelMap<N>, l: Label)
    requires WellFormed(m) && EdgesFilled(m) && l in m
    ensures PathMoves(m, l).Some?
    ensures Walk(m, Some(1), PathMoves(m, l).value) == Some(l)
    decreases l
  {
    if l != 1 {
      var p := m[l].parent;
      var siblings := m[p].children;
      var i := SiblingIndex(m, l);
      EdgeTableRules(m, l);
      assert IndexOf(siblings, l) == Some(i);
      PathReachesLabel(m, p);
      var up := PathMoves(m, p).value;
      assert PathMoves(m, l).value == up + ([Down] + Rights(i));
      WalkConcat(m, Some(1), up, [Down] + Rights(i));
      WalkConcat(m, Some(p), [Down], Rights(i));
      EdgeTableRules(m, p);
      assert [Down][..0] == [];
      assert Walk(m, Some(p), [Down]) == Some(siblings[0]);
      RightsReachSibling(m, p, i);
    }
  }

  /** The number of `down` moves in a list of moves. */
  function Downs(moves: seq<Move>): nat
  {
    if moves == [] then 0 else (if moves[0] == Down then 1 else 0) + Downs(moves[1..])
  }

  lemma {:induction false} DownsConcat(a: seq<Move>, b: seq<Move>)
    ensures Downs(a + b) == Downs(a) + Downs(b)
  {
    if a == [] {
      assert a + b == b;
    } else {
      assert (a + b)[0] == a[0] && (a + b)[1..] == a[1..] + b;
      DownsConcat(a[1..], b);
    }
  }

  lemma {:induction false} RightsHaveNoDowns(n: nat)
    ensures Downs(Rights(n)) == 0
  {
    if n > 0 {
      RightsHaveNoDowns(n - 1);
      DownsConcat(Rights(n - 1), [Right]);
      assert [Right][1..] == [];
    }
  }

  /** The path to a label goes down once per ancestor: as many `down` moves as the depth. */
  lemma {:induction false} PathDepth<N>(m: LabelMap<N>, l: Label)
    requires WellFormed(m) && l in m
    ensures PathMoves(m, l).Some?
    ensures Downs(PathMoves(m, l).value) == |Chain(m, l)| - 1
    decreases l
  {
    if l != 1 {
      var p := m[l].parent;
      var i := IndexOf(m[p].children, l);
      assert i.Some?;
      PathDepth(m, p);
      DownsConcat(PathMoves(m, p).value, [Down] + Rights(i.value));
      DownsConcat([Down], Rights(i.value));
      RightsHaveNoDowns(i.value);
      assert [Down][1..] == [];
    }
  }
}
