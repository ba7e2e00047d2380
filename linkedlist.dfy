/**
 * `check_linked_list`: the zipper keeps its paths (the siblings to the left
 * and right, the parent nodes) as linked lists of pairs `(head, rest)`
 * ending in an empty value; the checker walks the `rest` fields while the
 * value is truthy.
 */
module LinkedList {
  import opened Wrappers

  /**
   * The Python values the checker can meet: tuples, and every other value
   * by its truthiness and its `len` (None where `len` raises TypeError).
   */
  datatype Value =
    | Tuple(items: seq<Value>)
    | Other(truthy: bool, length: Option<nat>)

  /** Python truthiness: a tuple is true when it is not empty. */
  predicate Truthy(v: Value)
  {
    match v
    case Tuple(items) => items != []
    case Other(truthy, _) => truthy
  }

  /** `len(v)`, None where it raises. */
  function Len(v: Value): Option<nat>
  {
    match v
    case Tuple(items) => Some(|items|)
    case Other(_, length) => length
  }

  /**
   * What the checker accepts: while truthy, a pair whose second part is
   * again a linked list; at the end, something of length 0.
   */
  predicate IsLinkedList(v: Value)
    decreases v
  {
    if Truthy(v) then v.Tuple? && |v.items| == 2 && IsLinkedList(v.items[1])
    else Len(v) == Some(0)
  }

  /**
   * `check_linked_list(linked_list)`: true where it returns, false where one
   * of its assertions fails or `len` raises.
   */
  method CheckLinkedList(linkedList: Value) returns (ok: bool)
    ensures ok == IsLinkedList(linkedList)
  {
    var v := linkedList;
    while Truthy(v)
      invariant IsLinkedList(v) == IsLinkedList(linkedList)
      decreases v
    {
      if !v.Tuple? || |v.items| != 2 {
        return false;
      }
      v := v.items[1];
    }
    ok := Len(v) == Some(0);
  }

  /** The linked list of `xs`, ending in `end`: `(xs[0], (xs[1], (... end)))`. */
  function Cons(xs: seq<Value>, end: Value): Value
    decreases |xs|
  {
    if xs == [] then end else Tuple([xs[0], Cons(xs[1..], end)])
  }

  /** The heads of an accepted linked list, in order. */
  function Spine(v: Value): seq<Value>
    requires IsLinkedList(v)
    decreases v
  {
    if Truthy(v) then [v.items[0]] + Spine(v.items[1]) else []
  }

  /** The empty value an accepted linked list ends in. */
  function Terminal(v: Value): Value
    requires IsLinkedList(v)
    decreases v
  {
    if Truthy(v) then Terminal(v.items[1]) else v
  }

  /** Putting heads in front of a value neither makes nor breaks a linked list. */
  lemma {:induction false} ConsAccepted(xs: seq<Value>, end: Value)
    ensures IsLinkedList(Cons(xs, end)) <==> IsLinkedList(end)
    decreases |xs|
  {
    if xs != [] {
      ConsAccepted(xs[1..], end);
    }
  }

  /** Reading back the heads of a built list gives the elements it was built from. */
  lemma {:induction false} SpineOfCons(xs: seq<Value>, end: Value)
    requires !Truthy(end) && Len(end) == Some(0)
    ensures IsLinkedList(Cons(xs, end))
    ensures Spine(Cons(xs, end)) == xs && Terminal(Cons(xs, end)) == end
    decreases |xs|
  {
    ConsAccepted(xs, end);
    if xs != [] {
      SpineOfCons(xs[1..], end);
      ConsAccepted(xs[1..], end);
      assert [xs[0]] + xs[1..] == xs;
    }
  }

  /**
   * Every accepted value is a built list: its heads and its terminal
   * rebuild it, and the terminal is false with length 0.
   */
  lemma {:induction false} ConsOfSpine(v: Value)
    requires IsLinkedList(v)
    ensures Cons(Spine(v), Terminal(v)) == v
    ensures !Truthy(Terminal(v)) && Len(Terminal(v)) == Some(0)
    decreases v
  {
    if Truthy(v) {
      ConsOfSpine(v.items[1]);
      var xs := Spine(v);
      assert xs[0] == v.items[0] && xs[1..] == Spine(v.items[1]);
      assert v.items == [v.items[0], v.items[1]];
    }
  }
}
