# Zipper test oracle of astroid

astroid's zipper tests check the zipper against an independent picture of
the same syntax tree. That picture is a dictionary from labels to entries. The
labeller (`AssignLabels`) numbers the nodes in preorder from 1, and each entry
holds the node, its children's labels and its parent's label (0 for the root).
A second pass over the dictionary adds an edge table to every entry: which
zipper moves (`down`, `up`, `root`, `left`, `leftmost`, `right`, `rightmost`)
are legal there, and which label each one reaches.

The same file defines the oracle's traversals:

- preorder and postorder descendants, optionally pruned by a node test;
- the common ancestor of two labels;
- the moves that lead a zipper from the root to a label;
- a checker for the linked lists of pairs the zipper keeps its paths in.

This project models all of these in Dafny and proves what the tests rely on.

Modules:

- `Ast` (ast.dfy): labels, moves, edges, entries, and the dictionary `AstMap`, a class both passes update in place. It also holds the well-formedness conditions.
- `Labels` (labels.dfy): the labeller as a class with a counter. Its recursive method `Call` is proved against the function `Assigned`, the entries it writes. It also proves that those entries form a well-formed tree numbered 1 .. size.
- `Traversal` (traversal.dfy): the preorder and postorder descendants, as the recursive functions of the source. It proves:
  - unpruned preorder is the labeller's numbering;
  - postorder is a permutation of preorder;
  - a pruned traversal is the unpruned one filtered by a reference predicate.
- `Edges` (edges.dfy): the edge table of one label. It holds the edge pass as a method over the `to_visit` stack, proved to visit exactly the preorder from 1, and `AstFromTree`, which labels the tree then builds the edges. It also proves the zipper round trips the table promises.
- `BuiltMap` (built_map.dfy): the traversal theorems carried over to the dictionary the oracle returns, whose entries carry edges. The traversals read only the shape of the dictionary.
- `Navigation` (navigation.dfy): `traverse_to_node`. Walking its moves from the root reaches the label.
- `Ancestor` (ancestor.dfy): `common_ancestor`. Its answer is the deepest non-empty common ancestor, which is the lowest common ancestor under the literal reading of its test.
- `LinkedList` (linkedlist.dfy): `check_linked_list`. It accepts exactly the values built from pairs.

The node payload is a type parameter `N`.

- A node-type test (`isinstance(node, dont_recurse_on)`) is a predicate `N -> bool`.
- `dont_recurse_on=None` is `Option<N -> bool>`.
- The zipper is represented by the edge table: a location is a label, and a move reaches what the table says.
- In `IndexOf`, `AnnotateLabel`, `BuildEdges`, `TraverseToNode`, `CommonAncestor` and `CheckLinkedList`, Python exceptions (KeyError, ValueError, a failed assertion) are results `None` or `false`. For `TraverseToNode` and `CommonAncestor` this covers a missing start label, a walk that reaches label 0, and (in `TraverseToNode`) a parent that does not list the label; a dictionary with a dangling parent label is excluded by their requires instead. The traversals require a dictionary on which the source terminates without raising. "## Left out" gives the details.

## Model

| member | source | states |
|---|---|---|
| Ast.AstMap.constructor | astroid/tests/unittest_zipper.py:50 | `ASTMap()`: a new dictionary has no entries |
| Ast.IndexOf | astroid/tests/unittest_zipper.py:65 | `siblings.index(label)`: the first position holding the label, or None exactly when the label is absent (ValueError) |
| Labels.AssignLabels.constructor | astroid/tests/unittest_zipper.py:30-31 | a new labeller hands out 1 first |
| Labels.AssignLabels.Call | astroid/tests/unittest_zipper.py:32-37 | returns the counter's old value; advances the counter by the size of the subtree; adds exactly the entries `Assigned` describes to the dictionary |
| Labels.Assigned | astroid/tests/unittest_zipper.py:32-37 | the entries one call writes for a subtree given label `start` under `parent`: the children's entries, labelled from start+1 in turn, then the node's own entry with its children's labels and the parent label; pinned down by `Labels.AssignedShape` and `Traversal.LabelsArePreorder` |
| Labels.AssignedKids | astroid/tests/unittest_zipper.py:35 | the entries written for the first k children, each labelled right after the subtrees before it; pinned down by `Labels.AssignedKidsShape` |
| Labels.LabelTree | astroid/tests/unittest_zipper.py:51 | labelling a tree into an empty dictionary gives the root label 1 and the entries `Assigned(root, 1, 0)` |
| Labels.AssignedShape | astroid/tests/unittest_zipper.py:32-37 | the entries written for a subtree labelled from `start` hold exactly the labels start .. start+size-1 and form a forest rooted at `start`: parents smaller and listing their children, children larger, increasing and naming their parent |
| Labels.AssignedKidsShape | astroid/tests/unittest_zipper.py:35 | the same for the entries written for the first k children, rooted at the children's labels |
| Labels.KidsShapeStep | astroid/tests/unittest_zipper.py:35 | one more child's entries join the forest of the children labelled before it |
| Labels.LinkedUnion | astroid/tests/unittest_zipper.py:35 | the entries of two consecutive label ranges, each a forest under the same owner, join into one forest over the combined range |
| Labels.LinkedAdopt | astroid/tests/unittest_zipper.py:36 | writing the node's own entry over its children's forest gives a tree rooted at the node, holding one more label |
| Labels.AssignedWellFormed | astroid/tests/unittest_zipper.py:28-37 | the labeller's output for a whole tree holds labels 1 .. size and is well formed: 1 is the only root, parent and children agree, labels grow downwards, siblings increase |
| Labels.KidLabelsAt | astroid/tests/unittest_zipper.py:33-35 | the i-th child gets the label after its parent plus the sizes of the subtrees before it |
| Labels.KidSubmap | astroid/tests/unittest_zipper.py:35-36 | the entries written for a child are among those written for its parent |
| Traversal.AboveShrinks | astroid/tests/unittest_zipper.py:99-103 | moving to a child with a larger label shrinks the set of labels above, which bounds the recursion |
| Traversal.Prunes | astroid/tests/unittest_zipper.py:100 | the pruning test `dont_recurse_on is not None and isinstance(node, dont_recurse_on)`: false when no test is given, else the test applied to the node; used by `Traversal.PreorderInner` and `Traversal.PostorderInner` and referred to by `Traversal.Unpruned` |
| Traversal.Preorder | astroid/tests/unittest_zipper.py:98-104 | the outer call always lists its label first |
| Traversal.Postorder | astroid/tests/unittest_zipper.py:106-112 | the outer call always lists its label last |
| Traversal.PreorderInner | astroid/tests/unittest_zipper.py:99-103 | `_preorder_descendants`: nothing for a node that prunes, else the label followed by its children's parts; characterised by `Traversal.PrunedChildPortion` |
| Traversal.PreorderKids | astroid/tests/unittest_zipper.py:103-104 | the `sum(..., ())` of the inner preorders of the first k children, in order; characterised by `Traversal.PreorderKidsOfSubtree` and `Traversal.PrunedPreorderKids` |
| Traversal.PostorderInner | astroid/tests/unittest_zipper.py:107-111 | `_postorder_descendants`: nothing for a node that prunes, else the children's parts followed by the label; characterised by `Traversal.PostorderChildPortion` |
| Traversal.PostorderKids | astroid/tests/unittest_zipper.py:111-112 | the `sum(..., ())` of the inner postorders of the first k children, in order; characterised by `Traversal.PrunedPostorderKids` |
| Traversal.PreorderOfSubtree | astroid/tests/unittest_zipper.py:98-104 | from a label the labeller gave a subtree, the unpruned preorder is exactly that subtree's consecutive labels |
| Traversal.PreorderKidsOfSubtree | astroid/tests/unittest_zipper.py:103-104 | the preorders of the first k children are the consecutive labels after the parent's |
| Traversal.PreorderChildAt | astroid/tests/unittest_zipper.py:103 | the i-th child's label and its unpruned preorder, a range of consecutive labels |
| Traversal.PreorderKidsStep | astroid/tests/unittest_zipper.py:103 | appending one more child's preorder extends the range of labels |
| Traversal.LabelsArePreorder | astroid/tests/unittest_zipper.py:32-37 | the labeller numbers the whole tree 1, 2, ..., size in preorder |
| Traversal.PreorderDistinct | astroid/tests/unittest_zipper.py:98-104 | from any label of a labelled tree, the unpruned preorder lists no label twice |
| Traversal.PreorderPostorderSameLabels | astroid/tests/unittest_zipper.py:98-112 | preorder and postorder from the same label, pruned by the same test, hold the same labels the same number of times |
| Traversal.KidsSameLabels | astroid/tests/unittest_zipper.py:103-111 | the same for the children's parts of both traversals |
| Traversal.PostorderOfSubtree | astroid/tests/unittest_zipper.py:106-112 | from a label the labeller gave a subtree, the unpruned postorder ends with it and is a permutation of the preorder |
| Traversal.PostorderPermutesPreorder | astroid/tests/unittest_zipper.py:98-112 | from any label of a labelled tree, postorder is a permutation of preorder, pruned or not |
| Traversal.KeptConcat | astroid/tests/unittest_zipper.py:103 | filtering by `Unpruned` distributes over concatenation |
| Traversal.KeptAgree | astroid/tests/unittest_zipper.py:100-103 | filtering below two labels that agree on every element gives the same result |
| Traversal.KeptNone | astroid/tests/unittest_zipper.py:100-101 | filtering labels that are all pruned gives nothing |
| Traversal.UnprunedThroughChild | astroid/tests/unittest_zipper.py:100-103 | inside a child's subtree, a label is unpruned below the parent exactly when the child does not prune and the label is unpruned below the child |
| Traversal.ChildFilter | astroid/tests/unittest_zipper.py:100-103 | a pruning child hides its whole subtree; otherwise filtering below the parent and below the child agree on it |
| Traversal.PrunedPreorderOfSubtree | astroid/tests/unittest_zipper.py:98-104 | the pruned preorder is the unpruned one filtered by `Unpruned`: the start is always listed, a descendant is dropped exactly when it or a label between it and the start prunes, order is kept |
| Traversal.PrunedPreorderKids | astroid/tests/unittest_zipper.py:103-104 | the same for the children's part of the pruned preorder |
| Traversal.PrunedChildAt | astroid/tests/unittest_zipper.py:103 | the i-th child's part of the pruned preorder is the filtered range of its subtree's labels |
| Traversal.PrunedKidsStep | astroid/tests/unittest_zipper.py:103 | appending one more child's part extends the filtered range |
| Traversal.PrunedChildPortion | astroid/tests/unittest_zipper.py:99-103 | the inner preorder of a child is its subtree's labels filtered below the parent: empty when the child prunes |
| Traversal.PrunedPostorderOfSubtree | astroid/tests/unittest_zipper.py:106-112 | the pruned postorder is the unpruned one filtered by `Unpruned` |
| Traversal.PrunedPostorderKids | astroid/tests/unittest_zipper.py:111-112 | the same for the children's part of the pruned postorder |
| Traversal.PostorderChildPortion | astroid/tests/unittest_zipper.py:107-111 | the inner postorder of a child is its unpruned postorder filtered below the parent |
| Traversal.PrunedPreorderFromAnyLabel | astroid/tests/unittest_zipper.py:98-104 | from any label of a labelled tree, the pruned preorder is the unpruned one filtered by `Unpruned` |
| Traversal.PrunedPostorderFromAnyLabel | astroid/tests/unittest_zipper.py:106-112 | from any label of a labelled tree, the pruned postorder is the unpruned one filtered by `Unpruned` |
| BuiltMap.ChildrenAboveSameShape | astroid/tests/unittest_zipper.py:72 | rewriting entries with edges keeps every child label a larger key |
| BuiltMap.PreorderSameShape | astroid/tests/unittest_zipper.py:98-104 | the preorder, pruned or not, is the same on two maps with the same labels, nodes, children and parents |
| BuiltMap.PreorderKidsSameShape | astroid/tests/unittest_zipper.py:103-104 | the same for the children's part of the preorder |
| BuiltMap.PostorderSameShape | astroid/tests/unittest_zipper.py:106-112 | the postorder, pruned or not, is the same on two maps of the same shape |
| BuiltMap.PostorderKidsSameShape | astroid/tests/unittest_zipper.py:111-112 | the same for the children's part of the postorder |
| BuiltMap.UnprunedSameShape | astroid/tests/unittest_zipper.py:100-103 | the pruning reference reads only parents and nodes, so it agrees on maps of the same shape |
| BuiltMap.KeptSameShape | astroid/tests/unittest_zipper.py:100-103 | filtering by the pruning reference agrees on maps of the same shape |
| BuiltMap.BuiltLabelsArePreorder | astroid/tests/unittest_zipper.py:164 | on the dictionary the oracle returns (the labeller's shape, edges added), the unpruned preorder from 1 is 1, 2, ..., size |
| BuiltMap.BuiltPreorderDistinct | astroid/tests/unittest_zipper.py:164-165 | on that dictionary, the unpruned preorder from any label lists no label twice |
| BuiltMap.BuiltPrunedPreorder | astroid/tests/unittest_zipper.py:166-167 | on that dictionary, the pruned preorder from any label is the unpruned one filtered by `Unpruned` |
| BuiltMap.BuiltPrunedPostorder | astroid/tests/unittest_zipper.py:170-171 | on that dictionary, the pruned postorder from any label is the unpruned one filtered by `Unpruned` |
| Traversal.EveryLabelStartsSubtree | astroid/tests/unittest_zipper.py:32-37 | every label of the labeller's output is where the entries of some subtree start |
| Traversal.SubtreeAt | astroid/tests/unittest_zipper.py:32-37 | returns the subtree whose entries start at a given label |
| Edges.EdgesOf | astroid/tests/unittest_zipper.py:55-71 | the edge table of a label exists exactly when the pass does not raise there: the label is the root, or its parent has an entry listing it |
| Edges.DownEdges | astroid/tests/unittest_zipper.py:59-60 | the `down` edge to the first child, present only when there are children; stated by `Edges.DownTargets` |
| Edges.SideEdges | astroid/tests/unittest_zipper.py:61-71 | `up`, `root`, then `leftmost` and `left` when the index is above 0, then `right` and `rightmost` when it is below the last; stated by `Edges.SideTargets` |
| Edges.Annotate | astroid/tests/unittest_zipper.py:72 | the dictionary after the visited labels' entries are rewritten with their edges, the others untouched; `Edges.AnnotateSameShape` and `Edges.AnnotateEverything` state its shape |
| Edges.DownTargets | astroid/tests/unittest_zipper.py:59-60 | the down edges give `down` to the first child when there are children, and no other move |
| Edges.SideTargets | astroid/tests/unittest_zipper.py:61-71 | what each move reaches through the side edges: `up` the parent, `root` 1, `left`/`leftmost` only with a left sibling, `right`/`rightmost` only with a right sibling |
| Edges.TargetConcat | astroid/tests/unittest_zipper.py:58-71 | a move looked up in appended edge lists is found in the first list if it is there, else in the second |
| Edges.EdgeTableRules | astroid/tests/unittest_zipper.py:58-71 | each move exists exactly when its condition holds and reaches the right label: `down` the first child; `up` the parent; `root` 1; `left` and `leftmost` the previous and first sibling; `right` and `rightmost` the next and last sibling |
| Edges.EdgesDefined | astroid/tests/unittest_zipper.py:61-65 | on a well-formed map the pass never raises |
| Edges.IndexOfIncreasing | astroid/tests/unittest_zipper.py:65 | in increasing siblings, `index` finds a sibling at its own position |
| Edges.ChildPosition | astroid/tests/unittest_zipper.py:64-65 | the j-th child of a label has it as parent and sits at position j among its siblings |
| Edges.DownThenUp | astroid/tests/unittest_zipper.py:59-62 | `up` after `down` comes back |
| Edges.RightThenLeft | astroid/tests/unittest_zipper.py:66-70 | `left` after `right` comes back |
| Edges.LeftThenRight | astroid/tests/unittest_zipper.py:66-70 | `right` after `left` comes back |
| Edges.Reverse | astroid/tests/unittest_zipper.py:57 | `reversed(children)`: same length, element i is element n-1-i |
| Edges.ReverseReverse | astroid/tests/unittest_zipper.py:57 | reversing twice gives the list back |
| Edges.ReverseConcat | astroid/tests/unittest_zipper.py:57 | reversing a concatenation reverses and swaps the parts |
| Edges.PreorderForestConcat | astroid/tests/unittest_zipper.py:53-57 | the preorders of two lists of labels concatenate |
| Edges.PreorderUnfolds | astroid/tests/unittest_zipper.py:103-104 | a label's children part of the preorder is the preorders of its children one after another |
| Edges.ForestStep | astroid/tests/unittest_zipper.py:54-57 | the preorders of a label and then a list are the label, then the preorders of its children and then the list |
| Edges.StackStep | astroid/tests/unittest_zipper.py:54-57 | popping a label and pushing its children reversed moves exactly that label from the pending walk to the visited part |
| Edges.AnnotateStep | astroid/tests/unittest_zipper.py:72 | rewriting one more entry with its edges annotates one more label |
| Edges.AnnotateSameShape | astroid/tests/unittest_zipper.py:72 | rewriting entries with their edges keeps labels, nodes, children and parents |
| Edges.EdgesOfSameShape | astroid/tests/unittest_zipper.py:55-71 | the edges computed from a label depend only on the shape of the dictionary, so rewritten entries do not change later edges |
| Edges.WellFormedSameShape | astroid/tests/unittest_zipper.py:72 | well-formedness depends only on the shape |
| Edges.AnnotateLabel | astroid/tests/unittest_zipper.py:55-72 | the loop body succeeds exactly when the label is attached to its parent, and then annotates it |
| Edges.BuildEdges | astroid/tests/unittest_zipper.py:52-72 | the `to_visit` loop succeeds exactly when every label of the preorder from 1 is attached; then it visits exactly the preorder from 1, in that order, and rewrites each visited entry with its edges and nothing else |
| Edges.AstFromTree | astroid/tests/unittest_zipper.py:49-72 | the edge pass visits labels 1, 2, ..., size in that order; labelling a tree then building edges gives a well-formed dictionary over labels 1 .. size, with the labeller's shape, in which every entry carries its edges |
| Edges.LabelledTreeAttached | astroid/tests/unittest_zipper.py:51-65 | in the labeller's output the preorder from 1 holds every label and only labels that are keys and attached, so the edge pass does not raise |
| Edges.AnnotateEverything | astroid/tests/unittest_zipper.py:52-72 | annotating every label of a well-formed map keeps it well formed, with all edges filled in |
| Edges.LabelledTreeAnnotated | astroid/tests/unittest_zipper.py:49-72 | annotating the preorder of the labeller's output gives a well-formed map with all edges filled in |
| Navigation.Rights | astroid/tests/unittest_zipper.py:131 | `index * (right,)`: `index` moves, all `right` |
| Navigation.Step | astroid/tests/unittest_zipper.py:135 | `move(location)`: the label the location's edge table gives for the move, or None when there is none or no location; used by `Navigation.RightOfSibling` and `Navigation.PathReachesLabel` |
| Navigation.Walk | astroid/tests/unittest_zipper.py:134-135 | applying the moves in order from a location; compositional by `Navigation.WalkConcat` |
| Navigation.PathMoves | astroid/tests/unittest_zipper.py:127-133 | the moves the first loop collects: none at 1, else the parent's moves, `down`, and one `right` per earlier sibling; None where a lookup raises; `Navigation.PathReachesLabel` and `Navigation.PathDepth` state what it means |
| Navigation.TraverseToNode | astroid/tests/unittest_zipper.py:126-136 | fails exactly where collecting the moves raises; otherwise ends where walking the collected moves from the given location ends |
| Navigation.WalkConcat | astroid/tests/unittest_zipper.py:134-135 | walking two lists of moves one after the other is walking their concatenation |
| Navigation.RightOfSibling | astroid/tests/unittest_zipper.py:131 | `right` from a child that is not the last reaches the next child |
| Navigation.RightsReachSibling | astroid/tests/unittest_zipper.py:131-132 | from the first child, k moves `right` reach the k-th child |
| Navigation.PathReachesLabel | astroid/tests/unittest_zipper.py:126-136 | on a well-formed map whose entries carry their edges, every label has a path of moves, and walking it from the root ends at that label |
| Navigation.PathDepth | astroid/tests/unittest_zipper.py:128-133 | the path holds one `down` per ancestor: as many as the label's depth |
| Navigation.DownsConcat | astroid/tests/unittest_zipper.py:131-132 | counting `down` moves distributes over concatenation |
| Navigation.RightsHaveNoDowns | astroid/tests/unittest_zipper.py:131 | the `right` moves hold no `down` |
| Ancestor.CommonAncestor | astroid/tests/unittest_zipper.py:114-124 | the two loops return what `Common` describes: None where a lookup raises, else the first label of the second chain among the collected ones |
| Ancestor.Collected | astroid/tests/unittest_zipper.py:115-119 | the labels the first loop collects: those on the first label's chain whose node is not empty; characterised by `Ancestor.CollectedIsChain` |
| Ancestor.FirstIn | astroid/tests/unittest_zipper.py:121-123 | where the second loop stops: the first label of the set on the walk up, None where a lookup raises; characterised by `Ancestor.FirstInIsFirst` and `Ancestor.FirstInFinds` |
| Ancestor.Common | astroid/tests/unittest_zipper.py:114-124 | what `common_ancestor` returns, None where it raises; characterised by `Ancestor.CommonIsDeepest` and `Ancestor.CommonExists` |
| Ancestor.ChainBelow | astroid/tests/unittest_zipper.py:116-123 | the parent chain from a label starts with it and holds keys no larger |
| Ancestor.CollectedIsChain | astroid/tests/unittest_zipper.py:115-119 | the first loop collects exactly the non-empty labels on the first label's chain |
| Ancestor.FirstInIsFirst | astroid/tests/unittest_zipper.py:121-123 | the second loop stops at a collected label on the second chain, and every collected label on that chain lies above it |
| Ancestor.FirstInFinds | astroid/tests/unittest_zipper.py:121-123 | the second loop stops whenever a collected label lies on the chain |
| Ancestor.CommonIsDeepest | astroid/tests/unittest_zipper.py:114-124 | the answer is a non-empty ancestor (or self) of both labels, and every other such label is its ancestor |
| Ancestor.ChainReachesRoot | astroid/tests/unittest_zipper.py:116-119 | in a well-formed map every chain reaches the root |
| Ancestor.CommonExists | astroid/tests/unittest_zipper.py:114-124 | on a well-formed map it never raises for two of its labels when the root is not the empty node |
| Ancestor.LowestCommonAncestor | astroid/tests/unittest_zipper.py:114-124 | under the literal test, which never holds, the answer is the lowest common ancestor of the two labels |
| Ancestor.NeverEmpty | astroid/tests/unittest_zipper.py:117 | the literal reading of `ast[label1].node is not nodes.Empty`: a node instance is never the class itself, so the test never holds; `Ancestor.LowestCommonAncestor` takes it as the emptiness test |
| Ancestor.AncestorIsCommon | astroid/tests/unittest_zipper.py:114-124 | when the first label is a non-empty ancestor (or self) of the second, it is the answer |
| LinkedList.CheckLinkedList | astroid/tests/unittest_zipper.py:80-86 | succeeds exactly on the values `IsLinkedList` accepts: pairs all the way down while truthy, ending in a value of length 0 |
| LinkedList.Truthy | astroid/tests/unittest_zipper.py:82 | Python truthiness: a tuple is true when non-empty, another value as given |
| LinkedList.Len | astroid/tests/unittest_zipper.py:84-86 | `len(v)`: a tuple's length, or the given length, None where `len` raises |
| LinkedList.IsLinkedList | astroid/tests/unittest_zipper.py:82-86 | what the checker accepts: while truthy, a 2-tuple whose second part is accepted; at the end, length 0; characterised by `LinkedList.ConsAccepted`, `LinkedList.SpineOfCons` and `LinkedList.ConsOfSpine` |
| LinkedList.ConsAccepted | astroid/tests/unittest_zipper.py:82-85 | putting pairs in front of a value neither makes nor breaks a linked list |
| LinkedList.SpineOfCons | astroid/tests/unittest_zipper.py:80-86 | a list built from elements and an empty end is accepted, and reading back its heads and end gives them back |
| LinkedList.ConsOfSpine | astroid/tests/unittest_zipper.py:80-86 | every accepted value is rebuilt from its heads and end, and that end is false with length 0 |

## Left out

- Reading and parsing the source file (`astroid.parse`), the `AST_CACHE` memo, and the hypothesis strategies (file choice, `_all_subclasses`). `AstFromTree` starts from an already parsed tree.
- `ASTMap.__repr__`: printing only.
- `check_zipper` and the `TestZipper` test methods: they drive the real zipper. `zipper.py` is not part of this model. The zipper's moves are represented by the edge table the oracle builds.
- Node identity (`is`) and `isinstance`: node tests are predicates on the payload.
- Edges.EdgeTableRules: proves what each move reaches, not that no move appears twice in a table. The first edge with a move decides.
- Traversal.Preorder, Traversal.Postorder and Edges.BuildEdges: require `ChildrenAbove` (every child label is a key of the dictionary and larger than its parent's), and the traversals a start label that is a key. `ChildrenAbove` is a sufficient condition for the source to terminate, not a necessary one. On a dictionary with a missing child key the source raises KeyError (astroid/tests/unittest_zipper.py:55, 100, 103-104, 108, 111-112), and on one whose children form a cycle it recurses or loops without end. On an acyclic dictionary whose labels do not grow downwards (say 1 with child 3, and 3 with child 2) the source ends normally; the model does not cover such dictionaries. Every dictionary the oracle passes them is built by `ast_from_file_name`, and `Edges.AstFromTree` and `BuiltMap.BuiltLabelsArePreorder` prove that such a dictionary meets the requirement.
- Navigation.TraverseToNode and Ancestor.CommonAncestor: require `ParentsBelow`: every parent label is smaller than its child's label and is either 0 or a key. Every labelled dictionary satisfies this. On a dictionary with a parent cycle the Python loops do not terminate. A dictionary with a dangling parent label is excluded rather than answered None, although the source raises KeyError on it (astroid/tests/unittest_zipper.py:117, 119, 123 and 129).
- Navigation.TraverseToNode: an exception while collecting moves and a move that finds no location both give None.
- Ancestor.CommonAncestor: `n is nodes.Empty` compares a node with a class. The model takes the comparison as a predicate `isEmpty`. `Ancestor.LowestCommonAncestor` covers the literal reading, under which the test never holds.
- LinkedList.CheckLinkedList: a value other than a tuple is described only by its truthiness and its `len`.
- Traversal.Preorder and Traversal.Postorder: the oracle's code (astroid/tests/unittest_zipper.py:100-101 and 108-109) returns nothing at all for a pruned node below the start, so a pruning node is left out together with its subtree. The model follows the code. The zipper's own pruned traversals are not modelled.
- Ancestor.CommonAncestor: the emptiness test filters only the first label's chain, as the code does. The second walk stops at the first collected label, so an empty node is never the answer (`Ancestor.CommonIsDeepest`).
