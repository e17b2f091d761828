# general_tree in Dafny

This project models `general_tree<T>` from `general-tree.h`, a header-only
C++ n-ary tree, and proves its behaviour. Inside, the tree is a
left-child/right-sibling binary structure: every `private_node` holds a value
and three raw pointers (first child, next sibling, parent).

The model has four layers:

- **The node store** (`Links`). A node's address is a `NodeRef`; `Ptr` is a
  nullable `NodeRef`.
  - The fields of all nodes live in one map `nodes`.
  - A companion map `sub` gives, for each node, the set of nodes it reaches
    through first-child and next-sibling links.
  - `WellFormed(s, root)` says that the link graph is a single tree rooted at
    `root`: no cycles, no sharing, the root has no sibling, and parent links
    agree with child links.
  - `Abs(s, root)` is the ordered tree (`AbstractTree.Tree`) that the store
    encodes. It is the reference against which every operation is stated.
- **Link surgery** (`Edits`). These are pure functions on stores:
  - the splice of a node or of a whole tree as a first child or as a next
    sibling;
  - the detach-and-free of a subtree;
  - the image of a tree under a renaming of its nodes (for the deep copy).

  Lemmas state what each edit does to the abstract tree.
- **The cursor steps** (`Traversal`). These are the stack-free preorder and
  postorder steps of `general_tree_iterator`, as functions on the store. Two
  lemmas connect them to the abstract tree:
  - `Enumerates`: stepping from the first node visits a node sequence and
    then reaches null.
  - `VisitMatches`: that sequence lists every node exactly once, and its
    values are the preorder or postorder of the abstract tree.
- **The imperative code**:
  - `GeneralTrees.GeneralTree` is a class whose fields `root`, `nodes` and
    `sub` are updated in place by methods with loops, as in the header.
  - `Worklist` holds the invariants of the breadth-first loops (deep copy,
    equality, deletion, descendant count).
  - `Cursors.Cursor` is the iterator.

Exceptions of the header (`std::invalid_argument`, `std::runtime_error`) are
modelled as error results: `Err(NullHandle)` for a null node handle, and
`Err(InvalidOperation)` for the structurally refused requests.

`descendants_count` counts the nodes below the node, not the node itself, so
`DescendantsCount` yields `Size - 1` (5 for the six-node example tree).

## Model

| member | source | states |
|---|---|---|
| Links.Empty | general-tree.h:436 | The store of the empty tree is well formed. |
| Edits.Single | general-tree.h:20-32 | A freshly built `private_node` with null links is a well-formed one-node tree: a leaf holding its value. |
| GeneralTrees.GeneralTree.constructor | general-tree.h:436 | A new tree is valid, has no nodes, and its contents are empty. |
| GeneralTrees.GeneralTree.Moved | general-tree.h:438 | The move constructor takes over `rhs`'s root and nodes, with the same contents, and leaves `rhs` valid and empty. |
| GeneralTrees.GeneralTree.Copy | general-tree.h:440-443 | The copy constructor yields a valid tree with the same contents as `other` that shares no node with it. |
| GeneralTrees.GeneralTree.WithRoot | general-tree.h:445-449 | The value constructor yields a one-node tree holding the value. |
| GeneralTrees.GeneralTree.CopyAssign | general-tree.h:451-459 | Copy assignment: self-assignment changes nothing. Otherwise the old contents are replaced by a node-disjoint copy of `other`'s contents. |
| GeneralTrees.GeneralTree.MoveAssign | general-tree.h:461-470 | Move assignment: self-assignment changes nothing. Otherwise this tree takes over `other`'s root, nodes and contents, and `other` is left valid and empty. |
| GeneralTrees.Equal | general-tree.h:472-515 | `operator==` yields true exactly when the two abstract trees are equal. This holds both ways, whatever the node identities. |
| GeneralTrees.MatchChildren | general-tree.h:495-511 | The children loop of `operator==`: true exactly when the queued pairs and the two child chains can still make the trees equal. A value mismatch or one chain being longer gives false. |
| Worklist.MatchStart | general-tree.h:486-487 | The start of the comparison: the queue holding the two roots is consistent, and all its pairs match exactly when the trees are equal. |
| Worklist.RootsDiffer | general-tree.h:480-481 | Roots holding different values make the trees unequal. |
| GeneralTrees.GeneralTree.EmplaceRoot | general-tree.h:525-532 | `emplace_root` fails with InvalidOperation, changing nothing, when a root exists. Otherwise the tree becomes a fresh single leaf holding the value. |
| GeneralTrees.GeneralTree.EmplaceLeftChild | general-tree.h:554-566 | `emplace_left_child` fails on a null handle, changing nothing. Otherwise a fresh leaf becomes the first child of `d`, its parent is `d`, and the tree at `d` gains it in front of its old children. |
| GeneralTrees.GeneralTree.InsertLeftChildTree | general-tree.h:589-607 | Splices a whole tree in as the first child. It fails on a null handle, on `d` being the other tree's root, or on the tree itself (corrected, see Findings), changing nothing. An empty tree gives null. Otherwise the tree at `d` gains the other tree's contents as its first child, and the other tree is left empty. |
| GeneralTrees.GeneralTree.EmplaceRightSibling | general-tree.h:648-662 | `emplace_right_sibling` fails on a null handle or on the root, changing nothing. Otherwise a fresh leaf with `d`'s parent is placed right after `d` in the parent's children. |
| GeneralTrees.GeneralTree.InsertRightSiblingTree | general-tree.h:617-638 | Splices a whole tree in as the next sibling. It fails on a null handle, on the root, on the other tree's root, or on the tree itself (corrected, see Findings), changing nothing. Otherwise the other tree's contents are placed right after `d` among its parent's children, and the other tree is left empty. |
| GeneralTrees.GeneralTree.Root | general-tree.h:680-683 | The root is null exactly when the contents are empty. Otherwise it is the node whose subtree is the whole contents, with no parent and no sibling. |
| GeneralTrees.GeneralTree.IsEmpty | general-tree.h:688-691 | `empty()` holds exactly when the contents are empty, and exactly when there are no nodes. |
| GeneralTrees.GeneralTree.Clear | general-tree.h:696-700 | After `clear()`, the tree is valid and empty and holds no nodes. |
| GeneralTrees.GeneralTree.DeleteFromNode | general-tree.h:146-183 | `delete_from_node` does nothing on null. Otherwise the store becomes the detach of the node: the link that reached it is redirected to its next sibling, and its subtree's nodes are freed. |
| GeneralTrees.GeneralTree.DeleteNodes | general-tree.h:166-182 | The breadth-first freeing loop removes exactly the nodes of the subtree from the node map. |
| Edits.DetachEffect | general-tree.h:150-164 | Detaching a non-root node keeps the tree well formed and removes exactly its subtree's nodes. It also removes exactly that child from its parent's list of children and abstract children. |
| GeneralTrees.GeneralTree.DeleteLeftChild | general-tree.h:713-719 | `delete_left_child` fails on a null handle. Otherwise the node loses its first child's subtree and keeps its other children in order; nothing changes when it has none. |
| GeneralTrees.GeneralTree.DeleteRightSibling | general-tree.h:702-711 | `delete_right_sibling` fails on a null handle or on the root, changing nothing. Otherwise the child right after the node is removed from the parent's children, the others staying in order; nothing changes when the node is the last child. |
| GeneralTrees.GeneralTree.DeepCopy | general-tree.h:185-226 | `deep_copy` into an empty tree yields a tree whose contents equal the original's and which shares no node with it. |
| GeneralTrees.CopyChildren | general-tree.h:205-224 | The children loop of `deep_copy` copies each child, links the copy as the first child or the next sibling of the previous copy, and queues the pair. It keeps the partial-copy invariant and the frontier of pending originals. |
| Worklist.CopyStart | general-tree.h:192-197 | The copy starts with the root's copy queued: a consistent partial copy whose pending set is the whole tree. |
| Worklist.CopyComplete | general-tree.h:199-225 | When every original is copied, the copy is a well-formed tree whose abstract tree equals the original's. |
| GeneralTrees.GeneralTree.InitialNode | general-tree.h:34-51 | `get_initial_node_for_iteration` gives the first node of the order: the root for preorder, the leftmost leaf for postorder, and null for an empty tree (corrected, see Findings). |
| GeneralTrees.GeneralTree.Data | general-tree.h:281-296 | `data()` fails with NullHandle on a null handle. Otherwise it yields the value at the root of the node's subtree. |
| GeneralTrees.GeneralTree.LeftChild | general-tree.h:253-256 | Yields the node's first child, whose subtree is the first abstract child. It is null for a leaf, and null for a null handle (corrected, see Findings). |
| GeneralTrees.GeneralTree.Parent | general-tree.h:262-265 | Yields the node whose children include this node. It is null exactly for the root, and null for a null handle (corrected, see Findings). |
| GeneralTrees.GeneralTree.RightSibling | general-tree.h:271-274 | Yields the child of the parent right after the node. It is null for the last child, for the root and for a null handle (corrected, see Findings). |
| GeneralTrees.SiblingsOf | general-tree.h:262-274 | The parent link is null exactly at the root. A node's next-sibling link is the next entry of its parent's list of children, or null at its end. |
| GeneralTrees.GeneralTree.IsRoot | general-tree.h:302-305 | `is_root()` holds exactly at the root; false on a null handle (corrected, see Findings). |
| GeneralTrees.GeneralTree.IsLeaf | general-tree.h:311-314 | `is_leaf()` holds exactly when the node's abstract tree has no children; false on a null handle (corrected, see Findings). |
| GeneralTrees.GeneralTree.HasRightSibling | general-tree.h:320-323 | `has_right_sibling()` holds exactly when the node has a parent and is not its last child; false on a null handle (corrected, see Findings). |
| GeneralTrees.GeneralTree.HasLeftChild | general-tree.h:329-332 | `has_left_child()` holds exactly when the node has at least one child; false on a null handle (corrected, see Findings). |
| GeneralTrees.NullHandleQueries | general-tree.h:253-332 | The null handle answers every navigation, even chained, with null and every structural test with false. |
| GeneralTrees.GeneralTree.Child | general-tree.h:349-364 | `child(i)` fails on a null handle. It yields null exactly when the node has at most `i` children. Otherwise it yields the `i`-th child, whose subtree is the `i`-th abstract child. |
| GeneralTrees.GeneralTree.ChildrenCount | general-tree.h:371-381 | `children_count()` fails on a null handle. Otherwise it is the number of abstract children. |
| GeneralTrees.GeneralTree.Depth | general-tree.h:388-403 | `depth()` fails on a null handle. Otherwise it is the node's level: the number of parent hops to the root. |
| Links.LevelSteps | general-tree.h:388-403 | The level is 0 exactly at the root, and each child's level is its parent's plus one. |
| GeneralTrees.GeneralTree.DescendantsCount | general-tree.h:410-433 | `descendants_count()` fails on a null handle. Otherwise the count plus one is the number of nodes in the node's subtree, which is the size of its abstract tree. |
| Links.SizeIsNodeCount | general-tree.h:410-433 | A node's abstract tree has as many nodes as the store holds below it. |
| Edits.SpliceFirstChildEffect | general-tree.h:597-603 | Linking a separate tree's root in as `d`'s first child keeps the store well formed. The result is the union of both node sets, and `d`'s abstract children gain the inserted tree in front. |
| Edits.SpliceNextSiblingEffect | general-tree.h:628-634 | Linking a separate tree's root in after a non-root `d` keeps the store well formed. The parent's list of children gains the inserted root right after `d`. |
| Cursors.Cursor.constructor | general-tree.h:105-110 | A cursor holds its tree, node and order. |
| Cursors.Cursor.Advance | general-tree.h:68-102 | `operator++()` moves the cursor to the step function's successor of its node in its order. |
| Traversal.Enumerates | general-tree.h:68-102 | Stepping from the first node of the order visits the order's node sequence and then reaches null; the sequence is empty exactly for an empty tree. |
| Traversal.VisitMatches | general-tree.h:68-102 | The visited node sequence contains every node exactly once, and its values are the preorder or postorder of the abstract tree. |
| Traversal.PreorderWalk | general-tree.h:72-88 | On every node, the preorder step (first child, else next sibling, else the nearest ancestor's next sibling) yields the next node of the preorder sequence. |
| Traversal.PostorderWalk | general-tree.h:89-100 | On every node, the postorder step (the leftmost leaf below the next sibling, else the parent) yields the next node of the postorder sequence. |
| Links.PreorderDescendantsAfter | general-tree.h:72-88 | In the preorder node sequence, every node comes before all the nodes below it. |
| Links.PostorderDescendantsBefore | general-tree.h:89-100 | In the postorder node sequence, every node comes after all the nodes below it. |
| Traversal.DescendantsOrder | general-tree.h:68-102 | A preorder cursor reaches every node before all of its descendants, and a postorder cursor after all of them. |
| Traversal.PostorderStart | general-tree.h:40-45 | Postorder starts at the leftmost leaf, reached by following first children. |
| Cursors.Cursor.PostAdvance | general-tree.h:118-123 | `operator++(int)` yields a cursor at the old node and steps this one. |
| Cursors.Cursor.Current | general-tree.h:125-128 | `operator*()` yields the value at the root of the current node's subtree. |
| Cursors.Cursor.ToConst | general-tree.h:135-139 | The conversion to a constant cursor keeps the node and the order (corrected, see Findings). |
| Cursors.Cursor.ToConstAsWritten | general-tree.h:135-139 | As written, the conversion keeps the node but resets the order to preorder. |
| Cursors.Begin | general-tree.h:726-741 | `begin(order)` gives a cursor at the first node of the order; it is the end cursor exactly for an empty tree, also for postorder (corrected, see Findings). |
| Cursors.End | general-tree.h:732-746 | `end(order)` gives the cursor with a null node. |
| Cursors.CBegin | general-tree.h:748-751 | `cbegin(order)` gives a cursor at the first node of the requested order (corrected, see Findings). |
| Cursors.CBeginAsWritten | general-tree.h:748-751 | As written, `cbegin` gives a preorder cursor at the root whatever the order. |
| Cursors.CEnd | general-tree.h:753-756 | `cend()` gives the cursor with a null node. |
| AbstractTree.OrdersHaveSize | general-tree.h:68-102 | Both visiting orders of an abstract tree list as many values as the tree has nodes. |
| AbstractTree.BalancedExample | test/specs/iterators.test.cpp:6-33 | The example tree 1(2(4,5),3(6)) has preorder 1,2,4,5,3,6, postorder 4,5,2,6,3,1, and six nodes. |
| AsWritten.SelfInsertLeftChildMakesCycle | general-tree.h:589-607 | Inserting a tree into itself as a first child empties it while both nodes stay allocated, and creates a first-child cycle. |
| AsWritten.SelfInsertRightSiblingMakesCycle | general-tree.h:617-638 | Inserting a tree into itself as a next sibling empties it, and the old root becomes its own parent. |
| AsWritten.InitialNode | general-tree.h:34-51 | As written, the postorder start faults exactly on an empty tree; otherwise it is the first node of the order. |
| AsWritten.EmptyPostorderBegin | general-tree.h:40-45 | On an empty tree the postorder start faults, where the end cursor (null) was intended. |
| AsWritten.HandleReadsAgree | general-tree.h:253-332 | As written, the handle queries read the fields of the node behind the handle, which faults exactly on a null handle. On every non-null handle the corrected queries answer what those fields say. |
| AsWritten.CBeginIgnoresOrder | general-tree.h:748-751 | On a two-node tree, the preorder and postorder first nodes differ, so a preorder `cbegin` is not `begin(postorder)`. |
| AsWritten.ConvertedCursorSkipsRoot | general-tree.h:135-139 | On a two-node tree, a postorder cursor at the child steps to the root, while the converted (preorder) cursor steps past the end. |

## Left out

- Memory management: the destructor (721-724) and `delete` are not modelled. Freeing is the removal of nodes from the node map, that is, from the tree's footprint.
- Exceptions are error results instead of control transfer. `std::invalid_argument` is `NullHandle` or `InvalidOperation`; the `runtime_error` of `emplace_root` is `InvalidOperation`. The `Not implemented` default case of `get_initial_node_for_iteration` cannot be reached with the two-valued order type.
- `node::operator==`, the cursor's `operator==` and `node::is_null` are pointer comparisons. They are Dafny's `==` on `Ptr`, with no member of their own.
- `create_root`, `insert_left_child(node, value)` and `insert_right_sibling(node, value)` forward to the `emplace_*` operations. They are modelled by those members.
- The non-const `data()` and the const `begin`/`end` overloads are the same members as their counterparts.
- The const/non-const iterator distinction (`is_const`) is not modelled. There is one `Cursor` class.
- `std::size_t` results are unbounded `nat`; wrap-around cannot occur for trees that fit in memory.
- Forwarded constructor arguments (`Args&&...`) are a single value of type `T`.
- Node handles passed to a tree operation are assumed to be null or nodes of that tree. The header does not check this, and a foreign handle would edit another tree.
- GeneralTrees.Equal: requires the two trees to be the same object or to share no node. Distinct `general_tree` objects always own disjoint nodes.
- GeneralTrees.GeneralTree.InsertLeftChildTree: requires the other tree to be this tree or node-disjoint from it, for the same reason. The same holds for InsertRightSiblingTree.
- GeneralTrees.GeneralTree.DeepCopy: requires an empty target, which is how both callers (the copy constructor and copy assignment after `clear()`) use it.
- Cursors.Cursor.Advance: requires a non-null cursor. Stepping the end cursor dereferences null in the header and is a caller error.
- Cursors.Cursor.Current: requires a non-null cursor, for the same reason.
- Validity of handles and cursors after structural edits is not modelled. Cursors read the tree's current state.

## Findings

| source | as written | input that shows it | evidently intended | confidence | as-written member | corrected member |
|---|---|---|---|---|---|---|
| general-tree.h:589-607 | `insert_left_child(d, tree)` only refuses `d == tree.m_root`, so a tree can be inserted into itself under one of its own non-root nodes | `t.insert_left_child(c, t)` with `c` the only child of `t`'s root | refuse inserting a tree into itself (cycle prevention) | not executed | AsWritten.SelfInsertLeftChild, AsWritten.SelfInsertLeftChildMakesCycle | GeneralTrees.GeneralTree.InsertLeftChildTree |
| general-tree.h:617-638 | `insert_right_sibling(d, tree)` has the same gap | `t.insert_right_sibling(c, t)` with `c` the only child of `t`'s root | refuse inserting a tree into itself | not executed | AsWritten.SelfInsertRightSibling, AsWritten.SelfInsertRightSiblingMakesCycle | GeneralTrees.GeneralTree.InsertRightSiblingTree |
| general-tree.h:40-45 | the postorder start reads `current->m_left_child` with `current == m_root` unchecked | `begin(postorder)` on an empty tree | the end cursor, as for preorder | not executed | AsWritten.InitialNode, AsWritten.EmptyPostorderBegin | GeneralTrees.GeneralTree.InitialNode |
| general-tree.h:253-332 | the `noexcept` handle queries dereference `m_node` without a null test | `root().is_root()` on an empty tree, as in the null-safety test | null for navigation and false for the tests | not executed | AsWritten.HandleFields, AsWritten.HandleReadsAgree | GeneralTrees.NullHandleQueries |
| general-tree.h:748-751 | `cbegin(it_type)` calls `begin()` and ignores `it_type` | `cbegin(postorder)` on a root with one child | `begin(it_type)` | not executed | Cursors.CBeginAsWritten, AsWritten.CBeginIgnoresOrder | Cursors.CBegin |
| general-tree.h:135-139 | the conversion to a constant cursor builds it from `m_ptr` alone, so the order resets to preorder | a postorder cursor at the child of a two-node tree, converted and then stepped | keep `m_iteration_type` | not executed | Cursors.Cursor.ToConstAsWritten, AsWritten.ConvertedCursorSkipsRoot | Cursors.Cursor.ToConst |
