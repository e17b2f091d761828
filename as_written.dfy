/**
 * Behaviour of `general-tree.h` as written where it departs from what its
 * documentation evidently intends, each with a small tree that shows it.
 * The corrected behaviour is the one modelled in `GeneralTrees` and
 * `Cursors`.
 */
module AsWritten {
  import opened AbstractTree
  import opened Links
  import opened Traversal
  import opened GeneralTrees

  /** The store of a tree whose root `r` holds `v` and has one child `d` holding `w`. */
  ghost function TwoNodes<T>(r: NodeRef, d: NodeRef, v: T, w: T): (s: Store<T>)
    requires r != d
    ensures WellFormed(s, r) && s.sub.Keys == {r, d} && Abs(s, r) == Some(Tree(v, [Tree(w, [])]))
  {
    var s := Store(map[r := Node(v, d, null, null), d := Node(w, null, null, r)], map[r := {r, d}, d := {d}]);
    assert RankedAt(s, r) && RankedAt(s, d);
    assert ParentAt(s, r, r) && ParentAt(s, r, d);
    assert Forest(s, null) == [];
    assert Subtree(s, d) == Tree(w, []);
    assert Forest(s, d) == [Subtree(s, d)] + Forest(s, null) == [Tree(w, [])];
    assert Subtree(s, r) == Tree(v, Forest(s, d));
    s
  }

  // ---------------------------------------------------------------------
  // Inserting a tree into itself
  // ---------------------------------------------------------------------

  /**
   * `insert_left_child(d, tree)` with `tree` being the very tree that holds
   * `d`, as the header writes it: `d` passes both checks when it is not the
   * root; the root is linked in as the first child of `d`, and the root
   * pointer is reset.  The result is the node map and the new root pointer.
   */
  ghost function SelfInsertLeftChild<T>(s: Store<T>, root: NodeRef, d: NodeRef): (map<NodeRef, Node<T>>, Ptr)
    requires root in s.nodes && d in s.nodes && d != root
  {
    var n1 := s.nodes[root := s.nodes[root].(parent := d, right := s.nodes[d].left)];
    (n1[d := n1[d].(left := root)], null)
  }

  /**
   * `insert_right_sibling(d, tree)` with `tree` being the very tree that
   * holds `d`, as the header writes it: the root is linked in right after
   * `d`, and the root pointer is reset.
   */
  ghost function SelfInsertRightSibling<T>(s: Store<T>, root: NodeRef, d: NodeRef): (map<NodeRef, Node<T>>, Ptr)
    requires root in s.nodes && d in s.nodes && d != root
  {
    var n1 := s.nodes[root := s.nodes[root].(parent := s.nodes[d].parent, right := s.nodes[d].right)];
    (n1[d := n1[d].(right := root)], null)
  }

  /**
   * Inserting the two-node tree into itself at its child `d` as a first
   * child leaves the tree object empty while both nodes stay allocated, and
   * the nodes now form a cycle of first-child links.
   */
  lemma SelfInsertLeftChildMakesCycle<T>(r: NodeRef, d: NodeRef, v: T, w: T)
    requires r != d
    ensures var s := TwoNodes(r, d, v, w);
      var (nodes, root) := SelfInsertLeftChild(s, r, d);
      && root == null && nodes.Keys == {r, d}
      && nodes[r].left == d && nodes[d].left == r && nodes[r].parent == d && nodes[d].parent == r
  {
  }

  /**
   * Inserting the two-node tree into itself at its child `d` as a next
   * sibling leaves the tree object empty while both nodes stay allocated;
   * the old root becomes its own parent and the next sibling of its child.
   */
  lemma SelfInsertRightSiblingMakesCycle<T>(r: NodeRef, d: NodeRef, v: T, w: T)
    requires r != d
    ensures var s := TwoNodes(r, d, v, w);
      var (nodes, root) := SelfInsertRightSibling(s, r, d);
      && root == null && nodes.Keys == {r, d}
      && nodes[r].left == d && nodes[d].right == r && nodes[r].parent == r
  {
  }

  // ---------------------------------------------------------------------
  // Null node handles
  // ---------------------------------------------------------------------

  /**
   * What the `noexcept` queries of `node` (`left_child`, `parent`,
   * `right_sibling`, `is_root`, `is_leaf`, `has_right_sibling`,
   * `has_left_child`) read as the header writes them: the fields of the node
   * behind the handle, with no null test, so that on a null handle the read
   * dereferences a null pointer (none here).
   */
  ghost function HandleFields<T>(s: Store<T>, n: Ptr): Option<Node<T>>
    requires n == null || n in s.nodes
  {
    if n == null then None else Some(s.nodes[n])
  }

  /**
   * Where the handle is not null, the queries as written and as corrected
   * agree, field by field; only the null handle, which as written has no
   * fields to read, tells them apart.
   */
  lemma HandleReadsAgree<T>(t: GeneralTree<T>, n: Ptr)
    requires t.Valid() && (n == null || n in t.nodes)
    ensures HandleFields(t.View(), n).None? <==> n == null
    ensures n != null ==> var f := HandleFields(t.View(), n).value;
      && t.LeftChild(n) == f.left && t.Parent(n) == f.parent && t.RightSibling(n) == f.right
      && t.IsRoot(n) == (f.parent == null) && t.IsLeaf(n) == (f.left == null)
      && t.HasLeftChild(n) == (f.left != null) && t.HasRightSibling(n) == (f.right != null)
  {
  }

  // ---------------------------------------------------------------------
  // Cursors
  // ---------------------------------------------------------------------

  /**
   * `get_initial_node_for_iteration(order)` as the header writes it: for
   * postorder it reads the first-child link of the root before testing for
   * null, so on an empty tree it dereferences a null pointer (none here);
   * otherwise it yields the first node of the order.
   */
  ghost function InitialNode<T>(s: Store<T>, root: Ptr, order: IterationType): (r: Option<Ptr>)
    requires WellFormed(s, root)
    ensures r.None? <==> root == null && order == PostorderIteration
    ensures r.Some? ==> r.value == First(s, root, order)
  {
    if order == PreorderIteration then Some(root)
    else if root == null then assert order == PostorderIteration; None
    else Some(Leftmost(s, root))
  }

  /** `begin(postorder)` on an empty tree is a null dereference, where the end cursor was intended. */
  lemma EmptyPostorderBegin<T>(s: Store<T>)
    requires WellFormed(s, null)
    ensures InitialNode(s, null, PostorderIteration).None?
    ensures First(s, null, PostorderIteration) == null
  {
  }

  /**
   * On the two-node tree the orders start at different nodes, so `cbegin`,
   * which always starts a preorder cursor at the root, is not
   * `begin(postorder)`.
   */
  lemma CBeginIgnoresOrder<T>(r: NodeRef, d: NodeRef, v: T, w: T)
    requires r != d
    ensures var s := TwoNodes(r, d, v, w);
      First(s, r, PreorderIteration) == r && First(s, r, PostorderIteration) == d
  {
    var s := TwoNodes(r, d, v, w);
    assert RankedAt(s, r) && RankedAt(s, d);
    assert Leftmost(s, d) == d;
  }

  /**
   * On the two-node tree a postorder cursor at `d` steps to the root, but
   * the cursor that the conversion to a constant cursor makes of it (a
   * preorder one) steps past the end: the conversion skips the root.
   */
  lemma ConvertedCursorSkipsRoot<T>(r: NodeRef, d: NodeRef, v: T, w: T)
    requires r != d
    ensures var s := TwoNodes(r, d, v, w);
      && d in s.sub
      && Step(s, r, PostorderIteration, d) == r && Step(s, r, PreorderIteration, d) == null
  {
  }
}
