/**
 * `general_tree_iterator`: a cursor over the nodes of one tree that keeps
 * only a node pointer and its visiting order and finds the next node by
 * following links, without a stack.  Each step is proved to be the step
 * function of module `Traversal`, so stepping from `Begin` visits the
 * tree's nodes in preorder or postorder and then reaches `End`.
 */
module Cursors {
  import opened AbstractTree
  import opened Links
  import opened Traversal
  import opened GeneralTrees

  class Cursor<T> {
    /** The tree whose nodes the cursor walks. */
    const tree: GeneralTree<T>
    /** `m_ptr`: the current node, null past the last one. */
    var ptr: Ptr
    /** `m_iteration_type`. */
    const order: IterationType

    /** `general_tree_iterator(node_ptr, it_type)`. */
    constructor (tree: GeneralTree<T>, ptr: Ptr, order: IterationType)
      ensures this.tree == tree && this.ptr == ptr && this.order == order
    {
      this.tree := tree;
      this.ptr := ptr;
      this.order := order;
    }

    /**
     * `operator++()`, `move_to_the_next_node`: for preorder the first child,
     * else the next sibling, else the next sibling of the nearest ancestor
     * that has one (null past the root); for postorder the node reached
     * from the next sibling by following first children, else the parent.
     */
    method Advance()
      requires tree.Valid() && ptr != null && ptr in tree.nodes
      modifies this
      ensures ptr == Step(tree.View(), tree.root, order, old(ptr))
    {
      ghost var s := tree.View();
      var n := tree.nodes[ptr];
      assert RankedAt(s, ptr) && ParentAt(s, tree.root, ptr);
      if order == PreorderIteration {
        if n.left != null {
          ptr := n.left;
        } else if n.right != null {
          ptr := n.right;
        } else {
          // up until an ancestor with a next sibling, or null
          var m := n.parent;
          while m != null && tree.nodes[m].right == null
            invariant Linked(s, m) && Climb(s, tree.root, m) == Climb(s, tree.root, n.parent)
            decreases m != null, s.sub.Keys - Below(s, m)
          {
            if tree.nodes[m].parent != null {
              ParentReachesMore(s, tree.root, m);
              assert RankedAt(s, tree.nodes[m].parent);
            }
            m := tree.nodes[m].parent;
          }
          if m != null {
            m := tree.nodes[m].right;
          }
          ptr := m;
        }
      } else {
        if n.right != null {
          // down the first children of the next sibling
          var m: NodeRef := n.right;
          while tree.nodes[m].left != null
            invariant m in s.sub && Leftmost(s, m) == Leftmost(s, n.right)
            decreases s.sub[m]
          {
            assert RankedAt(s, m);
            m := tree.nodes[m].left;
          }
          ptr := m;
        } else {
          ptr := n.parent;
        }
      }
    }

    /** `operator++(int)`: steps this cursor and yields a cursor at the node it was at. */
    method PostAdvance() returns (previous: Cursor<T>)
      requires tree.Valid() && ptr != null && ptr in tree.nodes
      modifies this
      ensures fresh(previous) && previous.tree == tree && previous.ptr == old(ptr) && previous.order == order
      ensures ptr == Step(tree.View(), tree.root, order, old(ptr))
    {
      previous := new Cursor(tree, ptr, order);
      Advance();
    }

    /** `operator*()`: the value at the current node. */
    function Current(): (v: T)
      reads this, tree
      requires tree.Valid() && ptr != null && ptr in tree.nodes
      ensures v == Subtree(tree.View(), ptr).value
    {
      assert RankedAt(tree.View(), ptr);
      tree.nodes[ptr].data
    }

    /**
     * The conversion to `general_tree_iterator<true>` as the header writes
     * it: the converted cursor is at the same node but visits in preorder,
     * the default order, whatever this cursor's order.
     */
    method ToConstAsWritten() returns (c: Cursor<T>)
      ensures fresh(c) && c.tree == tree && c.ptr == ptr && c.order == PreorderIteration
    {
      c := new Cursor(tree, ptr, PreorderIteration);
    }

    /** The conversion to `general_tree_iterator<true>`: a cursor at the same node, in the same order. */
    method ToConst() returns (c: Cursor<T>)
      ensures fresh(c) && c.tree == tree && c.ptr == ptr && c.order == order
    {
      c := new Cursor(tree, ptr, order);
    }
  }

  /**
   * `begin(order)`: a cursor at the first node of the tree in the given order;
   * `End(order)` exactly when the tree is empty (corrected: as written,
   * `begin(postorder)` on an empty tree dereferences a null root; see Findings
   * in README.md).
   */
  method Begin<T>(tree: GeneralTree<T>, order: IterationType) returns (c: Cursor<T>)
    requires tree.Valid()
    ensures fresh(c) && c.tree == tree && c.order == order
    ensures c.ptr == First(tree.View(), tree.root, order)
    ensures c.ptr == null <==> tree.root == null
  {
    var p := tree.InitialNode(order);
    c := new Cursor(tree, p, order);
    Enumerates(tree.View(), tree.root, order);
  }

  /** `end(order)`: the cursor past the last node, whose pointer is null. */
  method End<T>(tree: GeneralTree<T>, order: IterationType) returns (c: Cursor<T>)
    ensures fresh(c) && c.tree == tree && c.ptr == null && c.order == order
  {
    c := new Cursor(tree, null, order);
  }

  /** `cbegin(order)` as the header writes it: it calls `begin()`, so it starts a preorder cursor whatever the order asked for. */
  method CBeginAsWritten<T>(tree: GeneralTree<T>, order: IterationType) returns (c: Cursor<T>)
    requires tree.Valid()
    ensures fresh(c) && c.tree == tree && c.order == PreorderIteration
    ensures c.ptr == tree.root
  {
    c := Begin(tree, PreorderIteration);
  }

  /** `cbegin(order)`: the same cursor as `begin(order)`. */
  method CBegin<T>(tree: GeneralTree<T>, order: IterationType) returns (c: Cursor<T>)
    requires tree.Valid()
    ensures fresh(c) && c.tree == tree && c.order == order
    ensures c.ptr == First(tree.View(), tree.root, order)
  {
    c := Begin(tree, order);
  }

  /** `cend()`: the cursor past the last node, which equals the end cursor of either order. */
  method CEnd<T>(tree: GeneralTree<T>) returns (c: Cursor<T>)
    ensures fresh(c) && c.tree == tree && c.ptr == null
  {
    c := End(tree, PreorderIteration);
  }
}
