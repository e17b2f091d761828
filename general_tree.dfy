/**
 * `general_tree<T>`: an ordered n-ary tree kept in left-child/right-sibling
 * form.  The tree object owns its root pointer and (here) the map from node
 * addresses to node fields; its operations rewrite links field by field, as
 * the header does, and each of them is proved against the pure store edits
 * of module `Edits` and the abstract tree of module `AbstractTree`.
 *
 * A node handle (`general_tree<T>::node`) is a `Ptr`: null or the address
 * of one of the tree's nodes.
 */
module GeneralTrees {
  import opened AbstractTree
  import opened Links
  import opened Edits
  import opened Traversal
  import opened Worklist

  /** Why an operation refused to run: a null node handle, or an operation the tree's shape forbids. */
  datatype Error = NullHandle | InvalidOperation

  datatype Result<R> = Ok(value: R) | Err(error: Error)

  /** How an operation that yields nothing ended. */
  datatype Outcome = Success | Failure(error: Error)

  class GeneralTree<T> {
    /** `m_root`. */
    var root: Ptr
    /** The fields of every node of the tree, by address. */
    var nodes: map<NodeRef, Node<T>>
    /** For every node, the nodes it reaches through first-child and next-sibling links. */
    ghost var sub: map<NodeRef, set<NodeRef>>

    ghost function View(): Store<T>
      reads this
    {
      Store(nodes, sub)
    }

    /** The tree's invariant: its nodes form one well-formed tree rooted at `root`. */
    ghost predicate Valid()
      reads this
    {
      WellFormed(View(), root)
    }

    /** The abstract tree this object holds; none when empty. */
    ghost function Contents(): Option<Tree<T>>
      reads this
      requires Valid()
    {
      Abs(View(), root)
    }

    /** Two different trees that share no node, as two `general_tree` objects always are. */
    ghost predicate Separate(other: GeneralTree<T>)
      reads this, other
    {
      this != other && nodes.Keys !! other.nodes.Keys
    }

    /** `general_tree()`: the empty tree. */
    constructor ()
      ensures Valid() && root == null && nodes == map[] && Contents() == None
    {
      root := null;
      nodes := map[];
      sub := map[];
    }

    /** `general_tree(U&& root_value)`: a tree of one node holding `v`. */
    constructor WithRoot(v: T)
      ensures Valid() && root != null && fresh(root) && nodes.Keys == {root}
      ensures Contents() == Some(Tree(v, []))
    {
      var n := new NodeRef();
      root := n;
      nodes := map[n := Node(v, null, null, null)];
      sub := map[n := {n}];
      new;
      assert View() == Single(n, v);
    }

    /** `general_tree(general_tree&& rhs)`: takes over the nodes of `rhs`, which becomes empty. */
    constructor Moved(rhs: GeneralTree<T>)
      requires rhs.Valid()
      modifies rhs
      ensures Valid() && root == old(rhs.root) && nodes == old(rhs.nodes) && Contents() == old(rhs.Contents())
      ensures rhs.Valid() && rhs.root == null && rhs.nodes == map[]
    {
      root := rhs.root;
      nodes := rhs.nodes;
      sub := rhs.sub;
      new;
      rhs.root := null;
      rhs.nodes := map[];
      rhs.sub := map[];
    }

    /** `general_tree(const general_tree& other)`: a deep copy of `other`, sharing no node with it. */
    constructor Copy(other: GeneralTree<T>)
      requires other.Valid()
      ensures Valid() && Contents() == other.Contents() && Separate(other)
    {
      root := null;
      nodes := map[];
      sub := map[];
      new;
      DeepCopy(other);
    }

    /**
     * `operator=(const general_tree& other)`: unless `other` is this very
     * tree, the old nodes are cleared and replaced by a deep copy of `other`.
     */
    method CopyAssign(other: GeneralTree<T>)
      requires Valid() && other.Valid()
      modifies this
      ensures Valid() && Contents() == old(other.Contents())
      ensures other == this ==> unchanged(this)
      ensures other != this ==> Separate(other)
    {
      if this != other {
        Clear();
        DeepCopy(other);
      }
    }

    /**
     * `operator=(general_tree&& other)`: unless `other` is this very tree, the
     * old nodes are cleared and this tree takes over the nodes of `other`,
     * which becomes empty.
     */
    method MoveAssign(other: GeneralTree<T>)
      requires Valid() && other.Valid()
      modifies this, other
      ensures other == this ==> unchanged(this)
      ensures other != this ==> && Valid() && root == old(other.root) && nodes == old(other.nodes)
                                && Contents() == old(other.Contents())
                                && other.Valid() && other.root == null && other.nodes == map[]
    {
      if this != other {
        Clear();
        root := other.root;
        nodes := other.nodes;
        sub := other.sub;
        other.root := null;
        other.nodes := map[];
        other.sub := map[];
        assert other.View() == Empty();
      }
    }

    /** `root()`: the handle of the root; null when the tree is empty. */
    function Root(): (r: Ptr)
      reads this
      requires Valid()
      ensures r == null <==> Contents() == None
      ensures r != null ==> r in nodes && Contents() == Some(Subtree(View(), r))
      ensures r != null ==> nodes[r].parent == null && nodes[r].right == null
    {
      assert root != null ==> ParentAt(View(), root, root);
      root
    }

    /** `empty()`: the tree has no node. */
    function IsEmpty(): (b: bool)
      reads this
      requires Valid()
      ensures b <==> Contents() == None
      ensures b <==> nodes == map[]
    {
      root == null
    }

    /**
     * `get_initial_node_for_iteration(order)`: where a cursor of the given
     * order starts: the root for preorder, the node reached from the root by
     * following first children for postorder.  Unlike the header, an empty
     * tree yields null for postorder too (corrected; see Findings in
     * README.md).
     */
    method InitialNode(order: IterationType) returns (p: Ptr)
      requires Valid()
      ensures p == First(View(), root, order)
    {
      if order == PreorderIteration || root == null {
        return root;
      }
      ghost var s := View();
      var current: NodeRef := root;
      while nodes[current].left != null
        invariant current in s.sub && Leftmost(s, current) == Leftmost(s, root)
        decreases s.sub[current]
      {
        assert RankedAt(s, current);
        current := nodes[current].left;
      }
      p := current;
    }

    // -------------------------------------------------------------------
    // The queries of a node handle `n`: a node of this tree, or null
    // -------------------------------------------------------------------

    /** `node::data()`: the value held at `n`; a null handle is refused. */
    function Data(n: Ptr): (r: Result<T>)
      reads this
      requires Valid() && (n == null || n in nodes)
      ensures n == null ==> r == Err(NullHandle)
      ensures n != null ==> r == Ok(Subtree(View(), n).value)
    {
      if n == null then Err(NullHandle)
      else assert RankedAt(View(), n); Ok(nodes[n].data)
    }

    /**
     * `node::left_child()`: the first child of `n`, null for a leaf and for a
     * null handle (corrected: as written the header reads the fields of a null
     * handle; see Findings in README.md).
     */
    function LeftChild(n: Ptr): (c: Ptr)
      reads this
      requires Valid() && (n == null || n in nodes)
      ensures n == null ==> c == null
      ensures n != null ==> (c == null <==> ChildIds(View(), n) == [])
      ensures n != null && c != null ==>
        && c in nodes && c == ChildIds(View(), n)[0] && |Subtree(View(), n).children| > 0
        && Subtree(View(), c) == Subtree(View(), n).children[0]
    {
      if n == null then null
      else
        assert RankedAt(View(), n);
        SubtreeByChildren(View(), n);
        nodes[n].left
    }

    /**
     * `node::parent()`: the node whose child `n` is, null for the root and for
     * a null handle (corrected: as written the header reads the fields of a
     * null handle; see Findings in README.md).
     */
    function Parent(n: Ptr): (p: Ptr)
      reads this
      requires Valid() && (n == null || n in nodes)
      ensures n == null ==> p == null
      ensures n != null ==> (p == null <==> n == root)
      ensures n != null && p != null ==> p in nodes && n in ChildIds(View(), p)
    {
      if n == null then null
      else
        SiblingsOf(View(), root, n);
        nodes[n].parent
    }

    /**
     * `node::right_sibling()`: the child of `n`'s parent right after `n`, null
     * for the last child, for the root and for a null handle (corrected: as
     * written the header reads the fields of a null handle; see Findings in
     * README.md).
     */
    function RightSibling(n: Ptr): (r: Ptr)
      reads this
      requires Valid() && (n == null || n in nodes)
      ensures n == null || n == root ==> r == null
      ensures n != null && n != root ==> var p := nodes[n].parent;
        && p != null && p in nodes && n in ChildIds(View(), p)
        && forall j | 0 <= j < |ChildIds(View(), p)| && ChildIds(View(), p)[j] == n ::
             && (r == null <==> j + 1 == |ChildIds(View(), p)|)
             && (r != null ==> r == ChildIds(View(), p)[j + 1])
    {
      if n == null then null
      else
        SiblingsOf(View(), root, n);
        nodes[n].right
    }

    /**
     * `node::is_root()`: `n` has no parent, which makes it the root; false for
     * a null handle (corrected: as written the header reads the fields of a
     * null handle; see Findings in README.md).
     */
    function IsRoot(n: Ptr): (b: bool)
      reads this
      requires Valid() && (n == null || n in nodes)
      ensures b <==> n != null && n == root
    {
      if n == null then false
      else
        assert ParentAt(View(), root, n);
        nodes[n].parent == null
    }

    /**
     * `node::is_leaf()`: the tree at `n` has no children; false for a null
     * handle (corrected: as written the header reads the fields of a null
     * handle; see Findings in README.md).
     */
    function IsLeaf(n: Ptr): (b: bool)
      reads this
      requires Valid() && (n == null || n in nodes)
      ensures b <==> n != null && Subtree(View(), n).children == []
    {
      if n == null then false
      else
        assert RankedAt(View(), n);
        SubtreeByChildren(View(), n);
        nodes[n].left == null
    }

    /**
     * `node::has_left_child()`: the tree at `n` has at least one child; false
     * for a null handle (corrected: as written the header reads the fields of
     * a null handle; see Findings in README.md).
     */
    function HasLeftChild(n: Ptr): (b: bool)
      reads this
      requires Valid() && (n == null || n in nodes)
      ensures b <==> n != null && |Subtree(View(), n).children| > 0
    {
      if n == null then false
      else
        assert RankedAt(View(), n);
        SubtreeByChildren(View(), n);
        nodes[n].left != null
    }

    /**
     * `node::has_right_sibling()`: `n` is a child, and not the last child, of
     * its parent; false for a null handle (corrected: as written the header
     * reads the fields of a null handle; see Findings in README.md).
     */
    function HasRightSibling(n: Ptr): (b: bool)
      reads this
      requires Valid() && (n == null || n in nodes)
      ensures b <==> && n != null && n != root && nodes[n].parent != null && nodes[n].parent in sub
                     && var C := ChildIds(View(), nodes[n].parent); |C| > 0 && C[|C| - 1] != n
    {
      if n == null then false
      else
        SiblingsOf(View(), root, n);
        nodes[n].right != null
    }

    /**
     * `node::child(index)`: the child of `n` at position `i`, counting from
     * zero, or null when `n` has fewer children; a null handle is refused.
     */
    method Child(n: Ptr, i: nat) returns (r: Result<Ptr>)
      requires Valid() && (n == null || n in nodes)
      ensures n == null ==> r == Err(NullHandle)
      ensures n != null ==> r.Ok? && (r.value == null <==> i >= |ChildIds(View(), n)|)
      ensures n != null && i < |ChildIds(View(), n)| ==>
        && r.value == ChildIds(View(), n)[i] && r.value in nodes && |Subtree(View(), n).children| == |ChildIds(View(), n)|
        && Subtree(View(), r.value) == Subtree(View(), n).children[i]
    {
      if n == null {
        return Err(NullHandle);
      }
      ghost var s := View();
      assert RankedAt(s, n);
      ghost var C := ChildIds(s, n);
      var child := nodes[n].left;
      var k := 0;
      while k < i
        invariant k <= i && k <= |C| && Linked(s, child) && Chain(s, child) == C[k..]
      {
        if child == null {
          return Ok(null);
        }
        assert RankedAt(s, child);
        assert C[k..] == [child] + C[k + 1..];
        child := nodes[child].right;
        k := k + 1;
      }
      SubtreeByChildren(s, n);
      r := Ok(child);
    }

    /** `node::children_count()`: the number of children of `n`; a null handle is refused. */
    method ChildrenCount(n: Ptr) returns (r: Result<nat>)
      requires Valid() && (n == null || n in nodes)
      ensures n == null ==> r == Err(NullHandle)
      ensures n != null ==> r == Ok(|Subtree(View(), n).children|)
    {
      if n == null {
        return Err(NullHandle);
      }
      ghost var s := View();
      assert RankedAt(s, n);
      ghost var C := ChildIds(s, n);
      var count := 0;
      var child := nodes[n].left;
      while child != null
        invariant Linked(s, child) && count + |Chain(s, child)| == |C|
        decreases Below(s, child)
      {
        assert RankedAt(s, child);
        count := count + 1;
        child := nodes[child].right;
      }
      SubtreeByChildren(s, n);
      r := Ok(count);
    }

    /** `node::depth()`: the number of parent links from `n` up to the root; a null handle is refused. */
    method Depth(n: Ptr) returns (r: Result<nat>)
      requires Valid() && (n == null || n in nodes)
      ensures n == null ==> r == Err(NullHandle)
      ensures n != null ==> r == Ok(Level(View(), root, n))
    {
      if n == null {
        return Err(NullHandle);
      }
      ghost var s := View();
      var aux: NodeRef := n;
      var depth := 0;
      while nodes[aux].parent != null
        invariant aux in s.sub && depth + Level(s, root, aux) == Level(s, root, n)
        decreases s.sub.Keys - s.sub[aux]
      {
        ParentReachesMore(s, root, aux);
        assert RankedAt(s, nodes[aux].parent);
        depth := depth + 1;
        aux := nodes[aux].parent;
      }
      r := Ok(depth);
    }

    /**
     * `node::descendants_count()`: the number of nodes below `n`, counted
     * breadth first as each is queued; a null handle is refused.
     */
    method DescendantsCount(n: Ptr) returns (r: Result<nat>)
      requires Valid() && (n == null || n in nodes)
      ensures n == null ==> r == Err(NullHandle)
      ensures n != null ==> r.Ok? && r.value + 1 == |SubtreeNodes(View(), n)| == Size(Subtree(View(), n))
    {
      if n == null {
        return Err(NullHandle);
      }
      ghost var s := View();
      SizeIsNodeCount(s, n);
      ghost var D := SubtreeNodes(s, n);
      var count := 0;
      var queue: seq<NodeRef> := [n];
      ghost var S := D;
      assert D - SubtreeNodes(s, n) == {};
      while queue != []
        invariant S <= D && Frontier(s, queue, S) && count + |S| == |D| - 1 + |queue|
        decreases S
      {
        var current := queue[0];
        PopFront(s, queue, S);
        ghost var X := S - SubtreeNodes(s, current);
        queue := queue[1..];
        var child := nodes[current].left;
        while child != null
          invariant Linked(s, child) && Frontier(s, queue, X)
          invariant X !! Below(s, child) && X + Below(s, child) == S - {current}
          invariant count + |X| + |Below(s, child)| == |D| - 1 + |queue|
          decreases Below(s, child)
        {
          var c: NodeRef := child;
          assert RankedAt(s, c);
          PushChild(s, queue, X, c);
          queue := queue + [c];
          X := X + SubtreeNodes(s, c);
          count := count + 1;
          child := nodes[c].right;
        }
        S := S - {current};
      }
      r := Ok(count);
    }

    /** `emplace_root(args...)` and `create_root(data)`: a root holding `v`, refused when there is already one. */
    method EmplaceRoot(v: T) returns (r: Result<NodeRef>)
      requires Valid()
      modifies this
      ensures old(root) != null ==> r == Err(InvalidOperation) && unchanged(this)
      ensures old(root) == null ==> r.Ok? && fresh(r.value) && Valid() && root == r.value
      ensures old(root) == null ==> View() == Single(r.value, v) && Contents() == Some(Tree(v, []))
    {
      if root != null {
        return Err(InvalidOperation);
      }
      var n := new NodeRef();
      root := n;
      nodes := map[n := Node(v, null, null, null)];
      sub := map[n := {n}];
      r := Ok(n);
    }

    /**
     * `emplace_left_child(destiny, args...)` and `insert_left_child(destiny,
     * value)`: a new node holding `v` becomes the first child of `d`, ahead
     * of `d`'s old children; nothing else changes.
     */
    method EmplaceLeftChild(d: Ptr, v: T) returns (r: Result<NodeRef>)
      requires Valid() && (d == null || d in nodes)
      modifies this
      ensures d == null ==> r == Err(NullHandle) && unchanged(this)
      ensures d != null ==> r.Ok? && fresh(r.value) && Valid() && root == old(root)
      ensures d != null ==> View() == SpliceFirstChild(old(View()), d, Single(r.value, v), r.value)
      ensures d != null ==> nodes[r.value].parent == d && nodes[r.value].data == v
      ensures d != null ==> ChildIds(View(), d) == [r.value] + old(ChildIds(View(), d))
      ensures d != null ==> Subtree(View(), d) == Tree(old(nodes[d].data), [Tree(v, [])] + old(Subtree(View(), d).children))
    {
      if d == null {
        return Err(NullHandle);
      }
      ghost var s := View();
      var n := new NodeRef();
      var nn, dn := Node(v, null, null, null), nodes[d];
      // the new node's next sibling and parent, then `d`'s first child
      nodes := (nodes + map[n := nn])[d := dn.(left := n)][n := nn.(right := dn.left, parent := d)];
      ghost var t := Single(n, v);
      sub := SpliceFirstChild(s, d, t, n).sub;
      SpliceFirstChildEffect(s, root, d, t, n);
      r := Ok(n);
    }

    /**
     * `insert_left_child(destiny, tree&)`: the whole of `tree` becomes the
     * first child of `d` and `tree` is left empty.  A null `d` and a `d` that
     * is `tree`'s root are refused; so, unlike the header, is `tree` being
     * this very tree.  An empty `tree` changes nothing and yields null.
     */
    method InsertLeftChildTree(d: Ptr, tree: GeneralTree<T>) returns (r: Result<Ptr>)
      requires Valid() && tree.Valid() && (d == null || d in nodes)
      requires tree == this || Separate(tree)
      modifies this, tree
      ensures d == null ==> r == Err(NullHandle) && unchanged(this) && unchanged(tree)
      ensures d != null && (d == old(tree.root) || tree == this) ==>
        r == Err(InvalidOperation) && unchanged(this) && unchanged(tree)
      ensures d != null && d != old(tree.root) && tree != this && old(tree.root) == null ==>
        r == Ok(null) && unchanged(this) && unchanged(tree)
      ensures d != null && d != old(tree.root) && tree != this && old(tree.root) != null ==>
        && r == Ok(old(tree.root)) && Valid() && root == old(root)
        && tree.Valid() && tree.root == null && tree.nodes == map[]
        && View() == SpliceFirstChild(old(View()), d, old(tree.View()), old(tree.root))
        && ChildIds(View(), d) == [old(tree.root)] + old(ChildIds(View(), d))
        && Some(Subtree(View(), old(tree.root))) == old(tree.Contents())
        && Subtree(View(), d) == Tree(old(nodes[d].data), [Subtree(View(), old(tree.root))] + old(Subtree(View(), d).children))
    {
      if d == null {
        return Err(NullHandle);
      }
      if d == tree.root {
        return Err(InvalidOperation);
      }
      if tree == this {
        return Err(InvalidOperation);
      }
      if tree.root == null {
        return Ok(null);
      }
      ghost var s, t := View(), tree.View();
      var tr := tree.root;
      assert Spliceable(s, root, d, t, tr);
      var rn, dn := tree.nodes[tr], nodes[d];
      // the tree root's parent and next sibling, then `d`'s first child
      var tn := tree.nodes;
      tree.root := null;
      tree.nodes := map[];
      tree.sub := map[];
      assert tree.View() == Empty();
      nodes := (nodes + tn)[d := dn.(left := tr)][tr := rn.(right := dn.left, parent := d)];
      sub := SpliceFirstChild(s, d, t, tr).sub;
      SpliceFirstChildEffect(s, root, d, t, tr);
      r := Ok(tr);
    }

    /**
     * `emplace_right_sibling(destiny, args...)` and `insert_right_sibling(destiny,
     * value)`: a new node holding `v` is put right after `d` among the
     * children of `d`'s parent.  A null `d` and the root (which has no
     * siblings) are refused.
     */
    method EmplaceRightSibling(d: Ptr, v: T) returns (r: Result<NodeRef>)
      requires Valid() && (d == null || d in nodes)
      modifies this
      ensures d == null ==> r == Err(NullHandle) && unchanged(this)
      ensures d != null && d == root ==> r == Err(InvalidOperation) && unchanged(this)
      ensures d != null && d != old(root) ==>
        var p := old(nodes[d].parent);
        && r.Ok? && fresh(r.value) && Valid() && root == old(root)
        && View() == SpliceNextSibling(old(View()), d, Single(r.value, v), r.value)
        && p != null && p in old(sub) && p in nodes && nodes[r.value].parent == p && nodes[r.value].data == v
        && ChildIds(View(), p) == InsertAfter(old(ChildIds(View(), p)), d as NodeRef, r.value)
        && Subtree(View(), r.value) == Tree(v, [])
    {
      if d == null {
        return Err(NullHandle);
      }
      if nodes[d].parent == null {
        assert ParentAt(View(), root, d);
        return Err(InvalidOperation);
      }
      assert ParentAt(View(), root, d);
      ghost var s := View();
      var n := new NodeRef();
      var nn, dn := Node(v, null, null, null), nodes[d];
      // the new node's parent and next sibling, then `d`'s next sibling
      nodes := (nodes + map[n := nn])[d := dn.(right := n)][n := nn.(right := dn.right, parent := dn.parent)];
      ghost var t := Single(n, v);
      sub := SpliceNextSibling(s, d, t, n).sub;
      SpliceNextSiblingEffect(s, root, d, t, n);
      r := Ok(n);
    }

    /**
     * `insert_right_sibling(destiny, tree&)`: the whole of `tree` is put right
     * after `d` among the children of `d`'s parent and `tree` is left empty.
     * A null `d`, the root, and a `d` that is `tree`'s root are refused; so,
     * unlike the header, is `tree` being this very tree.  An empty `tree`
     * changes nothing and yields null.
     */
    method InsertRightSiblingTree(d: Ptr, tree: GeneralTree<T>) returns (r: Result<Ptr>)
      requires Valid() && tree.Valid() && (d == null || d in nodes)
      requires tree == this || Separate(tree)
      modifies this, tree
      ensures d == null ==> r == Err(NullHandle) && unchanged(this) && unchanged(tree)
      ensures d != null && (d == old(root) || d == old(tree.root) || tree == this) ==>
        r == Err(InvalidOperation) && unchanged(this) && unchanged(tree)
      ensures d != null && d != old(root) && d != old(tree.root) && tree != this && old(tree.root) == null ==>
        r == Ok(null) && unchanged(this) && unchanged(tree)
      ensures d != null && d != old(root) && d != old(tree.root) && tree != this && old(tree.root) != null ==>
        var p := old(nodes[d].parent);
        && r == Ok(old(tree.root)) && Valid() && root == old(root)
        && tree.Valid() && tree.root == null && tree.nodes == map[]
        && View() == SpliceNextSibling(old(View()), d, old(tree.View()), old(tree.root))
        && p != null && p in old(sub) && p in nodes && nodes[old(tree.root)].parent == p
        && ChildIds(View(), p) == InsertAfter(old(ChildIds(View(), p)), d as NodeRef, old(tree.root) as NodeRef)
        && Some(Subtree(View(), old(tree.root))) == old(tree.Contents())
    {
      if d == null {
        return Err(NullHandle);
      }
      assert ParentAt(View(), root, d);
      if nodes[d].parent == null {
        return Err(InvalidOperation);
      }
      if d == tree.root {
        return Err(InvalidOperation);
      }
      if tree == this {
        return Err(InvalidOperation);
      }
      if tree.root == null {
        return Ok(null);
      }
      ghost var s, t := View(), tree.View();
      var tr := tree.root;
      assert Spliceable(s, root, d, t, tr);
      var rn, dn := tree.nodes[tr], nodes[d];
      // the tree root's parent and next sibling, then `d`'s next sibling
      var tn := tree.nodes;
      tree.root := null;
      tree.nodes := map[];
      tree.sub := map[];
      assert tree.View() == Empty();
      nodes := (nodes + tn)[d := dn.(right := tr)][tr := rn.(right := dn.right, parent := dn.parent)];
      sub := SpliceNextSibling(s, d, t, tr).sub;
      SpliceNextSiblingEffect(s, root, d, t, tr);
      r := Ok(tr);
    }

    /**
     * `delete_from_node(pnode)`: the subtree rooted at `p` leaves the tree.
     * The link that led to `p` (its parent's first-child link, or the
     * next-sibling link of its previous sibling, found by walking the
     * parent's children) is redirected to `p`'s next sibling; then the
     * subtree's nodes are deleted.  `root` is not touched, so deleting from
     * the root needs the caller to reset it.
     */
    method DeleteFromNode(p: Ptr)
      requires Valid() && (p == null || p in nodes)
      modifies this
      ensures root == old(root)
      ensures p == null ==> unchanged(this)
      ensures p != null ==> View() == Detach(old(View()), p)
    {
      if p == null {
        return;
      }
      ghost var s := View();
      assert ParentAt(s, root, p);
      var q := nodes[p].parent;
      var isRoot := q == null;
      var isLeftChild := !isRoot && p == nodes[q].left;
      var isRightSibling := !isRoot && !isLeftChild;
      if isRoot {
        DetachRoot(s, p);
      }
      if isLeftChild {
        nodes := nodes[q := nodes[q].(left := nodes[p].right)];
        assert nodes == Relinked(s, p, q, true);
        DetachRelink(s, root, p, q, true);
      }
      if isRightSibling {
        ParentOutside(s, root, p);
        assert RankedAt(s, q);
        var aux := nodes[q].left;
        while nodes[aux].right != p
          invariant aux != null && aux in s.sub && aux != p && p in Chain(s, aux)
          decreases |Chain(s, aux)|
        {
          assert RankedAt(s, aux);
          aux := nodes[aux].right;
        }
        nodes := nodes[aux := nodes[aux].(right := nodes[p].right)];
        assert nodes == Relinked(s, p, aux, false);
        DetachRelink(s, root, p, aux, false);
      }
      assert RankedAt(s, p);
      DeleteNodes(s, p);
      sub := Detach(s, p).sub;
    }

    /**
     * The breadth-first loop of `delete_from_node`: the nodes of the subtree
     * of `p` in `s` (whose fields this tree still holds) are deleted, each
     * after its children are queued.
     */
    method DeleteNodes(ghost s: Store<T>, p: NodeRef)
      requires Ranked(s) && p in s.sub
      requires forall x | x in SubtreeNodes(s, p) :: x in s.nodes && x in nodes && nodes[x] == s.nodes[x]
      modifies this
      ensures root == old(root) && sub == old(sub)
      ensures nodes == old(nodes) - SubtreeNodes(s, p)
    {
      ghost var D, N := SubtreeNodes(s, p), nodes;
      var queue: seq<NodeRef> := [p];
      ghost var R: set<NodeRef> := {};
      assert D - SubtreeNodes(s, p) == {};
      while queue != []
        invariant root == old(root) && sub == old(sub)
        invariant R <= D && Frontier(s, queue, D - R)
        invariant nodes == N - R
        decreases D - R
      {
        var current := queue[0];
        PopFront(s, queue, D - R);
        ghost var X := (D - R) - SubtreeNodes(s, current);
        queue := queue[1..];
        var child := nodes[current].left;
        while child != null
          invariant root == old(root) && sub == old(sub) && nodes == N - R
          invariant Linked(s, child) && Frontier(s, queue, X)
          invariant X !! Below(s, child) && X + Below(s, child) == (D - R) - {current}
          decreases Below(s, child)
        {
          var c: NodeRef := child;
          assert RankedAt(s, c) && c in D - R;
          PushChild(s, queue, X, c);
          queue := queue + [c];
          X := X + SubtreeNodes(s, c);
          child := nodes[c].right;
        }
        assert X == D - (R + {current});
        nodes := nodes - {current};
        R := R + {current};
      }
    }

    /** `clear()`: every node leaves the tree, which becomes empty. */
    method Clear()
      requires Valid()
      modifies this
      ensures Valid() && root == null && nodes == map[] && Contents() == None
    {
      ghost var s := View();
      if root != null {
        DetachWellFormed(s, root, root);
      }
      DeleteFromNode(root);
      root := null;
    }

    /**
     * `deep_copy(other.root())`: this empty tree gets a fresh copy of every
     * node of `other`, made breadth first from a queue of (original, copy)
     * pairs; each copy holds its original's value, and its links are its
     * original's links renamed to copies.  The copy holds the same abstract
     * tree as `other` and shares no node with it.
     */
    method DeepCopy(other: GeneralTree<T>)
      requires other.Valid() && other != this && root == null && nodes == map[]
      modifies this
      ensures Valid() && Contents() == other.Contents() && Separate(other)
    {
      if other.root == null {
        sub := map[];
        assert View() == Empty();
        return;
      }
      ghost var s := other.View();
      var original: NodeRef := other.root;
      var copyRoot := new NodeRef();
      nodes := map[copyRoot := Node(other.nodes[original].data, null, null, null)];
      root := copyRoot;
      ghost var f: map<NodeRef, NodeRef>, g: map<NodeRef, NodeRef> := map[original := copyRoot], map[copyRoot := original];
      var queue: seq<(NodeRef, NodeRef)> := [(original, copyRoot)];
      ghost var P := s.sub.Keys;
      CopyStart(s, original, copyRoot);
      while queue != []
        invariant root == copyRoot && original in f && f[original] == copyRoot
        invariant PartialCopy(s, f, g, nodes) && Paired(f, queue)
        invariant f.Keys == (s.sub.Keys - P) + Queued(queue) && Frontier(s, Firsts(queue), P)
        invariant nodes.Keys !! other.nodes.Keys
        decreases P
      {
        var originalNode, copiedNode := queue[0].0, queue[0].1;
        CopyPop(s, original, f, P, queue);
        ghost var X, P' := P - SubtreeNodes(s, originalNode), P - {originalNode};
        queue := queue[1..];
        nodes, queue, f, g := CopyChildren(other.nodes, s, original, nodes, f, g, P', queue, X, originalNode, copiedNode);
        P := P';
      }
      assert P == {};
      CopyComplete(s, original, f, g, nodes);
      sub := CopyStore(s, f, g, nodes).sub;
      assert View() == CopyStore(s, f, g, nodes);
    }

    /**
     * `delete_left_child(n)`: the first child of `n` and its descendants
     * leave the tree, so its tree loses its first subtree; nothing happens
     * when `n` has no child.  A null `n` is refused.
     */
    method DeleteLeftChild(n: Ptr) returns (r: Outcome)
      requires Valid() && (n == null || n in nodes)
      modifies this
      ensures n == null ==> r == Failure(NullHandle) && unchanged(this)
      ensures n != null ==> r == Success && Valid() && root == old(root) && n in nodes
      ensures n != null && old(nodes[n].left) == null ==> unchanged(this)
      ensures n != null && old(nodes[n].left) != null ==>
        && old(nodes[n].left) in old(sub) && View() == Detach(old(View()), old(nodes[n].left))
        && |old(Subtree(View(), n).children)| > 0
        && Subtree(View(), n) == Tree(old(nodes[n].data), old(Subtree(View(), n).children)[1..])
    {
      if n == null {
        return Failure(NullHandle);
      }
      ghost var s := View();
      var p := nodes[n].left;
      if p != null {
        assert RankedAt(s, n) && ParentAt(s, root, n) && ParentAt(s, root, p);
        assert ChildIds(s, n)[0] == p;
        DetachEffect(s, root, p);
      }
      DeleteFromNode(p);
      r := Success;
    }

    /**
     * `delete_right_sibling(n)`: the next sibling of `n` and its descendants
     * leave the tree, so the tree of `n`'s parent loses the subtree right
     * after `n`'s; nothing happens when `n` is the last child.  A null `n`
     * and the root are refused.
     */
    method DeleteRightSibling(n: Ptr) returns (r: Outcome)
      requires Valid() && (n == null || n in nodes)
      modifies this
      ensures n == null ==> r == Failure(NullHandle) && unchanged(this)
      ensures n != null && n == old(root) ==> r == Failure(InvalidOperation) && unchanged(this)
      ensures n != null && n != old(root) ==> r == Success && Valid() && root == old(root) && n in nodes
      ensures n != null && n != old(root) && old(nodes[n].right) == null ==> unchanged(this)
      ensures n != null && n != old(root) && old(nodes[n].right) != null ==>
        var q := old(nodes[n].parent);
        && old(nodes[n].right) in old(sub) && View() == Detach(old(View()), old(nodes[n].right))
        && q != null && q in old(sub) && q in nodes
        && |old(Subtree(View(), q).children)| == |old(ChildIds(View(), q))|
        && forall j | 0 <= j < |old(ChildIds(View(), q))| && old(ChildIds(View(), q))[j] == n ::
             && j + 1 < |old(ChildIds(View(), q))|
             && Subtree(View(), q) == Tree(old(nodes[q].data),
                  old(Subtree(View(), q).children)[..j + 1] + old(Subtree(View(), q).children)[j + 2..])
    {
      if n == null {
        return Failure(NullHandle);
      }
      ghost var s := View();
      assert ParentAt(s, root, n);
      if nodes[n].parent == null {
        return Failure(InvalidOperation);
      }
      var p := nodes[n].right;
      if p != null {
        ghost var q := nodes[n].parent;
        assert ParentAt(s, root, p) && RankedAt(s, n) && RankedAt(s, p);
        assert n !in SubtreeNodes(s, p);
        DetachEffect(s, root, p);
        ghost var C := ChildIds(s, q);
        assert RankedAt(s, q);
        ghost var kids := Subtree(s, q).children;
        forall j | 0 <= j < |C| && C[j] == n
          ensures j + 1 < |C| && Subtree(Detach(s, p), q) == Tree(s.nodes[q].data, kids[..j + 1] + kids[j + 2..])
        {
          NextInChain(s, s.nodes[q].left, j);
          assert C[j + 1] == p;
        }
      }
      DeleteFromNode(p);
      r := Success;
    }
  }

  /**
   * The place of `n` among its siblings: the root has no parent and no next
   * sibling; any other node is one of its parent's children, its next
   * sibling is the child right after it, and it has none exactly when it is
   * the last child.
   */
  lemma SiblingsOf<T>(s: Store<T>, root: Ptr, n: NodeRef)
    requires WellFormed(s, root) && n in s.sub
    ensures var p, r := s.nodes[n].parent, s.nodes[n].right;
      && (p == null <==> n == root) && (n == root ==> r == null)
      && (p != null ==> && p in s.sub && n in ChildIds(s, p)
                        && (r == null <==> ChildIds(s, p)[|ChildIds(s, p)| - 1] == n)
                        && forall j | 0 <= j < |ChildIds(s, p)| && ChildIds(s, p)[j] == n ::
                             && (r == null <==> j + 1 == |ChildIds(s, p)|)
                             && (r != null ==> r == ChildIds(s, p)[j + 1]))
  {
    assert ParentAt(s, root, n);
    var p := s.nodes[n].parent;
    if p != null {
      ChildIdsAreChildren(s, root, p, n);
      assert RankedAt(s, p);
      var C := ChildIds(s, p);
      ChainInside(s, s.nodes[p].left);
      forall j | 0 <= j < |C| && C[j] == n
        ensures (s.nodes[n].right == null <==> j + 1 == |C|)
        ensures s.nodes[n].right != null ==> s.nodes[n].right == C[j + 1]
      {
        NextInChain(s, s.nodes[p].left, j);
      }
      var j :| 0 <= j < |C| && C[j] == n;
      if C[|C| - 1] == n {
        assert j == |C| - 1;
      }
    }
  }

  /**
   * `operator==`: two trees are equal exactly when they hold the same
   * abstract tree.  Trees with the same root handle (two empty trees, or
   * this very tree) are equal at once; otherwise the root values are
   * compared, then, breadth first from a queue of node pairs, the values of
   * the children of each pair, first to last, and their numbers.
   */
  method Equal<T(==)>(a: GeneralTree<T>, b: GeneralTree<T>) returns (r: bool)
    requires a.Valid() && b.Valid() && (a == b || a.Separate(b))
    ensures r <==> a.Contents() == b.Contents()
  {
    if a.root == b.root {
      return true;
    }
    if a.root == null || b.root == null {
      return false;
    }
    ghost var s1, s2 := a.View(), b.View();
    if a.nodes[a.root].data != b.nodes[b.root].data {
      RootsDiffer(s1, s2, a.root, b.root);
      return false;
    }
    var queue: seq<(NodeRef, NodeRef)> := [(a.root, b.root)];
    ghost var P := s1.sub.Keys;
    MatchStart(s1, s2, a.root, b.root);
    while queue != []
      invariant Twinned(s1, s2, queue) && Frontier(s1, Firsts(queue), P)
      invariant AllSame(s1, s2, queue) <==> a.Contents() == b.Contents()
      decreases P
    {
      var x, y := queue[0].0, queue[0].1;
      MatchPop(s1, s2, P, queue);
      ghost var X, P' := P - SubtreeNodes(s1, x), P - {x};
      queue := queue[1..];
      var ok;
      ok, queue := MatchChildren(a.nodes, b.nodes, s1, s2, queue, X, P', a.nodes[x].left, b.nodes[y].left);
      if !ok {
        return false;
      }
      P := P';
    }
    return true;
  }

  /**
   * The null handle, such as the root of an empty tree, answers every
   * navigation with the null handle and every structural test with false,
   * however the navigations are chained.
   */
  lemma NullHandleQueries<T>(t: GeneralTree<T>)
    requires t.Valid()
    ensures !t.IsRoot(null) && !t.IsLeaf(null) && !t.HasLeftChild(null) && !t.HasRightSibling(null)
    ensures t.LeftChild(null) == null && t.RightSibling(null) == null && t.Parent(null) == null
    ensures t.LeftChild(t.Parent(t.RightSibling(t.LeftChild(null)))) == null
  {
  }

  /**
   * The children loop of `operator==`: the chains from `c10` in `n1` and from
   * `c20` in `n2` are walked together; a pair of children holding different
   * values ends the walk with false, every other pair is queued, and the walk
   * ends with false when one chain is longer.  It yields true exactly when
   * the queued pairs so far and the two chains can still make the trees
   * equal, and then the queued and the pending nodes are those of `P`.
   */
  method MatchChildren<T(==)>(n1: map<NodeRef, Node<T>>, n2: map<NodeRef, Node<T>>, ghost s1: Store<T>, ghost s2: Store<T>,
                              queue0: seq<(NodeRef, NodeRef)>, ghost X0: set<NodeRef>, ghost P: set<NodeRef>, c10: Ptr, c20: Ptr)
    returns (ok: bool, queue: seq<(NodeRef, NodeRef)>)
    requires s1.nodes == n1 && s2.nodes == n2 && Ranked(s1) && Ranked(s2)
    requires Linked(s1, c10) && Linked(s2, c20) && Twinned(s1, s2, queue0)
    requires Frontier(s1, Firsts(queue0), X0) && X0 !! Below(s1, c10) && X0 + Below(s1, c10) == P
    ensures Twinned(s1, s2, queue)
    ensures ok ==> Frontier(s1, Firsts(queue), P)
    ensures AllSame(s1, s2, queue0) && Forest(s1, c10) == Forest(s2, c20) <==> ok && AllSame(s1, s2, queue)
  {
    queue := queue0;
    ghost var X := X0;
    var c1, c2 := c10, c20;
    while c1 != null && c2 != null
      invariant Linked(s1, c1) && Linked(s2, c2) && Twinned(s1, s2, queue)
      invariant Frontier(s1, Firsts(queue), X) && X !! Below(s1, c1) && X + Below(s1, c1) == P
      invariant AllSame(s1, s2, queue0) && Forest(s1, c10) == Forest(s2, c20) <==>
        AllSame(s1, s2, queue) && Forest(s1, c1) == Forest(s2, c2)
      decreases Below(s1, c1)
    {
      var p1: NodeRef, p2: NodeRef := c1, c2;
      if n1[p1].data != n2[p2].data {
        ForestHeads(s1, s2, p1, p2);
        return false, queue;
      }
      MatchPush(s1, s2, queue, p1, p2);
      FrontierPushPair(s1, queue, X, p1, p2);
      queue := queue + [(p1, p2)];
      X := X + SubtreeNodes(s1, p1);
      c1, c2 := n1[p1].right, n2[p2].right;
    }
    ForestHeads(s1, s2, c1, c2);
    if c1 != null || c2 != null {
      return false, queue;
    }
    assert X == P;
    ok := true;
  }

  /**
   * The children loop of `deep_copy`: each child of `originalNode` in the
   * node map `src`, first to last, gets a fresh copy whose parent is
   * `copiedNode`, linked as the first child of `copiedNode` or as the next
   * sibling of the previous copy, and the pair is queued.  `X` and what the
   * first child reaches make up the nodes still to copy, `P`.
   */
  method CopyChildren<T>(src: map<NodeRef, Node<T>>, ghost s: Store<T>, ghost original: NodeRef, cn0: map<NodeRef, Node<T>>,
                         ghost f0: map<NodeRef, NodeRef>, ghost g0: map<NodeRef, NodeRef>, ghost P: set<NodeRef>,
                         queue0: seq<(NodeRef, NodeRef)>, ghost X0: set<NodeRef>, originalNode: NodeRef, copiedNode: NodeRef)
    returns (cn: map<NodeRef, Node<T>>, queue: seq<(NodeRef, NodeRef)>, ghost f: map<NodeRef, NodeRef>, ghost g: map<NodeRef, NodeRef>)
    requires s.nodes == src && WellFormed(s, original)
    requires original in f0 && PartialCopy(s, f0, g0, cn0) && Paired(f0, queue0)
    requires f0.Keys == (s.sub.Keys - P) + Queued(queue0) && Frontier(s, Firsts(queue0), X0)
    requires originalNode in s.sub && originalNode in src
    requires var l := src[originalNode].left;
      Linked(s, l) && (l != null ==> src[l].parent == originalNode) && X0 !! Below(s, l) && X0 + Below(s, l) == P
    requires originalNode in f0 && f0[originalNode] == copiedNode && cn0.Keys !! src.Keys
    ensures original in f && f[original] == f0[original]
    ensures PartialCopy(s, f, g, cn) && Paired(f, queue)
    ensures f.Keys == (s.sub.Keys - P) + Queued(queue) && Frontier(s, Firsts(queue), P)
    ensures cn.Keys !! src.Keys
  {
    cn, f, g, queue := cn0, f0, g0, queue0;
    ghost var X := X0;
    var childOriginal := src[originalNode].left;
    var prevCopiedChild: Ptr := null;
    ghost var prevOriginal := originalNode;
    while childOriginal != null
      invariant original in f && f[original] == f0[original]
      invariant PartialCopy(s, f, g, cn) && Paired(f, queue)
      invariant f.Keys == (s.sub.Keys - P) + Queued(queue)
      invariant Linked(s, childOriginal) && Frontier(s, Firsts(queue), X)
      invariant X !! Below(s, childOriginal) && X + Below(s, childOriginal) == P
      invariant childOriginal != null ==> src[childOriginal].parent == originalNode
      invariant originalNode in f && f[originalNode] == copiedNode && prevOriginal in f
      invariant prevCopiedChild == null ==> prevOriginal == originalNode && src[originalNode].left == childOriginal
      invariant prevCopiedChild != null ==> f[prevOriginal] == prevCopiedChild && src[prevOriginal].right == childOriginal
      invariant cn.Keys !! src.Keys
      decreases Below(s, childOriginal)
    {
      var c: NodeRef := childOriginal;
      var childCopy := new NodeRef();
      var first := prevCopiedChild == null;
      var owner: NodeRef := if first then copiedNode else prevCopiedChild;
      CopyChildStep(s, original, f, g, cn, P, queue, X, originalNode, prevOriginal, first, c, childCopy, copiedNode, owner);
      CopyQueueStep(s, original, P, queue, X, originalNode, c, childCopy);
      QueuedPush(f, queue, c, childCopy, s.sub.Keys - P);
      // the copy's parent, then the link to it: the first child of the
      // copied node, else the next sibling of the previous copied child
      cn := cn[childCopy := Node(src[c].data, null, null, copiedNode)];
      var o := cn[owner];
      cn := cn[owner := if first then o.(left := childCopy) else o.(right := childCopy)];
      queue := queue + [(c, childCopy)];
      f, g := f[c := childCopy], g[childCopy := c];
      X := X + SubtreeNodes(s, c);
      prevCopiedChild, prevOriginal := childCopy, c;
      childOriginal := src[c].right;
    }
    assert X == P;
  }
}
