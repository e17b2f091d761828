/**
 * The abstract value the left-child/right-sibling store encodes: an ordered
 * n-ary (rose) tree, and the two visiting orders that the tree's cursors
 * enumerate.
 */
module AbstractTree {

  /** An ordered tree: a value and the ordered sequence of its child trees. */
  datatype Tree<T> = Tree(value: T, children: seq<Tree<T>>)

  /** Preorder: a node, then the preorder of each child from left to right. */
  function Preorder<T>(t: Tree<T>): seq<T>
    decreases t
  {
    [t.value] + PreorderForest(t.children)
  }

  function PreorderForest<T>(ts: seq<Tree<T>>): seq<T>
    decreases ts
  {
    if ts == [] then [] else Preorder(ts[0]) + PreorderForest(ts[1..])
  }

  /** Postorder: the postorder of each child from left to right, then the node. */
  function Postorder<T>(t: Tree<T>): seq<T>
    decreases t
  {
    PostorderForest(t.children) + [t.value]
  }

  function PostorderForest<T>(ts: seq<Tree<T>>): seq<T>
    decreases ts
  {
    if ts == [] then [] else Postorder(ts[0]) + PostorderForest(ts[1..])
  }

  /** The orders of a forest are those of its first tree followed by those of the rest. */
  lemma ForestCons<T>(t: Tree<T>, ts: seq<Tree<T>>)
    ensures PreorderForest([t] + ts) == Preorder(t) + PreorderForest(ts)
    ensures PostorderForest([t] + ts) == Postorder(t) + PostorderForest(ts)
  {
  }

  /** Number of nodes of a tree. */
  function Size<T>(t: Tree<T>): nat
    decreases t
  {
    1 + SizeForest(t.children)
  }

  function SizeForest<T>(ts: seq<Tree<T>>): nat
    decreases ts
  {
    if ts == [] then 0 else Size(ts[0]) + SizeForest(ts[1..])
  }

  /** Both orders visit every node exactly once: their length is the size. */
  lemma {:induction false} OrdersHaveSize<T>(t: Tree<T>)
    ensures |Preorder(t)| == Size(t) && |Postorder(t)| == Size(t)
    decreases t
  {
    OrdersHaveSizeForest(t.children);
  }

  lemma {:induction false} OrdersHaveSizeForest<T>(ts: seq<Tree<T>>)
    ensures |PreorderForest(ts)| == SizeForest(ts) && |PostorderForest(ts)| == SizeForest(ts)
    decreases ts
  {
    if ts != [] {
      OrdersHaveSize(ts[0]);
      OrdersHaveSizeForest(ts[1..]);
    }
  }

  /**
   * The balanced example: 1 with children 2 and 3, 2 with children 4 and 5,
   * 3 with the single child 6.
   */
  lemma BalancedExample()
    ensures var t := Tree(1, [Tree(2, [Tree(4, []), Tree(5, [])]), Tree(3, [Tree(6, [])])]);
      && Preorder(t) == [1, 2, 4, 5, 3, 6] && Postorder(t) == [4, 5, 2, 6, 3, 1] && Size(t) == 6
  {
  }
}
