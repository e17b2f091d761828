/**
 * The constant-space cursor steps of `general_tree_iterator` as functions on
 * a node store, and the proof that repeated stepping from the first node
 * visits the tree's nodes in preorder (or postorder) and then reaches null.
 */
module Traversal {
  import opened AbstractTree
  import opened Links

  /** The two visiting orders of the tree's cursors. */
  datatype IterationType = PreorderIteration | PostorderIteration

  /**
   * What comes after `n` and all its descendants in preorder: `n`'s next
   * sibling or, when it has none, what comes after its parent; null past
   * the root.
   */
  ghost function Climb<T>(s: Store<T>, root: Ptr, n: Ptr): Ptr
    requires WellFormed(s, root) && Linked(s, n)
    decreases s.sub.Keys - Below(s, n)
  {
    if n == null then null
    else if s.nodes[n].right != null then s.nodes[n].right
    else if s.nodes[n].parent == null then null
    else
      ParentReachesMore(s, root, n);
      assert RankedAt(s, s.nodes[n].parent);
      Climb(s, root, s.nodes[n].parent)
  }

  /** One preorder step: first child, else next sibling, else climb to the first ancestor with a next sibling. */
  ghost function PreStep<T>(s: Store<T>, root: Ptr, x: NodeRef): Ptr
    requires WellFormed(s, root) && x in s.sub
  {
    assert RankedAt(s, x) && ParentAt(s, root, x);
    var n := s.nodes[x];
    if n.left != null then n.left
    else if n.right != null then n.right
    else Climb(s, root, n.parent)
  }

  /** The node reached from `c` by following first children to the end. */
  ghost function Leftmost<T>(s: Store<T>, c: NodeRef): NodeRef
    requires Ranked(s) && c in s.sub
    decreases s.sub[c]
  {
    assert RankedAt(s, c);
    if s.nodes[c].left == null then c else Leftmost(s, s.nodes[c].left)
  }

  /** One postorder step: the leftmost node below the next sibling, else the parent. */
  ghost function PostStep<T>(s: Store<T>, root: Ptr, x: NodeRef): Ptr
    requires WellFormed(s, root) && x in s.sub
  {
    assert RankedAt(s, x) && ParentAt(s, root, x);
    var n := s.nodes[x];
    if n.right != null then Leftmost(s, n.right) else n.parent
  }

  /** The node a cursor of the given order starts at: the root, or the leftmost node for postorder. */
  ghost function First<T>(s: Store<T>, root: Ptr, order: IterationType): Ptr
    requires WellFormed(s, root)
  {
    if root == null then null
    else if order == PreorderIteration then root
    else Leftmost(s, root)
  }

  /** One step of a cursor of the given order from the node `x`. */
  ghost function Step<T>(s: Store<T>, root: Ptr, order: IterationType, x: NodeRef): Ptr
    requires WellFormed(s, root) && x in s.sub
  {
    if order == PreorderIteration then PreStep(s, root, x) else PostStep(s, root, x)
  }

  /** The nodes of the whole tree in the given order. */
  ghost function Visit<T>(s: Store<T>, root: Ptr, order: IterationType): seq<NodeRef>
    requires WellFormed(s, root)
  {
    if order == PreorderIteration then PreIds(s, root) else PostIds(s, root)
  }

  /** What follows position `i` of `xs`, when `xs` is followed by `after`. */
  function Successor<X>(xs: seq<X>, i: nat, after: X): X
    requires i < |xs|
  {
    if i + 1 < |xs| then xs[i + 1] else after
  }

  /** In front of `ys`, the successor in `xs` is the successor in `xs + ys`. */
  lemma SuccessorFront<X>(xs: seq<X>, ys: seq<X>, i: nat, after: X)
    requires i < |xs|
    ensures (xs + ys)[i] == xs[i]
    ensures Successor(xs + ys, i, after) == Successor(xs, i, if |ys| > 0 then ys[0] else after)
  {
  }

  /** Behind `xs`, the successor in `ys` is the successor in `xs + ys`. */
  lemma SuccessorBack<X>(xs: seq<X>, ys: seq<X>, i: nat, after: X)
    requires |xs| <= i < |xs| + |ys|
    ensures (xs + ys)[i] == ys[i - |xs|]
    ensures Successor(xs + ys, i, after) == Successor(ys, i - |xs|, after)
  {
  }

  /**
   * Within the preorder of the chain from `c`, each step leads to the next
   * node; the last one leads to what follows the chain (`after`, the node
   * that follows `c`'s parent subtree).
   */
  lemma {:induction false} PreorderWalk<T>(s: Store<T>, root: Ptr, c: Ptr, after: Ptr)
    requires WellFormed(s, root) && Linked(s, c)
    requires c != null ==> ParentAt(s, root, c) && after == Climb(s, root, s.nodes[c].parent)
    ensures forall i | 0 <= i < |PreIds(s, c)| ::
      PreIds(s, c)[i] in s.sub && PreStep(s, root, PreIds(s, c)[i]) == Successor(PreIds(s, c), i, after)
    decreases Below(s, c)
  {
    if c != null {
      OrdersInside(s, c);
      assert RankedAt(s, c) && ParentAt(s, root, c);
      var l, r := s.nodes[c].left, s.nodes[c].right;
      var A, B := PreIds(s, l), PreIds(s, r);
      var P := PreIds(s, c);
      assert P == [c] + A + B;
      var after' := if r != null then r else after;
      if l != null {
        assert ParentAt(s, root, l);
        assert A[0] == l;
      }
      if r != null {
        assert ParentAt(s, root, r);
        assert B[0] == r;
      }
      PreorderWalk(s, root, l, after');
      PreorderWalk(s, root, r, after);
      forall i | 0 <= i < |P|
        ensures P[i] in s.sub && PreStep(s, root, P[i]) == Successor(P, i, after)
      {
        if 0 < i <= |A| {
          SuccessorBack([c], A + B, i, after);
          SuccessorFront(A, B, i - 1, after);
        } else if i > |A| {
          assert P == ([c] + A) + B;
          SuccessorBack([c] + A, B, i, after);
        }
      }
    }
  }

  /**
   * Within the postorder of the chain from `c`, which starts at the leftmost
   * node below `c`, each step leads to the next node; the last one leads to
   * `after`, the chain's parent.
   */
  lemma {:induction false} PostorderWalk<T>(s: Store<T>, root: Ptr, c: Ptr, after: Ptr)
    requires WellFormed(s, root) && Linked(s, c)
    requires c != null ==> after == s.nodes[c].parent
    ensures forall i | 0 <= i < |PostIds(s, c)| ::
      PostIds(s, c)[i] in s.sub && PostStep(s, root, PostIds(s, c)[i]) == Successor(PostIds(s, c), i, after)
    decreases Below(s, c)
  {
    if c != null {
      OrdersInside(s, c);
      assert RankedAt(s, c) && ParentAt(s, root, c);
      var l, r := s.nodes[c].left, s.nodes[c].right;
      var A, B := PostIds(s, l), PostIds(s, r);
      var Q := PostIds(s, c);
      assert Q == A + [c] + B;
      if l != null {
        assert ParentAt(s, root, l);
      }
      if r != null {
        assert ParentAt(s, root, r);
      }
      PostorderWalk(s, root, l, c);
      PostorderWalk(s, root, r, after);
      if r != null {
        PostorderStart(s, r);
      }
      forall i | 0 <= i < |Q|
        ensures Q[i] in s.sub && PostStep(s, root, Q[i]) == Successor(Q, i, after)
      {
        if i < |A| {
          SuccessorFront(A, [c] + B, i, after);
        } else if i == |A| {
          SuccessorBack(A, [c] + B, i, after);
        } else {
          assert Q == (A + [c]) + B;
          SuccessorBack(A + [c], B, i, after);
        }
      }
    }
  }

  /** The postorder of the chain from `c` starts at the leftmost node below `c`. */
  lemma {:induction false} PostorderStart<T>(s: Store<T>, c: NodeRef)
    requires Ranked(s) && c in s.sub
    ensures |PostIds(s, c)| > 0 && PostIds(s, c)[0] == Leftmost(s, c)
    decreases s.sub[c]
  {
    assert RankedAt(s, c);
    var l := s.nodes[c].left;
    if l != null {
      PostorderStart(s, l);
    }
  }

  /**
   * From the first node of either order, each step of a cursor leads to the
   * next node of the tree in that order, and the step from the last node
   * leads to null, the end cursor.
   */
  lemma Enumerates<T>(s: Store<T>, root: Ptr, order: IterationType)
    requires WellFormed(s, root)
    ensures var V := Visit(s, root, order);
      && (root == null <==> |V| == 0)
      && (|V| > 0 ==> V[0] == First(s, root, order))
      && forall i | 0 <= i < |V| :: V[i] in s.sub && Step(s, root, order, V[i]) == Successor(V, i, null)
  {
    if root != null {
      assert ParentAt(s, root, root);
    }
    if order == PreorderIteration {
      PreorderWalk(s, root, root, null);
    } else {
      PostorderWalk(s, root, root, null);
      if root != null {
        PostorderStart(s, root);
      }
    }
  }

  /** The nodes listed in either order are the nodes of the tree, each once; the values they hold are the tree's values in that order. */
  lemma VisitMatches<T>(s: Store<T>, root: Ptr, order: IterationType)
    requires WellFormed(s, root)
    ensures var V := Visit(s, root, order);
      && Distinct(V) && (forall x :: x in V <==> x in s.sub)
      && Values(s, V) == match Abs(s, root)
        case None => []
        case Some(t) => if order == PreorderIteration then AbstractTree.Preorder(t) else AbstractTree.Postorder(t)
  {
    PreIdsCover(s, root);
    PostIdsCover(s, root);
    PreorderMatches(s, root);
    PostorderMatches(s, root);
    if root != null {
      assert RankedAt(s, root);
      assert Forest(s, root) == [Subtree(s, root)] + Forest(s, null);
      ForestCons(Subtree(s, root), []);
    }
  }

  /**
   * A preorder cursor meets every node before all the nodes below it (those
   * reached from its first child), and a postorder cursor after all of them.
   */
  lemma DescendantsOrder<T>(s: Store<T>, root: Ptr, order: IterationType)
    requires WellFormed(s, root)
    ensures var V := Visit(s, root, order);
      forall i | 0 <= i < |V| ::
        && V[i] in s.sub
        && forall x | x in Below(s, s.nodes[V[i]].left) ::
             if order == PreorderIteration then x in V[i + 1..] else x in V[..i]
  {
    if order == PreorderIteration {
      PreorderDescendantsAfter(s, root);
    } else {
      PostorderDescendantsBefore(s, root);
    }
  }
}
