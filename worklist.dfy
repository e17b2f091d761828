/**
 * The breadth-first worklists of `general-tree.h` (deletion, deep copy,
 * equality, descendant counting): a queue of nodes whose subtrees are
 * pairwise disjoint and together make up the part of the tree still to be
 * visited.
 */
module Worklist {
  import opened Links
  import opened Edits

  /** The subtrees of the queued nodes are pairwise disjoint and their union is `S`. */
  ghost predicate Frontier<T>(s: Store<T>, q: seq<NodeRef>, S: set<NodeRef>)
    requires Ranked(s)
    decreases |q|
  {
    if q == [] then S == {}
    else q[0] in s.sub && SubtreeNodes(s, q[0]) <= S && Frontier(s, q[1..], S - SubtreeNodes(s, q[0]))
  }

  /** The first components of a queue of pairs. */
  function Firsts<X, Y>(q: seq<(X, Y)>): seq<X>
  {
    seq(|q|, i requires 0 <= i < |q| => q[i].0)
  }

  lemma FirstsPop<X, Y>(q: seq<(X, Y)>)
    requires q != []
    ensures Firsts(q) != [] && Firsts(q)[0] == q[0].0 && Firsts(q[1..]) == Firsts(q)[1..]
  {
  }

  lemma FirstsPush<X, Y>(q: seq<(X, Y)>, x: X, y: Y)
    ensures Firsts(q + [(x, y)]) == Firsts(q) + [x]
  {
  }

  /** Every queued node is pending, and there are at least as many pending nodes as queued ones. */
  lemma {:induction false} FrontierInside<T>(s: Store<T>, q: seq<NodeRef>, S: set<NodeRef>)
    requires Ranked(s) && Frontier(s, q, S)
    ensures forall x | x in q :: x in S && x in s.sub
    ensures |q| <= |S|
    decreases |q|
  {
    if q != [] {
      assert RankedAt(s, q[0]);
      FrontierInside(s, q[1..], S - SubtreeNodes(s, q[0]));
      assert forall x | x in q[1..] :: x in S;
      assert q[0] in SubtreeNodes(s, q[0]);
      assert |S - SubtreeNodes(s, q[0])| < |S|;
    }
  }

  /** A node whose subtree is disjoint from the pending nodes can be queued at the back. */
  lemma {:induction false} FrontierPush<T>(s: Store<T>, q: seq<NodeRef>, S: set<NodeRef>, c: NodeRef)
    requires Ranked(s) && Frontier(s, q, S) && c in s.sub && SubtreeNodes(s, c) !! S
    ensures Frontier(s, q + [c], S + SubtreeNodes(s, c))
    decreases |q|
  {
    if q == [] {
      assert [c][1..] == [];
      assert (S + SubtreeNodes(s, c)) - SubtreeNodes(s, c) == {};
    } else {
      var h := SubtreeNodes(s, q[0]);
      FrontierPush(s, q[1..], S - h, c);
      assert (q + [c])[1..] == q[1..] + [c];
      assert (S + SubtreeNodes(s, c)) - h == (S - h) + SubtreeNodes(s, c);
    }
  }

  /** What a link reaches splits into the target's own subtree and what its next sibling reaches. */
  lemma ChainSplit<T>(s: Store<T>, c: NodeRef)
    requires Ranked(s) && c in s.sub
    ensures Linked(s, s.nodes[c].right)
    ensures Below(s, c) == SubtreeNodes(s, c) + Below(s, s.nodes[c].right)
    ensures SubtreeNodes(s, c) !! Below(s, s.nodes[c].right)
  {
    assert RankedAt(s, c);
  }

  /**
   * Popping the front node and queueing its children, first to last, keeps
   * the frontier: afterwards the pending nodes are the old ones minus the
   * popped node.
   */
  lemma PopFront<T>(s: Store<T>, q: seq<NodeRef>, S: set<NodeRef>)
    requires Ranked(s) && Frontier(s, q, S) && q != []
    ensures q[0] in s.sub && q[0] in S
    ensures Linked(s, s.nodes[q[0]].left)
    ensures var X := S - SubtreeNodes(s, q[0]);
      && Frontier(s, q[1..], X) && X !! Below(s, s.nodes[q[0]].left)
      && X + Below(s, s.nodes[q[0]].left) == S - {q[0]}
  {
    assert RankedAt(s, q[0]);
  }

  /** Queueing the next child of the popped node keeps the inner-loop frontier. */
  lemma PushChild<T>(s: Store<T>, q: seq<NodeRef>, X: set<NodeRef>, c: NodeRef)
    requires Ranked(s) && Frontier(s, q, X) && c in s.sub && X !! Below(s, c)
    ensures Linked(s, s.nodes[c].right)
    ensures var X' := X + SubtreeNodes(s, c);
      && Frontier(s, q + [c], X') && X' !! Below(s, s.nodes[c].right)
      && X' + Below(s, s.nodes[c].right) == X + Below(s, c)
      && |X'| + |Below(s, s.nodes[c].right)| == |X| + |Below(s, c)|
  {
    ChainSplit(s, c);
    FrontierPush(s, q, X, c);
  }

  // ---------------------------------------------------------------------
  // The queue of (original, copy) pairs of the deep copy
  // ---------------------------------------------------------------------

  /** The originals of a queue of (original, copy) pairs. */
  ghost function Queued(q: seq<(NodeRef, NodeRef)>): set<NodeRef>
  {
    set x | x in Firsts(q)
  }

  /** Each queued pair is an original and its copy under `f`. */
  ghost predicate Paired(f: map<NodeRef, NodeRef>, q: seq<(NodeRef, NodeRef)>)
  {
    forall i | 0 <= i < |q| :: q[i].0 in f && f[q[i].0] == q[i].1
  }

  /** The copy starts with a copy `k` of the root, with no links, queued with its original. */
  lemma CopyStart<T>(s: Store<T>, root: NodeRef, k: NodeRef)
    requires WellFormed(s, root)
    ensures var f, g, q := map[root := k], map[k := root], [(root, k)];
      && PartialCopy(s, f, g, map[k := Node(s.nodes[root].data, null, null, null)])
      && Paired(f, q) && f.Keys == (s.sub.Keys - s.sub.Keys) + Queued(q)
      && Frontier(s, Firsts(q), s.sub.Keys)
  {
    var f, g, q := map[root := k], map[k := root], [(root, k)];
    assert RankedAt(s, root) && ParentAt(s, root, root);
    assert CopiedAt(s, f, g, map[k := Node(s.nodes[root].data, null, null, null)], root);
    assert Firsts(q) == [root];
    assert s.sub.Keys - SubtreeNodes(s, root) == {};
  }

  /**
   * Popping the front pair of the copy's queue: its original is copied and
   * pending, and the rest of the queue with the original's children still
   * to come describes the pending nodes without it.
   */
  lemma CopyPop<T>(s: Store<T>, root: Ptr, f: map<NodeRef, NodeRef>, P: set<NodeRef>, q: seq<(NodeRef, NodeRef)>)
    requires WellFormed(s, root) && Frontier(s, Firsts(q), P) && q != []
    requires Paired(f, q) && f.Keys == (s.sub.Keys - P) + Queued(q)
    ensures var c := q[0].0; var l := s.nodes[c].left; var X := P - SubtreeNodes(s, c);
      && c in s.sub && c in P && c in f && f[c] == q[0].1
      && Linked(s, l) && (l != null ==> s.nodes[l].parent == c)
      && Frontier(s, Firsts(q[1..]), X) && X !! Below(s, l) && X + Below(s, l) == P - {c}
      && Paired(f, q[1..]) && f.Keys == (s.sub.Keys - (P - {c})) + Queued(q[1..])
  {
    var c := q[0].0;
    FirstsPop(q);
    PopFront(s, Firsts(q), P);
    assert ParentAt(s, root, c);
    var X := P - SubtreeNodes(s, c);
    FrontierInside(s, Firsts(q[1..]), X);
    assert c in SubtreeNodes(s, c);
    PopPaired(f, q, s.sub.Keys, P);
  }

  /** The copies of a queue without its front pair, whose original leaves the pending set `P`. */
  lemma PopPaired(f: map<NodeRef, NodeRef>, q: seq<(NodeRef, NodeRef)>, K: set<NodeRef>, P: set<NodeRef>)
    requires q != [] && q[0].0 in K && q[0].0 in P
    requires Paired(f, q) && f.Keys == (K - P) + Queued(q)
    ensures q[0].0 in f && f[q[0].0] == q[0].1
    ensures Paired(f, q[1..]) && f.Keys == (K - (P - {q[0].0})) + Queued(q[1..])
  {
    QueuedPop(f, q);
  }

  /** The queue without its front pair. */
  lemma QueuedPop(f: map<NodeRef, NodeRef>, q: seq<(NodeRef, NodeRef)>)
    requires q != []
    ensures Queued(q) == {q[0].0} + Queued(q[1..])
    ensures Paired(f, q) ==> q[0].0 in f && f[q[0].0] == q[0].1 && Paired(f, q[1..])
  {
    FirstsPop(q);
    assert Firsts(q) == [q[0].0] + Firsts(q[1..]);
    if Paired(f, q) {
      forall i | 0 <= i < |q[1..]| ensures q[1..][i] == q[i + 1] { }
    }
  }

  /**
   * The queue with the pair `(x, y)` at the back, when `f` newly maps `x` to
   * `y`: the copied originals are still the ones in `K` and the queued ones.
   */
  lemma QueuedPush(f: map<NodeRef, NodeRef>, q: seq<(NodeRef, NodeRef)>, x: NodeRef, y: NodeRef, K: set<NodeRef>)
    requires Paired(f, q) && x !in f && f.Keys == K + Queued(q)
    ensures Queued(q + [(x, y)]) == Queued(q) + {x}
    ensures Paired(f[x := y], q + [(x, y)]) && f[x := y].Keys == K + Queued(q + [(x, y)])
  {
    FirstsPush(q, x, y);
    var q' := q + [(x, y)];
    forall i | 0 <= i < |q'|
      ensures q'[i].0 in f[x := y] && f[x := y][q'[i].0] == q'[i].1
    {
      if i < |q| {
        assert q'[i] == q[i];
      }
    }
  }

  /**
   * Copying the next child `child` of the popped original `current` to the
   * fresh node `k`, linked from the copy of `owner` (the popped node itself
   * for the first child, else the previous child), keeps the partial copy.
   */
  lemma CopyChildStep<T>(s: Store<T>, root: Ptr, f: map<NodeRef, NodeRef>, g: map<NodeRef, NodeRef>, cn: map<NodeRef, Node<T>>,
                         P: set<NodeRef>, q: seq<(NodeRef, NodeRef)>, X: set<NodeRef>,
                         current: NodeRef, owner: NodeRef, viaLeft: bool, child: NodeRef, k: NodeRef,
                         currentCopy: NodeRef, ownerCopy: NodeRef)
    requires WellFormed(s, root) && PartialCopy(s, f, g, cn)
    requires f.Keys == (s.sub.Keys - P) + Queued(q)
    requires Frontier(s, Firsts(q), X) && child in s.sub && X !! Below(s, child) && X + Below(s, child) == P
    requires current in f && f[current] == currentCopy && s.nodes[child].parent == current
    requires owner in f && f[owner] == ownerCopy
    requires if viaLeft then s.nodes[owner].left == child else s.nodes[owner].right == child
    requires k !in cn
    ensures child !in f && ownerCopy in cn && ownerCopy != k
    ensures var cn1 := cn[k := Node(s.nodes[child].data, null, null, currentCopy)];
      var o := cn1[ownerCopy];
      PartialCopy(s, f[child := k], g[k := child], cn1[ownerCopy := if viaLeft then o.(left := k) else o.(right := k)])
  {
    NotYetCopied(s, root, f, P, q, X, child);
    CopyExtend(s, root, f, g, cn, owner, viaLeft, child, k);
  }

  /**
   * Queueing the newly copied child keeps the frontier of the pending
   * nodes, and moves on to the child's next sibling.
   */
  lemma CopyQueueStep<T>(s: Store<T>, root: Ptr, P: set<NodeRef>, q: seq<(NodeRef, NodeRef)>,
                         X: set<NodeRef>, current: NodeRef, child: NodeRef, k: NodeRef)
    requires WellFormed(s, root)
    requires Frontier(s, Firsts(q), X) && child in s.sub && X !! Below(s, child) && X + Below(s, child) == P
    requires s.nodes[child].parent == current
    ensures var q', X' := q + [(child, k)], X + SubtreeNodes(s, child);
      var r := s.nodes[child].right;
      && Frontier(s, Firsts(q'), X') && Linked(s, r) && X' !! Below(s, r) && X' + Below(s, r) == P
      && Below(s, r) < Below(s, child)
      && (r != null ==> s.nodes[r].parent == current)
  {
    assert RankedAt(s, child) && ParentAt(s, root, child);
    PushChild(s, Firsts(q), X, child);
    FirstsPush(q, child, k);
  }

  /** A copy of every node of a tree is a tree, rooted at the copy of the root, holding the same abstract tree. */
  lemma CopyComplete<T>(s: Store<T>, root: NodeRef, f: map<NodeRef, NodeRef>, g: map<NodeRef, NodeRef>, cn: map<NodeRef, Node<T>>)
    requires WellFormed(s, root) && PartialCopy(s, f, g, cn) && f.Keys == s.sub.Keys
    ensures var c := CopyStore(s, f, g, cn);
      root in f && c.nodes == cn && WellFormed(c, f[root]) && Abs(c, f[root]) == Abs(s, root)
  {
    CopyWellFormed(s, root, f, g, cn);
  }

  /** No node reached from the next child to copy has been copied yet, and no copied node is its child. */
  lemma NotYetCopied<T>(s: Store<T>, root: Ptr, f: map<NodeRef, NodeRef>, P: set<NodeRef>, q: seq<(NodeRef, NodeRef)>,
                        X: set<NodeRef>, child: NodeRef)
    requires WellFormed(s, root) && f.Keys == (s.sub.Keys - P) + Queued(q)
    requires Frontier(s, Firsts(q), X) && child in s.sub && X !! Below(s, child) && X + Below(s, child) == P
    ensures child !in f
    ensures MapPtr(f, s.nodes[child].left) == null && MapPtr(f, s.nodes[child].right) == null
    ensures forall x | x in f :: x in s.nodes && s.nodes[x].parent != child
  {
    FrontierInside(s, Firsts(q), X);
    assert forall x | x in Below(s, child) :: x !in f;
    assert RankedAt(s, child);
    var l, r := s.nodes[child].left, s.nodes[child].right;
    if l != null {
      assert RankedAt(s, l);
    }
    if r != null {
      assert RankedAt(s, r);
    }
    forall x | x in f
      ensures s.nodes[x].parent != child
    {
      assert ParentAt(s, root, x);
    }
  }

  // ---------------------------------------------------------------------
  // The queue of node pairs of the equality test
  // ---------------------------------------------------------------------

  /** Each queued pair is a node of `s1` and a node of `s2` holding the same value. */
  ghost predicate Twinned<T>(s1: Store<T>, s2: Store<T>, q: seq<(NodeRef, NodeRef)>)
  {
    forall i | 0 <= i < |q| ::
      q[i].0 in s1.sub && q[i].1 in s2.sub && q[i].0 in s1.nodes && q[i].1 in s2.nodes
      && s1.nodes[q[i].0].data == s2.nodes[q[i].1].data
  }

  /** The two nodes of each queued pair carry the same abstract subtree. */
  ghost predicate AllSame<T>(s1: Store<T>, s2: Store<T>, q: seq<(NodeRef, NodeRef)>)
    requires Ranked(s1) && Ranked(s2) && Twinned(s1, s2, q)
  {
    forall i | 0 <= i < |q| :: Subtree(s1, q[i].0) == Subtree(s2, q[i].1)
  }

  /** The equality test starts from the pair of roots, which hold the same value. */
  lemma MatchStart<T>(s1: Store<T>, s2: Store<T>, r1: NodeRef, r2: NodeRef)
    requires WellFormed(s1, r1) && WellFormed(s2, r2) && s1.nodes[r1].data == s2.nodes[r2].data
    ensures var q := [(r1, r2)];
      && Twinned(s1, s2, q) && Frontier(s1, Firsts(q), s1.sub.Keys)
      && (AllSame(s1, s2, q) <==> Abs(s1, r1) == Abs(s2, r2))
  {
    var q := [(r1, r2)];
    assert RankedAt(s1, r1);
    assert Firsts(q) == [r1];
    assert s1.sub.Keys - SubtreeNodes(s1, r1) == {};
  }

  /** Two trees whose roots hold different values differ. */
  lemma RootsDiffer<T>(s1: Store<T>, s2: Store<T>, r1: NodeRef, r2: NodeRef)
    requires WellFormed(s1, r1) && WellFormed(s2, r2) && s1.nodes[r1].data != s2.nodes[r2].data
    ensures Abs(s1, r1) != Abs(s2, r2)
  {
    assert RankedAt(s1, r1) && RankedAt(s2, r2);
    assert Subtree(s1, r1).value != Subtree(s2, r2).value;
  }

  /** Two sibling chains carry the same forest only if both are empty or both start with nodes holding the same value. */
  lemma ForestHeads<T>(s1: Store<T>, s2: Store<T>, c1: Ptr, c2: Ptr)
    requires Ranked(s1) && Ranked(s2) && Linked(s1, c1) && Linked(s2, c2)
    ensures c1 == null && c2 == null ==> Forest(s1, c1) == Forest(s2, c2)
    ensures Forest(s1, c1) == Forest(s2, c2) ==> (c1 == null <==> c2 == null)
    ensures Forest(s1, c1) == Forest(s2, c2) && c1 != null && c2 != null ==>
      s1.nodes[c1].data == s2.nodes[c2].data
  {
    if c1 != null {
      assert RankedAt(s1, c1);
    }
    if c2 != null {
      assert RankedAt(s2, c2);
    }
    if c1 != null && c2 != null && Forest(s1, c1) == Forest(s2, c2) {
      assert Forest(s1, c1)[0] == Subtree(s1, c1);
      assert Forest(s2, c2)[0] == Subtree(s2, c2);
    }
  }

  /**
   * Popping the front pair of the equality queue: the queue holds equal
   * subtrees exactly when the rest does and the children of the popped pair
   * carry the same forest.
   */
  lemma MatchPop<T>(s1: Store<T>, s2: Store<T>, P: set<NodeRef>, q: seq<(NodeRef, NodeRef)>)
    requires Ranked(s1) && Ranked(s2) && Twinned(s1, s2, q) && Frontier(s1, Firsts(q), P) && q != []
    ensures var x, y := q[0].0, q[0].1;
      var l1, X := s1.nodes[x].left, P - SubtreeNodes(s1, x);
      && x in s1.sub && y in s2.sub && x in P && Linked(s1, l1) && Linked(s2, s2.nodes[y].left)
      && Twinned(s1, s2, q[1..])
      && Frontier(s1, Firsts(q[1..]), X) && X !! Below(s1, l1) && X + Below(s1, l1) == P - {x}
      && (AllSame(s1, s2, q) <==> AllSame(s1, s2, q[1..]) && Forest(s1, l1) == Forest(s2, s2.nodes[y].left))
  {
    var x, y := q[0].0, q[0].1;
    FirstsPop(q);
    PopFront(s1, Firsts(q), P);
    assert RankedAt(s2, y);
    assert forall i | 0 <= i < |q[1..]| :: q[1..][i] == q[i + 1];
    assert RankedAt(s1, x) && Subtree(s1, x).value == s1.nodes[x].data;
  }

  /**
   * Queueing the pair of next children `(c1, c2)`, which hold the same value:
   * the queue and the rest of the two chains still describe an equality of
   * trees exactly when they did before.
   */
  lemma MatchPush<T>(s1: Store<T>, s2: Store<T>, q: seq<(NodeRef, NodeRef)>, c1: NodeRef, c2: NodeRef)
    requires Ranked(s1) && Ranked(s2) && Twinned(s1, s2, q)
    requires c1 in s1.sub && c2 in s2.sub && s1.nodes[c1].data == s2.nodes[c2].data
    ensures var q', r1, r2 := q + [(c1, c2)], s1.nodes[c1].right, s2.nodes[c2].right;
      && Twinned(s1, s2, q') && Linked(s1, r1) && Linked(s2, r2)
      && (AllSame(s1, s2, q) && Forest(s1, c1) == Forest(s2, c2) <==> AllSame(s1, s2, q') && Forest(s1, r1) == Forest(s2, r2))
  {
    var q' := q + [(c1, c2)];
    assert RankedAt(s1, c1) && RankedAt(s2, c2);
    assert forall i | 0 <= i < |q| :: q'[i] == q[i];
    assert q'[|q|] == (c1, c2);
    assert AllSame(s1, s2, q') <==> AllSame(s1, s2, q) && Subtree(s1, c1) == Subtree(s2, c2);
    var F1, F2 := Forest(s1, c1), Forest(s2, c2);
    assert F1 == [Subtree(s1, c1)] + Forest(s1, s1.nodes[c1].right);
    assert F2 == [Subtree(s2, c2)] + Forest(s2, s2.nodes[c2].right);
    if F1 == F2 {
      assert F1[0] == F2[0] && F1[1..] == F2[1..];
    }
  }

  /** Queueing the pair of next children keeps the frontier of the first tree's pending nodes. */
  lemma FrontierPushPair<T, Y>(s: Store<T>, q: seq<(NodeRef, Y)>, X: set<NodeRef>, c: NodeRef, y: Y)
    requires Ranked(s) && Frontier(s, Firsts(q), X) && c in s.sub && X !! Below(s, c)
    ensures var q', X', r := q + [(c, y)], X + SubtreeNodes(s, c), s.nodes[c].right;
      && Linked(s, r) && Frontier(s, Firsts(q'), X') && X' !! Below(s, r) && X' + Below(s, r) == X + Below(s, c)
      && Below(s, r) < Below(s, c)
  {
    assert RankedAt(s, c);
    PushChild(s, Firsts(q), X, c);
    FirstsPush(q, c, y);
  }
}
