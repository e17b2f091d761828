/**
 * The node store of a general tree in left-child/right-sibling form.
 *
 * Every node of `general_tree<T>` is a `private_node` holding a value and
 * three links: `m_left_child` (first child), `m_right_sibling` (next
 * sibling) and `m_parent`.  Here a node is identified by a `NodeRef` (its
 * address) and its fields are its entry in the map `nodes`.  The map `sub`
 * gives, for every node, the nodes reachable from it through left and right
 * links (the node, its descendants, its later siblings and their
 * descendants); it is what makes the link graph provably acyclic and every
 * recursive view of it well founded.
 */
module Links {
  import opened AbstractTree

  /** The address of one node; the node's fields live in a Store's maps. */
  class NodeRef {
    constructor () {}
  }

  /** A possibly null node pointer. */
  type Ptr = NodeRef?

  /** The fields of one `private_node`: its value and its three links. */
  datatype Node<T> = Node(data: T, left: Ptr, right: Ptr, parent: Ptr)

  /** The nodes of one tree, and for each of them the nodes it reaches. */
  datatype Store<T> = Store(nodes: map<NodeRef, Node<T>>, sub: map<NodeRef, set<NodeRef>>)

  /** The nodes reachable from `p` through left and right links. */
  ghost function Below<T>(s: Store<T>, p: Ptr): set<NodeRef>
  {
    if p != null && p in s.sub then s.sub[p] else {}
  }

  /** `p` is null or a node of the store. */
  ghost predicate Linked<T>(s: Store<T>, p: Ptr)
  {
    p == null || p in s.sub
  }

  /** The node map and `sub` range over the same nodes. */
  ghost predicate Keyed<T>(s: Store<T>)
  {
    s.nodes.Keys == s.sub.Keys
  }

  /** At `n`, the reachable set is `n` plus two disjoint reachable sets that exclude `n`. */
  ghost predicate RankedAt<T>(s: Store<T>, n: NodeRef)
    requires Keyed(s) && n in s.sub
  {
    var l, r := s.nodes[n].left, s.nodes[n].right;
    && Linked(s, l) && Linked(s, r)
    && s.sub[n] == {n} + Below(s, l) + Below(s, r)
    && n !in Below(s, l) && n !in Below(s, r)
    && Below(s, l) !! Below(s, r)
    && s.sub[n] <= s.sub.Keys
  }

  /** The left/right link graph is a forest of binary trees (no cycle, no sharing). */
  ghost predicate Ranked<T>(s: Store<T>)
  {
    Keyed(s) && forall n {:trigger RankedAt(s, n)} | n in s.sub :: RankedAt(s, n)
  }

  /** The parent link of `n` and of its two link targets agree with the tree shape. */
  ghost predicate ParentAt<T>(s: Store<T>, root: Ptr, n: NodeRef)
    requires Keyed(s) && n in s.sub
  {
    var p, l, r := s.nodes[n].parent, s.nodes[n].left, s.nodes[n].right;
    && (p == null <==> n == root)
    && (p != null ==> p in s.sub && n in Below(s, s.nodes[p].left))
    && (l != null ==> l in s.nodes && s.nodes[l].parent == n)
    && (r != null ==> r in s.nodes && s.nodes[r].parent == p)
  }

  /**
   * The invariant of a tree rooted at `root`: every node is reachable from the
   * root, the root has no parent and no sibling, the children of every node
   * `n` form the right-sibling chain from `n`'s left child and each of them
   * has `n` as parent.
   */
  ghost predicate WellFormed<T>(s: Store<T>, root: Ptr)
  {
    && Ranked(s)
    && (root == null ==> s.sub.Keys == {})
    && (root != null ==> root in s.sub && s.sub[root] == s.sub.Keys && s.nodes[root].right == null)
    && forall n {:trigger ParentAt(s, root, n)} | n in s.sub :: ParentAt(s, root, n)
  }

  /** The store of the empty tree. */
  function Empty<T>(): (r: Store<T>)
    ensures WellFormed(r, null)
  {
    Store(map[], map[])
  }

  /** The sibling chain that starts at `c`. */
  ghost function Chain<T>(s: Store<T>, c: Ptr): seq<NodeRef>
    requires Ranked(s) && Linked(s, c)
    decreases Below(s, c)
  {
    if c == null then [] else assert RankedAt(s, c); [c] + Chain(s, s.nodes[c].right)
  }

  /** The children of `n`, first to last: the chain from its left child. */
  ghost function ChildIds<T>(s: Store<T>, n: NodeRef): seq<NodeRef>
    requires Ranked(s) && n in s.sub
  {
    assert RankedAt(s, n); Chain(s, s.nodes[n].left)
  }

  /** The nodes of the subtree rooted at `n`: `n` and all its descendants. */
  ghost function SubtreeNodes<T>(s: Store<T>, n: NodeRef): set<NodeRef>
    requires Ranked(s) && n in s.sub
  {
    {n} + Below(s, s.nodes[n].left)
  }

  /** The abstract tree rooted at `n`. */
  ghost function Subtree<T>(s: Store<T>, n: NodeRef): Tree<T>
    requires Ranked(s) && n in s.sub
    decreases s.sub[n], 1
  {
    assert RankedAt(s, n); Tree(s.nodes[n].data, Forest(s, s.nodes[n].left))
  }

  /** The abstract trees of the sibling chain that starts at `c`. */
  ghost function Forest<T>(s: Store<T>, c: Ptr): seq<Tree<T>>
    requires Ranked(s) && Linked(s, c)
    decreases Below(s, c), 2
  {
    if c == null then [] else assert RankedAt(s, c); [Subtree(s, c)] + Forest(s, s.nodes[c].right)
  }

  /** The abstract value of a tree: none when empty. */
  ghost function Abs<T>(s: Store<T>, root: Ptr): Option<Tree<T>>
    requires WellFormed(s, root)
  {
    if root == null then None else Some(Subtree(s, root))
  }

  datatype Option<T> = None | Some(value: T)

  /** Node ids of the chain from `c` and all their subtrees, in preorder. */
  ghost function PreIds<T>(s: Store<T>, c: Ptr): seq<NodeRef>
    requires Ranked(s) && Linked(s, c)
    decreases Below(s, c)
  {
    if c == null then [] else assert RankedAt(s, c); [c] + PreIds(s, s.nodes[c].left) + PreIds(s, s.nodes[c].right)
  }

  /** Node ids of the chain from `c` and all their subtrees, in postorder. */
  ghost function PostIds<T>(s: Store<T>, c: Ptr): seq<NodeRef>
    requires Ranked(s) && Linked(s, c)
    decreases Below(s, c)
  {
    if c == null then [] else assert RankedAt(s, c); PostIds(s, s.nodes[c].left) + [c] + PostIds(s, s.nodes[c].right)
  }

  /** The values stored at a sequence of nodes (nodes outside the store contribute nothing). */
  ghost function Values<T>(s: Store<T>, ids: seq<NodeRef>): seq<T>
  {
    if ids == [] then []
    else (if ids[0] in s.nodes then [s.nodes[ids[0]].data] else []) + Values(s, ids[1..])
  }

  /** A sequence without repetitions. */
  ghost predicate Distinct<X>(xs: seq<X>)
  {
    forall i, j | 0 <= i < j < |xs| :: xs[i] != xs[j]
  }

  // ---------------------------------------------------------------------
  // Lemmas about the link structure
  // ---------------------------------------------------------------------

  /** Reachability is transitive: what is reachable from a reachable node is reachable. */
  lemma {:induction false} SubTransitive<T>(s: Store<T>, k: NodeRef, m: NodeRef)
    requires Ranked(s) && k in s.sub && m in s.sub[k]
    ensures m in s.sub && s.sub[m] <= s.sub[k]
    decreases s.sub[k]
  {
    assert RankedAt(s, k);
    var l, r := s.nodes[k].left, s.nodes[k].right;
    if m != k {
      if m in Below(s, l) {
        SubTransitive(s, l, m);
      } else {
        SubTransitive(s, r, m);
      }
    }
  }

  /** The chain from `c` is repetition-free and lies within what `c` reaches. */
  lemma {:induction false} ChainInside<T>(s: Store<T>, c: Ptr)
    requires Ranked(s) && Linked(s, c)
    ensures Distinct(Chain(s, c))
    ensures forall x | x in Chain(s, c) :: x in Below(s, c)
    decreases Below(s, c)
  {
    if c != null {
      assert RankedAt(s, c);
      ChainInside(s, s.nodes[c].right);
    }
  }

  /** In a well-formed store, every node of the chain from `c` has `c`'s parent. */
  lemma {:induction false} ChainParent<T>(s: Store<T>, root: Ptr, c: NodeRef)
    requires WellFormed(s, root) && c in s.sub
    ensures forall x | x in Chain(s, c) :: x in s.nodes && s.nodes[x].parent == s.nodes[c].parent
    decreases s.sub[c]
  {
    assert RankedAt(s, c) && ParentAt(s, root, c);
    var r := s.nodes[c].right;
    assert Chain(s, c) == [c] + Chain(s, r);
    if r != null {
      ChainParent(s, root, r);
    }
  }

  /** The children of `n` are exactly the nodes whose parent is `n`. */
  lemma ChildIdsAreChildren<T>(s: Store<T>, root: Ptr, n: NodeRef, x: NodeRef)
    requires WellFormed(s, root) && n in s.sub && x in s.sub
    ensures x in ChildIds(s, n) <==> s.nodes[x].parent == n
  {
    assert RankedAt(s, n);
    if s.nodes[n].left != null {
      ChainParent(s, root, s.nodes[n].left);
      assert ParentAt(s, root, n);
    }
    if s.nodes[x].parent == n {
      assert ParentAt(s, root, x);
      ParentChild(s, root, s.nodes[n].left, n, x);
    }
  }

  /** A node whose parent is `p` and that is reachable from a child `c` of `p` lies on `c`'s chain. */
  lemma {:induction false} ParentChild<T>(s: Store<T>, root: Ptr, c: Ptr, p: NodeRef, x: NodeRef)
    requires WellFormed(s, root) && Linked(s, c) && p in s.sub && x in s.sub
    requires c != null ==> s.nodes[c].parent == p
    requires x in Below(s, c) && s.nodes[x].parent == p
    ensures x in Chain(s, c)
    decreases Below(s, c)
  {
    var l, r := s.nodes[c].left, s.nodes[c].right;
    assert RankedAt(s, c) && ParentAt(s, root, c) && RankedAt(s, p);
    if x != c {
      if x in Below(s, l) {
        // x lies strictly inside c's subtree, so its parent does too, but p does not
        ParentsInside(s, root, l, x);
        SubTransitive(s, s.nodes[p].left, c);
        assert false;
      } else {
        ParentChild(s, root, r, p, x);
      }
    }
  }

  /** The parent of a node reachable from `c` is `c`'s parent or itself reachable from `c`. */
  lemma {:induction false} ParentsInside<T>(s: Store<T>, root: Ptr, c: NodeRef, m: NodeRef)
    requires WellFormed(s, root) && c in s.sub && m in s.sub[c]
    ensures m in s.sub && (s.nodes[m].parent == s.nodes[c].parent || (s.nodes[m].parent != null && s.nodes[m].parent in s.sub[c]))
    decreases s.sub[c]
  {
    assert RankedAt(s, c) && ParentAt(s, root, c);
    var l, r := s.nodes[c].left, s.nodes[c].right;
    if m != c {
      if m in Below(s, l) {
        ParentsInside(s, root, l, m);
      } else {
        ParentsInside(s, root, r, m);
      }
    }
  }

  /** Going to the parent strictly enlarges the reachable set. */
  lemma ParentReachesMore<T>(s: Store<T>, root: Ptr, n: NodeRef)
    requires WellFormed(s, root) && n in s.sub && s.nodes[n].parent != null
    ensures s.nodes[n].parent in s.sub && s.sub[n] < s.sub[s.nodes[n].parent]
  {
    assert ParentAt(s, root, n);
    var p := s.nodes[n].parent;
    assert RankedAt(s, p);
    SubTransitive(s, s.nodes[p].left, n);
  }

  /** Every node has a single owner: no two links point at the same node. */
  lemma {:induction false} SingleOwner<T>(s: Store<T>, k: NodeRef, x: NodeRef, y: NodeRef, c: NodeRef)
    requires Ranked(s) && k in s.sub && x in s.sub && y in s.sub && x in s.sub[k] && y in s.sub[k]
    requires s.nodes[x].left == c || s.nodes[x].right == c
    requires s.nodes[y].left == c || s.nodes[y].right == c
    ensures x == y && (s.nodes[x].left == c <==> s.nodes[y].left == c)
    decreases s.sub[k]
  {
    SubTransitive(s, k, x);
    SubTransitive(s, k, y);
    assert RankedAt(s, k) && RankedAt(s, x) && RankedAt(s, y) && RankedAt(s, c);
    var l, r := s.nodes[k].left, s.nodes[k].right;
    if x == k && y != k {
      OwnerNotBelow(s, k, y, c);
      assert false;
    } else if y == k && x != k {
      OwnerNotBelow(s, k, x, c);
      assert false;
    } else if x != k && y != k {
      if x in Below(s, l) && y in Below(s, l) {
        SingleOwner(s, l, x, y, c);
      } else if x in Below(s, r) && y in Below(s, r) {
        SingleOwner(s, r, x, y, c);
      } else {
        // c would be reachable from both sides of k
        if x in Below(s, l) { SubTransitive(s, l, x); SubTransitive(s, r, y); }
        else { SubTransitive(s, r, x); SubTransitive(s, l, y); }
        assert false;
      }
    }
  }

  /** A node other than `k` and reachable from `k` never links to a link target of `k`. */
  lemma OwnerNotBelow<T>(s: Store<T>, k: NodeRef, y: NodeRef, c: NodeRef)
    requires Ranked(s) && k in s.sub && y in s.sub && y in s.sub[k] && y != k
    requires s.nodes[k].left == c || s.nodes[k].right == c
    ensures s.nodes[y].left != c && s.nodes[y].right != c
  {
    assert RankedAt(s, k);
    var l, r := s.nodes[k].left, s.nodes[k].right;
    var side := if y in Below(s, l) then l else r;
    assert side != null && y in s.sub[side];
    SubTransitive(s, side, y);
    assert RankedAt(s, y);
    assert RankedAt(s, c);
    if s.nodes[y].left == c || s.nodes[y].right == c {
      assert false;
    }
  }

  /** No node other than the root reaches the root. */
  lemma RootUnreachable<T>(s: Store<T>, root: NodeRef, x: NodeRef)
    requires WellFormed(s, root) && x in s.sub && x != root
    ensures root !in s.sub[x]
  {
    assert RankedAt(s, root);
    SubTransitive(s, s.nodes[root].left, x);
    assert RankedAt(s, x);
    if root in s.sub[x] {
      SubTransitive(s, x, root);
      assert false;
    }
  }

  /** The abstract forest of a chain is the abstract subtree of each chain node. */
  lemma {:induction false} ForestIsChain<T>(s: Store<T>, c: Ptr)
    requires Ranked(s) && Linked(s, c)
    ensures |Forest(s, c)| == |Chain(s, c)|
    ensures forall i | 0 <= i < |Chain(s, c)| :: Chain(s, c)[i] in s.sub && Forest(s, c)[i] == Subtree(s, Chain(s, c)[i])
    decreases Below(s, c)
  {
    if c != null {
      assert RankedAt(s, c);
      var r := s.nodes[c].right;
      ForestIsChain(s, r);
      assert Chain(s, c) == [c] + Chain(s, r);
      assert Forest(s, c) == [Subtree(s, c)] + Forest(s, r);
    }
  }

  /** The abstract tree at `n` has `n`'s value and, in order, the subtrees of `n`'s children. */
  lemma SubtreeByChildren<T>(s: Store<T>, n: NodeRef)
    requires Ranked(s) && n in s.sub
    ensures Subtree(s, n).value == s.nodes[n].data
    ensures |Subtree(s, n).children| == |ChildIds(s, n)|
    ensures forall i | 0 <= i < |ChildIds(s, n)| :: ChildIds(s, n)[i] in s.sub && Subtree(s, n).children[i] == Subtree(s, ChildIds(s, n)[i])
  {
    assert RankedAt(s, n);
    ForestIsChain(s, s.nodes[n].left);
  }

  lemma {:induction false} ValuesAppend<T>(s: Store<T>, a: seq<NodeRef>, b: seq<NodeRef>)
    ensures Values(s, a + b) == Values(s, a) + Values(s, b)
  {
    if a == [] {
      assert a + b == b;
    } else {
      assert (a + b)[1..] == a[1..] + b;
      ValuesAppend(s, a[1..], b);
    }
  }

  /** The nodes listed by `PreIds` and `PostIds` from `c` are nodes reachable from `c`. */
  lemma {:induction false} OrdersInside<T>(s: Store<T>, c: Ptr)
    requires Ranked(s) && Linked(s, c)
    ensures forall x | x in PreIds(s, c) :: x in s.sub && x in Below(s, c)
    ensures forall x | x in PostIds(s, c) :: x in s.sub && x in Below(s, c)
    decreases Below(s, c)
  {
    if c != null {
      assert RankedAt(s, c);
      var l, r := s.nodes[c].left, s.nodes[c].right;
      OrdersInside(s, l);
      OrdersInside(s, r);
      assert PreIds(s, c) == [c] + PreIds(s, l) + PreIds(s, r);
      assert PostIds(s, c) == PostIds(s, l) + [c] + PostIds(s, r);
    }
  }

  lemma {:induction false} ValuesLength<T>(s: Store<T>, ids: seq<NodeRef>)
    requires forall x | x in ids :: x in s.nodes
    ensures |Values(s, ids)| == |ids|
  {
    if ids != [] {
      ValuesLength(s, ids[1..]);
    }
  }

  /** The node-id preorder of a chain lists the preorder of its abstract forest. */
  lemma {:induction false} PreorderMatches<T>(s: Store<T>, c: Ptr)
    requires Ranked(s) && Linked(s, c)
    ensures Values(s, PreIds(s, c)) == PreorderForest(Forest(s, c))
    decreases Below(s, c)
  {
    if c != null {
      assert RankedAt(s, c);
      var l, r := s.nodes[c].left, s.nodes[c].right;
      PreorderMatches(s, l);
      PreorderMatches(s, r);
      var ts := Forest(s, c);
      assert ts == [Subtree(s, c)] + Forest(s, r);
      assert PreIds(s, c) == [c] + PreIds(s, l) + PreIds(s, r);
      ValuesAppend(s, [c] + PreIds(s, l), PreIds(s, r));
      ValuesAppend(s, [c], PreIds(s, l));
      assert Values(s, [c]) == [s.nodes[c].data];
      assert Preorder(Subtree(s, c)) == [s.nodes[c].data] + PreorderForest(Forest(s, l));
      ForestCons(Subtree(s, c), Forest(s, r));
    }
  }

  /** The node-id postorder of a chain lists the postorder of its abstract forest. */
  lemma {:induction false} PostorderMatches<T>(s: Store<T>, c: Ptr)
    requires Ranked(s) && Linked(s, c)
    ensures Values(s, PostIds(s, c)) == PostorderForest(Forest(s, c))
    decreases Below(s, c)
  {
    if c != null {
      assert RankedAt(s, c);
      var l, r := s.nodes[c].left, s.nodes[c].right;
      PostorderMatches(s, l);
      PostorderMatches(s, r);
      var ts := Forest(s, c);
      assert ts == [Subtree(s, c)] + Forest(s, r);
      assert PostIds(s, c) == PostIds(s, l) + [c] + PostIds(s, r);
      ValuesAppend(s, PostIds(s, l) + [c], PostIds(s, r));
      ValuesAppend(s, PostIds(s, l), [c]);
      assert Values(s, [c]) == [s.nodes[c].data];
      assert Postorder(Subtree(s, c)) == PostorderForest(Forest(s, l)) + [s.nodes[c].data];
      ForestCons(Subtree(s, c), Forest(s, r));
    }
  }

  /** Preorder lists every reachable node exactly once. */
  lemma {:induction false} PreIdsCover<T>(s: Store<T>, c: Ptr)
    requires Ranked(s) && Linked(s, c)
    ensures Distinct(PreIds(s, c))
    ensures forall x :: x in PreIds(s, c) <==> x in Below(s, c)
    decreases Below(s, c)
  {
    if c != null {
      assert RankedAt(s, c);
      var l, r := s.nodes[c].left, s.nodes[c].right;
      PreIdsCover(s, l);
      assert Distinct(PreIds(s, l));
      assert forall x :: x in PreIds(s, l) <==> x in Below(s, l);
      PreIdsCover(s, r);
      assert PreIds(s, c) == [c] + PreIds(s, l) + PreIds(s, r);
      assert c !in PreIds(s, l) && c !in PreIds(s, r);
      DistinctConcat([c], PreIds(s, l));
      forall x: NodeRef | x in [c] + PreIds(s, l) ensures x !in PreIds(s, r) {
        if x != c { assert x in PreIds(s, l); assert x in Below(s, l); }
      }
      DistinctConcat([c] + PreIds(s, l), PreIds(s, r));
    }
  }

  /** Postorder lists every reachable node exactly once. */
  lemma {:induction false} PostIdsCover<T>(s: Store<T>, c: Ptr)
    requires Ranked(s) && Linked(s, c)
    ensures Distinct(PostIds(s, c))
    ensures forall x :: x in PostIds(s, c) <==> x in Below(s, c)
    decreases Below(s, c)
  {
    if c != null {
      assert RankedAt(s, c);
      var l, r := s.nodes[c].left, s.nodes[c].right;
      PostIdsCover(s, l);
      assert Distinct(PostIds(s, l));
      assert forall x :: x in PostIds(s, l) <==> x in Below(s, l);
      PostIdsCover(s, r);
      assert PostIds(s, c) == PostIds(s, l) + [c] + PostIds(s, r);
      assert c !in PostIds(s, l) && c !in PostIds(s, r);
      DistinctConcat(PostIds(s, l), [c]);
      forall x: NodeRef | x in PostIds(s, l) + [c] ensures x !in PostIds(s, r) {
        if x != c { assert x in PostIds(s, l); assert x in Below(s, l); }
      }
      DistinctConcat(PostIds(s, l) + [c], PostIds(s, r));
    }
  }

  /** In preorder every node comes before all of its descendants. */
  lemma {:induction false} PreorderDescendantsAfter<T>(s: Store<T>, c: Ptr)
    requires Ranked(s) && Linked(s, c)
    ensures forall i | 0 <= i < |PreIds(s, c)| ::
      && PreIds(s, c)[i] in s.sub
      && forall x | x in Below(s, s.nodes[PreIds(s, c)[i]].left) :: x in PreIds(s, c)[i + 1..]
    decreases Below(s, c)
  {
    if c != null {
      assert RankedAt(s, c);
      var l, r := s.nodes[c].left, s.nodes[c].right;
      var P, L, R := PreIds(s, c), PreIds(s, l), PreIds(s, r);
      assert P == [c] + L + R;
      PreorderDescendantsAfter(s, l);
      PreorderDescendantsAfter(s, r);
      PreIdsCover(s, l);
      forall i | 0 <= i < |P|
        ensures P[i] in s.sub && forall x | x in Below(s, s.nodes[P[i]].left) :: x in P[i + 1..]
      {
        if i == 0 {
          assert P[i] == c && P[1..] == L + R;
          forall x | x in Below(s, l) ensures x in P[1..] {
            assert x in L;
          }
        } else if i <= |L| {
          var j := i - 1;
          assert P[i] == L[j] && L[j] in s.sub;
          assert P[i + 1..] == L[j + 1..] + R;
          forall x | x in Below(s, s.nodes[L[j]].left) ensures x in P[i + 1..] {
            assert x in L[j + 1..];
          }
        } else {
          var k := i - |L| - 1;
          assert P[i] == R[k] && R[k] in s.sub;
          assert P[i + 1..] == R[k + 1..];
        }
      }
    }
  }

  /** In postorder every node comes after all of its descendants. */
  lemma {:induction false} PostorderDescendantsBefore<T>(s: Store<T>, c: Ptr)
    requires Ranked(s) && Linked(s, c)
    ensures forall i | 0 <= i < |PostIds(s, c)| ::
      && PostIds(s, c)[i] in s.sub
      && forall x | x in Below(s, s.nodes[PostIds(s, c)[i]].left) :: x in PostIds(s, c)[..i]
    decreases Below(s, c)
  {
    if c != null {
      assert RankedAt(s, c);
      var l, r := s.nodes[c].left, s.nodes[c].right;
      var P, L, R := PostIds(s, c), PostIds(s, l), PostIds(s, r);
      assert P == L + [c] + R;
      PostorderDescendantsBefore(s, l);
      PostorderDescendantsBefore(s, r);
      PostIdsCover(s, l);
      forall i | 0 <= i < |P|
        ensures P[i] in s.sub && forall x | x in Below(s, s.nodes[P[i]].left) :: x in P[..i]
      {
        if i < |L| {
          assert P[i] == L[i] && L[i] in s.sub;
          assert P[..i] == L[..i];
        } else if i == |L| {
          assert P[i] == c && P[..i] == L;
          forall x | x in Below(s, l) ensures x in P[..i] {
            assert x in L;
          }
        } else {
          var k := i - |L| - 1;
          assert P[i] == R[k] && R[k] in s.sub;
          assert P[..i] == L + [c] + R[..k];
          forall x | x in Below(s, s.nodes[R[k]].left) ensures x in P[..i] {
            assert x in R[..k];
          }
        }
      }
    }
  }

  /** A repetition-free listing of a set is as long as the set is large. */
  lemma {:induction false} DistinctCard<X>(xs: seq<X>, S: set<X>)
    requires Distinct(xs) && forall x :: x in xs <==> x in S
    ensures |xs| == |S|
  {
    if xs != [] {
      var rest := S - {xs[0]};
      forall x ensures x in xs[1..] <==> x in rest {
        if x in xs[1..] {
          var j :| 1 <= j < |xs| && xs[j] == x;
        }
      }
      DistinctCard(xs[1..], rest);
    }
  }

  lemma DistinctConcat<X>(a: seq<X>, b: seq<X>)
    requires Distinct(a) && Distinct(b)
    requires forall x | x in a :: x !in b
    ensures Distinct(a + b)
  {
    forall i, j | 0 <= i < j < |a + b|
      ensures (a + b)[i] != (a + b)[j]
    {
      if j >= |a| && i < |a| {
        assert (a + b)[i] in a && (a + b)[j] in b;
      }
    }
  }

  /** The number of nodes of the abstract subtree at `n` is the number of nodes below it. */
  lemma SizeIsNodeCount<T>(s: Store<T>, n: NodeRef)
    requires Ranked(s) && n in s.sub
    ensures Size(Subtree(s, n)) == |SubtreeNodes(s, n)|
  {
    assert RankedAt(s, n);
    var l := s.nodes[n].left;
    PreorderMatches(s, l);
    PreIdsCover(s, l);
    OrdersInside(s, l);
    DistinctCard(PreIds(s, l), Below(s, l));
    ValuesLength(s, PreIds(s, l));
    OrdersHaveSizeForest(Forest(s, l));
  }

  /** The chain from `c` depends only on the right links of its own nodes. */
  lemma {:induction false} ChainFrame<T>(s: Store<T>, t: Store<T>, c: Ptr)
    requires Ranked(s) && Ranked(t) && Linked(s, c) && Linked(t, c)
    requires forall m | m in Chain(s, c) :: m in s.sub && m in t.sub && t.nodes[m].right == s.nodes[m].right
    ensures Chain(t, c) == Chain(s, c)
    decreases Below(s, c)
  {
    if c != null {
      assert RankedAt(s, c) && RankedAt(t, c);
      assert Chain(s, c) == [c] + Chain(s, s.nodes[c].right);
      ChainFrame(s, t, s.nodes[c].right);
    }
  }

  /** The abstract forest of a chain depends only on the fields of the nodes it reaches. */
  lemma {:induction false} ForestFrame<T>(s: Store<T>, t: Store<T>, c: Ptr)
    requires Ranked(s) && Ranked(t) && Linked(s, c)
    requires forall m | m in Below(s, c) :: m in s.sub && m in t.sub && t.nodes[m].data == s.nodes[m].data && t.nodes[m].left == s.nodes[m].left && t.nodes[m].right == s.nodes[m].right
    ensures Linked(t, c) && Forest(t, c) == Forest(s, c)
    decreases Below(s, c), 2
  {
    if c != null {
      assert RankedAt(s, c);
      SubtreeFrame(s, t, c);
      ForestFrame(s, t, s.nodes[c].right);
    }
  }

  /** The abstract subtree at `n` depends only on the fields of the subtree's nodes (not on `n`'s sibling or parent). */
  lemma {:induction false} SubtreeFrame<T>(s: Store<T>, t: Store<T>, n: NodeRef)
    requires Ranked(s) && Ranked(t) && n in s.sub
    requires n in t.sub && t.nodes[n].data == s.nodes[n].data && t.nodes[n].left == s.nodes[n].left
    requires forall m | m in Below(s, s.nodes[n].left) :: m in s.sub && m in t.sub && t.nodes[m].data == s.nodes[m].data && t.nodes[m].left == s.nodes[m].left && t.nodes[m].right == s.nodes[m].right
    ensures n in t.sub && Subtree(t, n) == Subtree(s, n)
    decreases s.sub[n], 1
  {
    assert RankedAt(s, n);
    ForestFrame(s, t, s.nodes[n].left);
  }

  /** A chain read from position `i` is the chain from its `i`-th node. */
  lemma {:induction false} ChainSuffix<T>(s: Store<T>, c: Ptr, i: nat)
    requires Ranked(s) && Linked(s, c) && i < |Chain(s, c)|
    ensures Chain(s, c)[i] in s.sub && Chain(s, c)[i..] == Chain(s, Chain(s, c)[i])
    decreases Below(s, c)
  {
    assert RankedAt(s, c);
    if i > 0 {
      ChainSuffix(s, s.nodes[c].right, i - 1);
      assert Chain(s, c)[i..] == Chain(s, s.nodes[c].right)[i - 1..];
    }
  }

  /** In a sibling chain, the node after position `j` is the next sibling of the node at `j`; the last one has none. */
  lemma NextInChain<T>(s: Store<T>, c: Ptr, j: nat)
    requires Ranked(s) && Linked(s, c) && j < |Chain(s, c)|
    ensures var x := Chain(s, c)[j];
      && x in s.sub
      && (s.nodes[x].right != null <==> j + 1 < |Chain(s, c)|)
      && (j + 1 < |Chain(s, c)| ==> Chain(s, c)[j + 1] == s.nodes[x].right)
  {
    ChainSuffix(s, c, j);
    var x := Chain(s, c)[j];
    assert RankedAt(s, x);
    assert Chain(s, c)[j..] == [x] + Chain(s, s.nodes[x].right);
    assert |Chain(s, c)[j..]| == |Chain(s, c)| - j;
    if j + 1 < |Chain(s, c)| {
      assert Chain(s, c)[j..][1] == Chain(s, c)[j + 1];
    }
  }

  /** The number of parent links from `n` up to the root: the depth of `n`. */
  ghost function Level<T>(s: Store<T>, root: Ptr, n: NodeRef): nat
    requires WellFormed(s, root) && n in s.sub
    decreases s.sub.Keys - s.sub[n]
  {
    if s.nodes[n].parent == null then 0
    else
      ParentReachesMore(s, root, n);
      assert RankedAt(s, s.nodes[n].parent);
      1 + Level(s, root, s.nodes[n].parent)
  }

  /** Only the root has depth zero, and each child of `n` is one level deeper than `n`. */
  lemma LevelSteps<T>(s: Store<T>, root: Ptr, n: NodeRef)
    requires WellFormed(s, root) && n in s.sub
    ensures Level(s, root, n) == 0 <==> n == root
    ensures forall c | c in ChildIds(s, n) :: c in s.sub && Level(s, root, c) == Level(s, root, n) + 1
  {
    assert ParentAt(s, root, n);
    assert RankedAt(s, n);
    ChainInside(s, s.nodes[n].left);
    forall c | c in ChildIds(s, n)
      ensures c in s.sub && Level(s, root, c) == Level(s, root, n) + 1
    {
      assert RankedAt(s, s.nodes[n].left);
      ChildIdsAreChildren(s, root, n, c);
    }
  }

  /** Two different siblings head disjoint subtrees. */
  lemma {:induction false} SiblingsDisjoint<T>(s: Store<T>, c: Ptr, i: nat, j: nat)
    requires Ranked(s) && Linked(s, c) && i < j < |Chain(s, c)|
    ensures Chain(s, c)[i] in s.sub && Chain(s, c)[j] in s.sub
    ensures SubtreeNodes(s, Chain(s, c)[i]) !! SubtreeNodes(s, Chain(s, c)[j])
    decreases Below(s, c)
  {
    assert RankedAt(s, c);
    var r := s.nodes[c].right;
    if i == 0 {
      ChainInside(s, r);
      var y := Chain(s, r)[j - 1];
      assert y in Chain(s, r);
      SubTransitive(s, r, y);
      assert RankedAt(s, y);
    } else {
      SiblingsDisjoint(s, r, i - 1, j - 1);
    }
  }
}
