/**
 * The structural edits of `general-tree.h` as pure functions on node stores,
 * each with the proof that it keeps a tree well formed and with a full
 * account of its effect on the children lists of every node.
 *
 * - `SpliceFirstChild`: a whole tree becomes the first child of a node
 *   (`insert_left_child(node, tree&)`; `emplace_left_child` is the splice
 *   of a one-node tree);
 * - `SpliceNextSibling`: a whole tree becomes the next sibling of a node
 *   (`insert_right_sibling(node, tree&)`, `emplace_right_sibling`);
 * - `Detach`: a node and its descendants leave the tree and the node's
 *   place in its parent's children list is closed (`delete_from_node`).
 */
module Edits {
  import opened AbstractTree
  import opened Links

  /** The store of a tree with one node `n` holding `v`. */
  function Single<T>(n: NodeRef, v: T): (r: Store<T>)
    ensures WellFormed(r, n) && r.sub.Keys == {n}
    ensures r.nodes[n].data == v && ChildIds(r, n) == []
    ensures Subtree(r, n) == Tree(v, []) && Abs(r, n) == Some(Tree(v, []))
  {
    var r := Store(map[n := Node(v, null, null, null)], map[n := {n}]);
    assert RankedAt(r, n) && ParentAt(r, n, n);
    r
  }

  /** The children list `xs` with `y` put right after `d`. */
  function InsertAfter<X(==)>(xs: seq<X>, d: X, y: X): seq<X>
  {
    if xs == [] then []
    else if xs[0] == d then [d, y] + xs[1..]
    else [xs[0]] + InsertAfter(xs[1..], d, y)
  }

  /** The children list `xs` without `p`. */
  function Without<X(==)>(xs: seq<X>, p: X): seq<X>
  {
    if xs == [] then []
    else (if xs[0] == p then [] else [xs[0]]) + Without(xs[1..], p)
  }

  /** Putting `y` after the first `d` of `a + [d] + b` gives `a + [d, y] + b`. */
  lemma {:induction false} InsertAfterSplit<X>(a: seq<X>, d: X, b: seq<X>, y: X)
    requires d !in a
    ensures InsertAfter(a + [d] + b, d, y) == a + [d, y] + b
  {
    if a != [] {
      assert (a + [d] + b)[1..] == a[1..] + [d] + b;
      InsertAfterSplit(a[1..], d, b, y);
    }
  }

  /** Removing `p` from `a + [p] + b` that holds no other `p` gives `a + b`. */
  lemma {:induction false} WithoutSplit<X>(a: seq<X>, p: X, b: seq<X>)
    requires p !in a && p !in b
    ensures Without(a + [p] + b, p) == a + b
  {
    if a == [] {
      assert (a + [p] + b)[1..] == b;
      WithoutAbsent(b, p);
    } else {
      assert (a + [p] + b)[1..] == a[1..] + [p] + b;
      WithoutSplit(a[1..], p, b);
    }
  }

  /** Removing an absent element changes nothing. */
  lemma {:induction false} WithoutAbsent<X>(xs: seq<X>, p: X)
    requires p !in xs
    ensures Without(xs, p) == xs
  {
    if xs != [] {
      WithoutAbsent(xs[1..], p);
    }
  }

  // ---------------------------------------------------------------------
  // A tree spliced in as the first child of `d`
  // ---------------------------------------------------------------------

  /**
   * The store after the tree `t` rooted at `tr` becomes the first child of
   * `d`: `tr`'s parent is `d`, its next sibling is `d`'s old first child
   * and `d`'s first child is `tr`.
   */
  ghost function SpliceFirstChild<T>(s: Store<T>, d: NodeRef, t: Store<T>, tr: NodeRef): Store<T>
    requires Keyed(s) && Keyed(t) && d in s.sub && tr in t.sub
  {
    var dn, rn := s.nodes[d], t.nodes[tr];
    Store(
      (s.nodes + t.nodes)[d := dn.(left := tr)][tr := rn.(right := dn.left, parent := d)],
      map x | x in s.sub.Keys + t.sub.Keys ::
        if x == tr then t.sub[tr] + Below(s, dn.left)
        else if x in t.sub then t.sub[x]
        else if d in s.sub[x] then s.sub[x] + t.sub.Keys
        else s.sub[x])
  }

  /** The two stores of a splice: a tree, a node `d` of it and a disjoint tree rooted at `tr`. */
  ghost predicate Spliceable<T>(s: Store<T>, root: Ptr, d: NodeRef, t: Store<T>, tr: NodeRef)
  {
    WellFormed(s, root) && d in s.sub && WellFormed(t, tr) && s.sub.Keys !! t.sub.Keys
  }

  /**
   * After a splice at `d` of a tree with nodes `T` into `s`, the node `y` of
   * `s` keeps its fields (its links too unless it is `d`), and if it reached
   * `d` it now also reaches all of `T`.
   */
  ghost predicate OldAt<T>(s: Store<T>, d: NodeRef, T: set<NodeRef>, u: Store<T>, y: NodeRef)
    requires Keyed(s) && Keyed(u) && y in s.sub && y in u.sub
  {
    && u.nodes[y].data == s.nodes[y].data && u.nodes[y].parent == s.nodes[y].parent
    && u.sub[y] == (if d in s.sub[y] then s.sub[y] + T else s.sub[y])
    && (y != d ==> u.nodes[y] == s.nodes[y])
  }

  ghost predicate KeepsOld<T>(s: Store<T>, d: NodeRef, T: set<NodeRef>, u: Store<T>)
  {
    && Keyed(s) && Keyed(u) && s.sub.Keys <= u.sub.Keys
    && forall y {:trigger OldAt(s, d, T, u, y)} | y in s.sub :: OldAt(s, d, T, u, y)
  }

  /** After a splice of `t` rooted at `tr`, its node `y` keeps its fields, except the sibling and parent links of `tr`. */
  ghost predicate NewAt<T>(t: Store<T>, tr: NodeRef, u: Store<T>, y: NodeRef)
    requires Keyed(t) && Keyed(u) && y in t.sub && y in u.sub
  {
    && u.nodes[y].data == t.nodes[y].data && u.nodes[y].left == t.nodes[y].left
    && (y != tr ==> u.nodes[y] == t.nodes[y] && u.sub[y] == t.sub[y])
  }

  ghost predicate KeepsNew<T>(t: Store<T>, tr: NodeRef, u: Store<T>)
  {
    && Keyed(t) && Keyed(u) && t.sub.Keys <= u.sub.Keys
    && forall y {:trigger NewAt(t, tr, u, y)} | y in t.sub :: NewAt(t, tr, u, y)
  }

  /** A node of `s` other than the splice point stays ranked and correctly parented. */
  lemma SpliceOldNode<T>(s: Store<T>, root: Ptr, d: NodeRef, t: Store<T>, tr: NodeRef, u: Store<T>, x: NodeRef)
    requires Spliceable(s, root, d, t, tr) && KeepsOld(s, d, t.sub.Keys, u) && KeepsNew(t, tr, u)
    requires u.sub.Keys == s.sub.Keys + t.sub.Keys
    requires Below(s, s.nodes[d].left) <= Below(u, u.nodes[d].left)
    requires x in s.sub && x != d
    ensures RankedAt(u, x) && ParentAt(u, root, x)
  {
    SpliceOldRanked(s, d, t, u, x);
    SpliceOldParent(s, root, d, t, tr, u, x);
  }

  lemma SpliceOldRanked<T>(s: Store<T>, d: NodeRef, t: Store<T>, u: Store<T>, x: NodeRef)
    requires Ranked(s) && Keyed(t) && s.sub.Keys !! t.sub.Keys && KeepsOld(s, d, t.sub.Keys, u)
    requires u.sub.Keys == s.sub.Keys + t.sub.Keys
    requires x in s.sub && x != d
    ensures RankedAt(u, x)
  {
    var T := t.sub.Keys;
    assert RankedAt(s, x) && OldAt(s, d, T, u, x);
    var l, r := s.nodes[x].left, s.nodes[x].right;
    if l != null { assert RankedAt(s, l) && OldAt(s, d, T, u, l); }
    if r != null { assert RankedAt(s, r) && OldAt(s, d, T, u, r); }
    if d in Below(s, l) {
      assert Below(u, l) == Below(s, l) + T;
      assert Below(u, r) == Below(s, r);
    } else if d in Below(s, r) {
      assert Below(u, l) == Below(s, l);
      assert Below(u, r) == Below(s, r) + T;
    } else {
      assert Below(u, l) == Below(s, l);
      assert Below(u, r) == Below(s, r);
    }
  }

  lemma SpliceOldParent<T>(s: Store<T>, root: Ptr, d: NodeRef, t: Store<T>, tr: NodeRef, u: Store<T>, x: NodeRef)
    requires Spliceable(s, root, d, t, tr) && KeepsOld(s, d, t.sub.Keys, u) && KeepsNew(t, tr, u)
    requires u.sub.Keys == s.sub.Keys + t.sub.Keys
    requires Below(s, s.nodes[d].left) <= Below(u, u.nodes[d].left)
    requires x in s.sub && x != d
    ensures ParentAt(u, root, x)
  {
    var T := t.sub.Keys;
    assert ParentAt(s, root, x) && OldAt(s, d, T, u, x);
    var l, r, p := s.nodes[x].left, s.nodes[x].right, s.nodes[x].parent;
    if l != null { assert OldAt(s, d, T, u, l); }
    if r != null { assert OldAt(s, d, T, u, r); }
    if p != null && p != d {
      assert RankedAt(s, p) && OldAt(s, d, T, u, p);
      var lp := s.nodes[p].left;
      assert lp != null && x in Below(s, lp);
      assert OldAt(s, d, T, u, lp);
    }
  }

  /** A node of the spliced tree other than its root stays ranked and correctly parented. */
  lemma SpliceNewNode<T>(s: Store<T>, root: Ptr, d: NodeRef, t: Store<T>, tr: NodeRef, u: Store<T>, x: NodeRef)
    requires Spliceable(s, root, d, t, tr) && KeepsOld(s, d, t.sub.Keys, u) && KeepsNew(t, tr, u)
    requires u.sub.Keys == s.sub.Keys + t.sub.Keys
    requires x in t.sub && x != tr
    ensures RankedAt(u, x) && ParentAt(u, root, x)
  {
    assert RankedAt(t, x) && ParentAt(t, tr, x) && NewAt(t, tr, u, x);
    var l, r, p := t.nodes[x].left, t.nodes[x].right, t.nodes[x].parent;
    RootUnreachable(t, tr, x);
    if l != null { assert RankedAt(t, l) && NewAt(t, tr, u, l); }
    if r != null { assert RankedAt(t, r) && NewAt(t, tr, u, r); }
    assert Below(u, l) == Below(t, l);
    assert Below(u, r) == Below(t, r);
    assert RankedAt(u, x);
    assert RankedAt(t, p) && NewAt(t, tr, u, p);
    var lp := t.nodes[p].left;
    assert lp != null && RankedAt(t, lp) && NewAt(t, tr, u, lp);
    if p != tr {
      RootUnreachable(t, tr, p);
    }
    assert lp != tr;
    assert Below(u, lp) == Below(t, lp);
  }

  /** The pointwise description of `SpliceFirstChild`. */
  lemma SpliceFirstChildShape<T>(s: Store<T>, root: Ptr, d: NodeRef, t: Store<T>, tr: NodeRef)
    requires Spliceable(s, root, d, t, tr)
    ensures var u := SpliceFirstChild(s, d, t, tr);
      && KeepsOld(s, d, t.sub.Keys, u) && KeepsNew(t, tr, u)
      && u.sub.Keys == s.sub.Keys + t.sub.Keys
      && u.nodes[d].left == tr && u.nodes[d].right == s.nodes[d].right
      && u.nodes[tr].right == s.nodes[d].left && u.nodes[tr].parent == d
      && u.sub[tr] == t.sub.Keys + Below(s, s.nodes[d].left)
  {
    var u := SpliceFirstChild(s, d, t, tr);
    assert Keyed(u);
    forall y | y in s.sub
      ensures OldAt(s, d, t.sub.Keys, u, y)
    {
      assert y !in t.sub;
    }
    forall y | y in t.sub
      ensures NewAt(t, tr, u, y)
    {
      assert y !in s.sub;
    }
  }

  /** Splicing a tree in as a first child keeps the store a well-formed tree. */
  lemma SpliceFirstChildWellFormed<T>(s: Store<T>, root: Ptr, d: NodeRef, t: Store<T>, tr: NodeRef)
    requires Spliceable(s, root, d, t, tr)
    ensures var u := SpliceFirstChild(s, d, t, tr);
      && WellFormed(u, root)
      && u.sub.Keys == s.sub.Keys + t.sub.Keys
  {
    var u := SpliceFirstChild(s, d, t, tr);
    SpliceFirstChildShape(s, root, d, t, tr);
    SpliceFirstChildAtD(s, root, d, t, tr, u);
    SpliceFirstChildAtRoot(s, root, d, t, tr, u);
    forall x | x in u.sub
      ensures RankedAt(u, x) && ParentAt(u, root, x)
    {
      if x != d && x != tr {
        if x in s.sub {
          SpliceOldNode(s, root, d, t, tr, u, x);
        } else {
          SpliceNewNode(s, root, d, t, tr, u, x);
        }
      }
    }
    assert root != null && RankedAt(s, root) && OldAt(s, d, t.sub.Keys, u, root);
    assert d in s.sub[root];
  }

  /** The splice point keeps its rank and parent after a first-child splice. */
  lemma SpliceFirstChildAtD<T>(s: Store<T>, root: Ptr, d: NodeRef, t: Store<T>, tr: NodeRef, u: Store<T>)
    requires Spliceable(s, root, d, t, tr) && KeepsOld(s, d, t.sub.Keys, u) && KeepsNew(t, tr, u)
    requires u.sub.Keys == s.sub.Keys + t.sub.Keys
    requires u.nodes[d].left == tr && u.nodes[d].right == s.nodes[d].right && u.nodes[tr].parent == d
    requires u.sub[tr] == t.sub.Keys + Below(s, s.nodes[d].left)
    ensures RankedAt(u, d) && ParentAt(u, root, d)
  {
    var T := t.sub.Keys;
    var r := s.nodes[d].right;
    assert RankedAt(s, d) && ParentAt(s, root, d) && OldAt(s, d, T, u, d);
    if r != null { assert RankedAt(s, r) && OldAt(s, d, T, u, r); }
    assert Below(u, r) == Below(s, r);
    var p := s.nodes[d].parent;
    if p != null {
      assert RankedAt(s, p) && OldAt(s, d, T, u, p);
      var lp := s.nodes[p].left;
      assert lp != null && d in Below(s, lp);
      assert OldAt(s, d, T, u, lp);
    }
  }

  /** The spliced root keeps its rank and gets `d` as parent after a first-child splice. */
  lemma SpliceFirstChildAtRoot<T>(s: Store<T>, root: Ptr, d: NodeRef, t: Store<T>, tr: NodeRef, u: Store<T>)
    requires Spliceable(s, root, d, t, tr) && KeepsOld(s, d, t.sub.Keys, u) && KeepsNew(t, tr, u)
    requires u.sub.Keys == s.sub.Keys + t.sub.Keys
    requires u.nodes[d].left == tr && u.nodes[tr].right == s.nodes[d].left && u.nodes[tr].parent == d
    requires u.sub[tr] == t.sub.Keys + Below(s, s.nodes[d].left)
    ensures RankedAt(u, tr) && ParentAt(u, root, tr)
  {
    var T := t.sub.Keys;
    var l0 := s.nodes[d].left;
    assert RankedAt(s, d) && ParentAt(s, root, d) && OldAt(s, d, T, u, d);
    assert RankedAt(t, tr) && ParentAt(t, tr, tr) && NewAt(t, tr, u, tr);
    if l0 != null { assert RankedAt(s, l0) && OldAt(s, d, T, u, l0); }
    var tl := t.nodes[tr].left;
    if tl != null { assert RankedAt(t, tl) && NewAt(t, tr, u, tl); }
    assert Below(u, tl) == Below(t, tl);
    assert Below(u, l0) == Below(s, l0);
  }

  /** The nodes that a first-child splice leaves with their old sibling links. */
  lemma SpliceFirstChildRights<T>(s: Store<T>, root: Ptr, d: NodeRef, t: Store<T>, tr: NodeRef)
    requires Spliceable(s, root, d, t, tr)
    ensures var u := SpliceFirstChild(s, d, t, tr);
      && (forall y | y in s.sub :: y in u.sub && u.nodes[y].right == s.nodes[y].right)
      && (forall y | y in t.sub && y != tr :: y in u.sub && u.nodes[y] == t.nodes[y])
  {
    var u := SpliceFirstChild(s, d, t, tr);
    SpliceFirstChildShape(s, root, d, t, tr);
    forall y | y in s.sub ensures y in u.sub && u.nodes[y].right == s.nodes[y].right {
      assert OldAt(s, d, t.sub.Keys, u, y);
    }
    forall y | y in t.sub && y != tr ensures y in u.sub && u.nodes[y] == t.nodes[y] {
      assert NewAt(t, tr, u, y);
    }
  }

  /**
   * The effect of a first-child splice on the children lists: `tr` is now
   * the first child of `d`, followed by `d`'s old children; every other node
   * keeps its children (in `s` or in `t`) and every node keeps its value.
   */
  lemma SpliceFirstChildChildren<T>(s: Store<T>, root: Ptr, d: NodeRef, t: Store<T>, tr: NodeRef)
    requires Spliceable(s, root, d, t, tr)
    ensures var u := SpliceFirstChild(s, d, t, tr);
      && WellFormed(u, root)
      && ChildIds(u, d) == [tr] + ChildIds(s, d)
      && (forall x | x in s.sub && x != d :: ChildIds(u, x) == ChildIds(s, x))
      && (forall x | x in t.sub :: ChildIds(u, x) == ChildIds(t, x))
      && (forall x | x in s.sub :: u.nodes[x].data == s.nodes[x].data)
      && (forall x | x in t.sub :: u.nodes[x].data == t.nodes[x].data)
  {
    var u := SpliceFirstChild(s, d, t, tr);
    var T := t.sub.Keys;
    SpliceFirstChildWellFormed(s, root, d, t, tr);
    SpliceFirstChildShape(s, root, d, t, tr);
    SpliceFirstChildRights(s, root, d, t, tr);
    forall x | x in s.sub
      ensures x != d ==> ChildIds(u, x) == ChildIds(s, x)
      ensures u.nodes[x].data == s.nodes[x].data
    {
      assert RankedAt(s, x) && OldAt(s, d, T, u, x);
      var l := s.nodes[x].left;
      if x != d {
        OldChainKept(s, u, l);
      }
    }
    forall x | x in t.sub
      ensures ChildIds(u, x) == ChildIds(t, x)
      ensures u.nodes[x].data == t.nodes[x].data
    {
      assert RankedAt(t, x) && NewAt(t, tr, u, x);
      var l := t.nodes[x].left;
      if l != null {
        assert RankedAt(t, l);
        if x != tr { RootUnreachable(t, tr, x); }
        assert tr !in Below(t, l);
      }
      NewChainKept(t, tr, u, l);
    }
    assert RankedAt(s, d) && OldAt(s, d, T, u, d);
    assert RankedAt(t, tr) && NewAt(t, tr, u, tr);
    var l0 := s.nodes[d].left;
    OldChainKept(s, u, l0);
    assert Chain(u, tr) == [tr] + Chain(u, l0);
  }

  /** A sibling chain of `s` whose sibling links `u` keeps is the same chain in `u`. */
  lemma OldChainKept<T>(s: Store<T>, u: Store<T>, c: Ptr)
    requires Ranked(s) && Ranked(u) && Linked(s, c) && s.sub.Keys <= u.sub.Keys
    requires forall y | y in s.sub :: y in u.sub && u.nodes[y].right == s.nodes[y].right
    ensures Chain(u, c) == Chain(s, c)
  {
    ChainInside(s, c);
    if c != null {
      assert RankedAt(s, c);
    }
    ChainFrame(s, u, c);
  }

  /** A sibling chain of `t` that avoids `t`'s root is the same chain in `u`. */
  lemma NewChainKept<T>(t: Store<T>, tr: NodeRef, u: Store<T>, c: Ptr)
    requires Ranked(t) && Ranked(u) && Linked(t, c) && t.sub.Keys <= u.sub.Keys
    requires tr !in Below(t, c)
    requires forall y | y in t.sub && y != tr :: y in u.sub && u.nodes[y] == t.nodes[y]
    ensures Chain(u, c) == Chain(t, c)
  {
    ChainInside(t, c);
    if c != null {
      assert RankedAt(t, c);
    }
    ChainFrame(t, u, c);
  }

  /**
   * The effect of a first-child splice on the abstract trees: the spliced
   * tree is unchanged, `d`'s tree gains it as first subtree, and the tree of
   * every node of `s` that does not contain `d` is unchanged.
   */
  lemma SpliceFirstChildTrees<T>(s: Store<T>, root: Ptr, d: NodeRef, t: Store<T>, tr: NodeRef)
    requires Spliceable(s, root, d, t, tr)
    ensures var u := SpliceFirstChild(s, d, t, tr);
      && WellFormed(u, root)
      && Subtree(u, tr) == Subtree(t, tr)
      && Subtree(u, d) == Tree(s.nodes[d].data, [Subtree(t, tr)] + Subtree(s, d).children)
      && (forall x | x in s.sub && d !in SubtreeNodes(s, x) :: Subtree(u, x) == Subtree(s, x))
  {
    var u := SpliceFirstChild(s, d, t, tr);
    var T := t.sub.Keys;
    SpliceFirstChildWellFormed(s, root, d, t, tr);
    SpliceFirstChildShape(s, root, d, t, tr);
    SpliceFirstChildRights(s, root, d, t, tr);
    assert RankedAt(t, tr) && NewAt(t, tr, u, tr);
    forall m | m in Below(t, t.nodes[tr].left)
      ensures m in t.sub && m in u.sub && u.nodes[m] == t.nodes[m]
    {
      assert m in t.sub[tr];
    }
    SubtreeFrame(t, u, tr);
    assert RankedAt(s, d) && OldAt(s, d, T, u, d);
    var l0 := s.nodes[d].left;
    if l0 != null { assert RankedAt(s, l0); }
    forall m | m in Below(s, l0)
      ensures m in s.sub && m in u.sub && u.nodes[m] == s.nodes[m]
    {
      assert OldAt(s, d, T, u, m);
    }
    ForestFrame(s, u, l0);
    assert Forest(u, tr) == [Subtree(u, tr)] + Forest(u, l0);
    forall x | x in s.sub && d !in SubtreeNodes(s, x)
      ensures Subtree(u, x) == Subtree(s, x)
    {
      assert RankedAt(s, x) && OldAt(s, d, T, u, x);
      var l := s.nodes[x].left;
      if l != null { assert RankedAt(s, l); }
      forall m | m in Below(s, l)
        ensures m in s.sub && m in u.sub && u.nodes[m] == s.nodes[m]
      {
        assert OldAt(s, d, T, u, m);
      }
      SubtreeFrame(s, u, x);
    }
  }

  /** The effect of a first-child splice that a caller of it relies on. */
  lemma SpliceFirstChildEffect<T>(s: Store<T>, root: Ptr, d: NodeRef, t: Store<T>, tr: NodeRef)
    requires Spliceable(s, root, d, t, tr)
    ensures var u := SpliceFirstChild(s, d, t, tr);
      && WellFormed(u, root) && u.sub.Keys == s.sub.Keys + t.sub.Keys
      && u.nodes[tr].parent == d && u.nodes[tr].data == t.nodes[tr].data
      && ChildIds(u, d) == [tr] + ChildIds(s, d)
      && Subtree(u, tr) == Subtree(t, tr)
      && Subtree(u, d) == Tree(s.nodes[d].data, [Subtree(t, tr)] + Subtree(s, d).children)
  {
    SpliceFirstChildWellFormed(s, root, d, t, tr);
    SpliceFirstChildChildren(s, root, d, t, tr);
    SpliceFirstChildTrees(s, root, d, t, tr);
  }

  // ---------------------------------------------------------------------
  // A tree spliced in as the next sibling of `d`
  // ---------------------------------------------------------------------

  /**
   * The store after the tree `t` rooted at `tr` becomes the next sibling of
   * `d`: `tr` gets `d`'s parent and `d`'s old next sibling, and `d`'s next
   * sibling is `tr`.
   */
  ghost function SpliceNextSibling<T>(s: Store<T>, d: NodeRef, t: Store<T>, tr: NodeRef): Store<T>
    requires Keyed(s) && Keyed(t) && d in s.sub && tr in t.sub
  {
    var dn, rn := s.nodes[d], t.nodes[tr];
    Store(
      (s.nodes + t.nodes)[d := dn.(right := tr)][tr := rn.(right := dn.right, parent := dn.parent)],
      map x | x in s.sub.Keys + t.sub.Keys ::
        if x == tr then t.sub[tr] + Below(s, dn.right)
        else if x in t.sub then t.sub[x]
        else if d in s.sub[x] then s.sub[x] + t.sub.Keys
        else s.sub[x])
  }

  /** The pointwise description of `SpliceNextSibling`. */
  lemma SpliceNextSiblingShape<T>(s: Store<T>, root: Ptr, d: NodeRef, t: Store<T>, tr: NodeRef)
    requires Spliceable(s, root, d, t, tr)
    ensures var u := SpliceNextSibling(s, d, t, tr);
      && KeepsOld(s, d, t.sub.Keys, u) && KeepsNew(t, tr, u)
      && u.sub.Keys == s.sub.Keys + t.sub.Keys
      && u.nodes[d].left == s.nodes[d].left && u.nodes[d].right == tr
      && u.nodes[tr].right == s.nodes[d].right && u.nodes[tr].parent == s.nodes[d].parent
      && u.sub[tr] == t.sub.Keys + Below(s, s.nodes[d].right)
  {
    var u := SpliceNextSibling(s, d, t, tr);
    assert Keyed(u);
    forall y | y in s.sub
      ensures OldAt(s, d, t.sub.Keys, u, y)
    {
      assert y !in t.sub;
    }
    forall y | y in t.sub
      ensures NewAt(t, tr, u, y)
    {
      assert y !in s.sub;
    }
  }

  /** The splice point keeps its rank and parent after a next-sibling splice. */
  lemma SpliceNextSiblingAtD<T>(s: Store<T>, root: Ptr, d: NodeRef, t: Store<T>, tr: NodeRef, u: Store<T>)
    requires Spliceable(s, root, d, t, tr) && KeepsOld(s, d, t.sub.Keys, u) && KeepsNew(t, tr, u)
    requires u.sub.Keys == s.sub.Keys + t.sub.Keys
    requires u.nodes[d].left == s.nodes[d].left && u.nodes[d].right == tr && u.nodes[tr].parent == s.nodes[d].parent
    requires u.sub[tr] == t.sub.Keys + Below(s, s.nodes[d].right)
    ensures RankedAt(u, d) && ParentAt(u, root, d)
  {
    var T := t.sub.Keys;
    var l := s.nodes[d].left;
    assert RankedAt(s, d) && ParentAt(s, root, d) && OldAt(s, d, T, u, d);
    if l != null { assert RankedAt(s, l) && OldAt(s, d, T, u, l); }
    assert Below(u, l) == Below(s, l);
    var p := s.nodes[d].parent;
    if p != null {
      assert RankedAt(s, p) && OldAt(s, d, T, u, p);
      var lp := s.nodes[p].left;
      assert lp != null && d in Below(s, lp);
      assert OldAt(s, d, T, u, lp);
    }
  }

  /** The spliced root after a next-sibling splice: ranked, with `d`'s parent as parent. */
  lemma SpliceNextSiblingAtRoot<T>(s: Store<T>, root: Ptr, d: NodeRef, t: Store<T>, tr: NodeRef, u: Store<T>)
    requires Spliceable(s, root, d, t, tr) && d != root
    requires KeepsOld(s, d, t.sub.Keys, u) && KeepsNew(t, tr, u)
    requires u.sub.Keys == s.sub.Keys + t.sub.Keys
    requires u.nodes[tr].right == s.nodes[d].right && u.nodes[tr].parent == s.nodes[d].parent
    requires u.sub[tr] == t.sub.Keys + Below(s, s.nodes[d].right)
    ensures RankedAt(u, tr) && ParentAt(u, root, tr)
  {
    var T := t.sub.Keys;
    var r0 := s.nodes[d].right;
    assert RankedAt(s, d) && RankedAt(t, tr) && NewAt(t, tr, u, tr);
    if r0 != null { assert RankedAt(s, r0) && OldAt(s, d, T, u, r0); }
    var tl := t.nodes[tr].left;
    if tl != null { assert RankedAt(t, tl) && NewAt(t, tr, u, tl); }
    assert Below(u, tl) == Below(t, tl);
    assert Below(u, r0) == Below(s, r0);
    assert RankedAt(u, tr);
    SpliceNextSiblingParentOfRoot(s, root, d, t, tr, u);
  }

  lemma SpliceNextSiblingParentOfRoot<T>(s: Store<T>, root: Ptr, d: NodeRef, t: Store<T>, tr: NodeRef, u: Store<T>)
    requires Spliceable(s, root, d, t, tr) && d != root
    requires KeepsOld(s, d, t.sub.Keys, u) && KeepsNew(t, tr, u)
    requires u.sub.Keys == s.sub.Keys + t.sub.Keys
    requires u.nodes[tr].right == s.nodes[d].right && u.nodes[tr].parent == s.nodes[d].parent
    ensures ParentAt(u, root, tr)
  {
    var T := t.sub.Keys;
    var r0 := s.nodes[d].right;
    assert ParentAt(s, root, d) && ParentAt(t, tr, tr) && NewAt(t, tr, u, tr);
    if r0 != null { assert OldAt(s, d, T, u, r0); }
    var tl := t.nodes[tr].left;
    if tl != null { assert NewAt(t, tr, u, tl); assert RankedAt(t, tr); }
    var p := s.nodes[d].parent;
    assert p != null && RankedAt(s, p) && OldAt(s, d, T, u, p);
    var lp := s.nodes[p].left;
    assert lp != null && d in Below(s, lp);
    assert OldAt(s, d, T, u, lp);
  }

  /** Splicing a tree in as the next sibling of a non-root node keeps the store a well-formed tree. */
  lemma SpliceNextSiblingWellFormed<T>(s: Store<T>, root: Ptr, d: NodeRef, t: Store<T>, tr: NodeRef)
    requires Spliceable(s, root, d, t, tr) && d != root
    ensures var u := SpliceNextSibling(s, d, t, tr);
      && WellFormed(u, root)
      && u.sub.Keys == s.sub.Keys + t.sub.Keys
  {
    var u := SpliceNextSibling(s, d, t, tr);
    var T := t.sub.Keys;
    SpliceNextSiblingShape(s, root, d, t, tr);
    SpliceNextSiblingAtD(s, root, d, t, tr, u);
    SpliceNextSiblingAtRoot(s, root, d, t, tr, u);
    var l := s.nodes[d].left;
    assert RankedAt(s, d);
    if l != null { assert RankedAt(s, l) && OldAt(s, d, T, u, l); }
    forall x | x in u.sub
      ensures RankedAt(u, x) && ParentAt(u, root, x)
    {
      if x != d && x != tr {
        if x in s.sub {
          SpliceOldNode(s, root, d, t, tr, u, x);
        } else {
          SpliceNewNode(s, root, d, t, tr, u, x);
        }
      }
    }
    assert root != null && RankedAt(s, root) && OldAt(s, d, T, u, root);
    assert d in s.sub[root];
  }

  /** In a chain of `s` through `d`, the spliced root now comes right after `d`. */
  lemma {:induction false} ChainInserted<T>(s: Store<T>, u: Store<T>, c: Ptr, d: NodeRef, tr: NodeRef)
    requires Ranked(s) && Ranked(u) && Linked(s, c) && s.sub.Keys <= u.sub.Keys && d in s.sub && tr !in s.sub
    requires forall y | y in s.sub && y != d :: y in u.sub && u.nodes[y].right == s.nodes[y].right
    requires tr in u.sub && u.nodes[d].right == tr && u.nodes[tr].right == s.nodes[d].right
    ensures Chain(u, c) == InsertAfter(Chain(s, c), d, tr)
    decreases Below(s, c)
  {
    if c != null {
      assert RankedAt(s, c);
      var r := s.nodes[c].right;
      assert Chain(s, c) == [c] + Chain(s, r);
      if c == d {
        ChainInside(s, r);
        if r != null { assert RankedAt(s, r); }
        assert d !in Chain(s, r);
        ChainFrame(s, u, r);
        assert Chain(u, d) == [d] + Chain(u, tr);
        assert Chain(u, tr) == [tr] + Chain(u, r);
      } else {
        ChainInserted(s, u, r, d, tr);
      }
    }
  }

  /**
   * The effect of a next-sibling splice on the children lists: `tr` comes
   * right after `d` among the children of `d`'s parent; every other node
   * keeps its children (in `s` or in `t`) and every node keeps its value.
   */
  lemma SpliceNextSiblingChildren<T>(s: Store<T>, root: Ptr, d: NodeRef, t: Store<T>, tr: NodeRef)
    requires Spliceable(s, root, d, t, tr) && d != root
    ensures var u := SpliceNextSibling(s, d, t, tr); var p := s.nodes[d].parent;
      && WellFormed(u, root)
      && p != null && p in s.sub && d in ChildIds(s, p)
      && ChildIds(u, p) == InsertAfter(ChildIds(s, p), d, tr)
      && (forall x | x in s.sub && x != p :: ChildIds(u, x) == ChildIds(s, x))
      && (forall x | x in t.sub :: ChildIds(u, x) == ChildIds(t, x))
      && (forall x | x in s.sub :: u.nodes[x].data == s.nodes[x].data)
      && (forall x | x in t.sub :: u.nodes[x].data == t.nodes[x].data)
  {
    var u := SpliceNextSibling(s, d, t, tr);
    var T := t.sub.Keys;
    var p := s.nodes[d].parent;
    SpliceNextSiblingWellFormed(s, root, d, t, tr);
    SpliceNextSiblingShape(s, root, d, t, tr);
    assert ParentAt(s, root, d);
    ChildIdsAreChildren(s, root, p, d);
    forall y | y in s.sub && y != d
      ensures y in u.sub && u.nodes[y].right == s.nodes[y].right
    {
      assert OldAt(s, d, T, u, y);
    }
    forall y | y in t.sub && y != tr
      ensures y in u.sub && u.nodes[y] == t.nodes[y]
    {
      assert NewAt(t, tr, u, y);
    }
    assert RankedAt(s, p) && OldAt(s, d, T, u, p);
    ChainInserted(s, u, s.nodes[p].left, d, tr);
    forall x | x in s.sub
      ensures x != p ==> ChildIds(u, x) == ChildIds(s, x)
      ensures u.nodes[x].data == s.nodes[x].data
    {
      assert RankedAt(s, x) && OldAt(s, d, T, u, x);
      var l := s.nodes[x].left;
      if x != p {
        if l != null {
          ChainParent(s, root, l);
          assert ParentAt(s, root, x);
          assert d !in Chain(s, l);
        }
        ChainInserted(s, u, l, d, tr);
        WithoutInsert(Chain(s, l), d, tr);
      }
    }
    forall x | x in t.sub
      ensures ChildIds(u, x) == ChildIds(t, x)
      ensures u.nodes[x].data == t.nodes[x].data
    {
      assert RankedAt(t, x) && NewAt(t, tr, u, x);
      var l := t.nodes[x].left;
      if l != null {
        assert RankedAt(t, l);
        if x != tr { RootUnreachable(t, tr, x); }
        assert tr !in Below(t, l);
      }
      NewChainKept(t, tr, u, l);
    }
  }

  /** Putting something after an absent element changes nothing. */
  lemma {:induction false} WithoutInsert<X>(xs: seq<X>, d: X, y: X)
    requires d !in xs
    ensures InsertAfter(xs, d, y) == xs
  {
    if xs != [] {
      WithoutInsert(xs[1..], d, y);
    }
  }

  /**
   * The effect of a next-sibling splice on the abstract trees: the spliced
   * tree is unchanged and the tree of every node of `s` that does not
   * contain `d` is unchanged.
   */
  lemma SpliceNextSiblingTrees<T>(s: Store<T>, root: Ptr, d: NodeRef, t: Store<T>, tr: NodeRef)
    requires Spliceable(s, root, d, t, tr) && d != root
    ensures var u := SpliceNextSibling(s, d, t, tr);
      && WellFormed(u, root)
      && Subtree(u, tr) == Subtree(t, tr)
      && (forall x | x in s.sub && d !in SubtreeNodes(s, x) :: Subtree(u, x) == Subtree(s, x))
  {
    var u := SpliceNextSibling(s, d, t, tr);
    var T := t.sub.Keys;
    SpliceNextSiblingWellFormed(s, root, d, t, tr);
    SpliceNextSiblingShape(s, root, d, t, tr);
    assert RankedAt(t, tr) && NewAt(t, tr, u, tr);
    forall m | m in Below(t, t.nodes[tr].left)
      ensures m in t.sub && m in u.sub && u.nodes[m] == t.nodes[m]
    {
      assert m in t.sub[tr];
      assert NewAt(t, tr, u, m);
    }
    SubtreeFrame(t, u, tr);
    forall x | x in s.sub && d !in SubtreeNodes(s, x)
      ensures Subtree(u, x) == Subtree(s, x)
    {
      assert RankedAt(s, x) && OldAt(s, d, T, u, x);
      var l := s.nodes[x].left;
      if l != null { assert RankedAt(s, l); }
      forall m | m in Below(s, l)
        ensures m in s.sub && m in u.sub && u.nodes[m] == s.nodes[m]
      {
        assert OldAt(s, d, T, u, m);
      }
      SubtreeFrame(s, u, x);
    }
  }

  /** The effect of a next-sibling splice that a caller of it relies on. */
  lemma SpliceNextSiblingEffect<T>(s: Store<T>, root: Ptr, d: NodeRef, t: Store<T>, tr: NodeRef)
    requires Spliceable(s, root, d, t, tr) && d != root
    ensures var u := SpliceNextSibling(s, d, t, tr); var p := s.nodes[d].parent;
      && WellFormed(u, root) && u.sub.Keys == s.sub.Keys + t.sub.Keys
      && p != null && p in s.sub && p in u.sub && d in ChildIds(s, p)
      && u.nodes[tr].parent == p && u.nodes[tr].data == t.nodes[tr].data
      && ChildIds(u, p) == InsertAfter(ChildIds(s, p), d, tr)
      && Subtree(u, tr) == Subtree(t, tr)
  {
    SpliceNextSiblingWellFormed(s, root, d, t, tr);
    SpliceNextSiblingChildren(s, root, d, t, tr);
    SpliceNextSiblingTrees(s, root, d, t, tr);
  }

  // ---------------------------------------------------------------------
  // A subtree detached and deleted
  // ---------------------------------------------------------------------

  /** A node's fields with every link to `p` redirected to `next`. */
  function Unlink<T>(n: Node<T>, p: NodeRef, next: Ptr): Node<T>
  {
    n.(left := if n.left == p then next else n.left, right := if n.right == p then next else n.right)
  }

  /**
   * The store after the subtree rooted at `p` is removed: its nodes are gone
   * and the one link that pointed at `p` (from its parent or from its
   * previous sibling) now points at `p`'s next sibling.
   */
  ghost function Detach<T>(s: Store<T>, p: NodeRef): Store<T>
    requires Ranked(s) && p in s.sub
  {
    var D := SubtreeNodes(s, p);
    var next := s.nodes[p].right;
    Store(
      map x | x in s.sub.Keys - D :: Unlink(s.nodes[x], p, next),
      map x | x in s.sub.Keys - D :: s.sub[x] - D)
  }

  /** The node `x` that survives a detach of `p`, as `u` holds it. */
  ghost predicate DetachedAt<T>(s: Store<T>, p: NodeRef, u: Store<T>, x: NodeRef)
    requires Ranked(s) && p in s.sub && Keyed(u) && x in s.sub && x in u.sub
  {
    u.nodes[x] == Unlink(s.nodes[x], p, s.nodes[p].right) && u.sub[x] == s.sub[x] - SubtreeNodes(s, p)
  }

  ghost predicate DetachShape<T>(s: Store<T>, p: NodeRef, u: Store<T>)
    requires Ranked(s) && p in s.sub
  {
    && Keyed(u) && u.sub.Keys == s.sub.Keys - SubtreeNodes(s, p)
    && forall x {:trigger DetachedAt(s, p, u, x)} | x in u.sub :: DetachedAt(s, p, u, x)
  }

  lemma DetachHasShape<T>(s: Store<T>, p: NodeRef)
    requires Ranked(s) && p in s.sub
    ensures DetachShape(s, p, Detach(s, p))
  {
  }

  /**
   * Around a removed subtree rooted at `p` (not the root): the root stays, no
   * surviving node has a parent inside the subtree, and the only link from a
   * surviving node into the subtree is a link to `p` itself.
   */
  lemma DetachBorder<T>(s: Store<T>, root: Ptr, p: NodeRef, y: NodeRef)
    requires WellFormed(s, root) && p in s.sub && p != root
    requires y in s.sub && y !in SubtreeNodes(s, p)
    ensures root != null && root !in SubtreeNodes(s, p)
    ensures s.nodes[y].parent !in SubtreeNodes(s, p)
    ensures s.nodes[y].left in SubtreeNodes(s, p) ==> s.nodes[y].left == p
    ensures s.nodes[y].right in SubtreeNodes(s, p) ==> s.nodes[y].right == p
  {
    var D := SubtreeNodes(s, p);
    var lp := s.nodes[p].left;
    RootSurvives(s, root, p);
    assert RankedAt(s, p) && ParentAt(s, root, p) && ParentAt(s, root, y);
    var q := s.nodes[y].parent;
    if q != null && q in D {
      assert RankedAt(s, q);
      if q != p {
        SubTransitive(s, lp, q);
      }
      assert false;
    }
    var l := s.nodes[y].left;
    if l in D && l != p {
      ParentsInside(s, root, lp, l);
      assert false;
    }
    var r := s.nodes[y].right;
    if r in D && r != p {
      ParentsInside(s, root, lp, r);
      assert false;
    }
  }

  /** The root is not inside the subtree of any other node. */
  lemma RootSurvives<T>(s: Store<T>, root: Ptr, p: NodeRef)
    requires WellFormed(s, root) && p in s.sub && p != root
    ensures root != null && root !in SubtreeNodes(s, p)
  {
    var lp := s.nodes[p].left;
    assert RankedAt(s, p) && ParentAt(s, root, p);
    if lp != null {
      assert ParentAt(s, root, lp);
      RootUnreachable(s, root, lp);
    }
  }

  /** The parent of a node other than the root survives the detach of that node. */
  lemma ParentOutside<T>(s: Store<T>, root: Ptr, p: NodeRef)
    requires WellFormed(s, root) && p in s.sub && p != root
    ensures var q := s.nodes[p].parent;
      q != null && q in s.sub && q !in SubtreeNodes(s, p) && p in ChildIds(s, q)
  {
    var q, lp := s.nodes[p].parent, s.nodes[p].left;
    assert ParentAt(s, root, p) && RankedAt(s, p);
    assert RankedAt(s, q);
    if q in SubtreeNodes(s, p) {
      SubTransitive(s, lp, q);
      assert false;
    }
    ChildIdsAreChildren(s, root, q, p);
  }

  /** The node a link `c` of a surviving node leads to once `p` is detached. */
  function Skip<T>(c: Ptr, p: NodeRef, next: Ptr): Ptr
  {
    if c == p then next else c
  }

  /** A link of a surviving node leads, after the detach, to what it reached minus the subtree. */
  lemma DetachBelow<T>(s: Store<T>, root: Ptr, p: NodeRef, u: Store<T>, c: Ptr)
    requires WellFormed(s, root) && p in s.sub && p != root && DetachShape(s, p, u)
    requires Linked(s, c) && (c in SubtreeNodes(s, p) ==> c == p)
    ensures var c' := Skip<T>(c, p, s.nodes[p].right);
      Linked(u, c') && Below(u, c') == Below(s, c) - SubtreeNodes(s, p)
  {
    var D := SubtreeNodes(s, p);
    var next := s.nodes[p].right;
    assert RankedAt(s, p);
    if next != null {
      assert RankedAt(s, next);
      assert next !in D;
      assert DetachedAt(s, p, u, next);
      assert Below(s, next) !! D;
    }
    if c != null && c != p {
      assert c !in D;
      assert DetachedAt(s, p, u, c);
    }
  }

  /**
   * The node map after the one link to `p` (first-child link when `viaLeft`,
   * else next-sibling link, of the node `y`) is redirected to `p`'s next
   * sibling.
   */
  ghost function Relinked<T>(s: Store<T>, p: NodeRef, y: NodeRef, viaLeft: bool): map<NodeRef, Node<T>>
    requires p in s.nodes && y in s.nodes
  {
    var n, next := s.nodes[y], s.nodes[p].right;
    s.nodes[y := if viaLeft then n.(left := next) else n.(right := next)]
  }

  /**
   * Redirecting the link that leads to `p` and then dropping the nodes of
   * `p`'s subtree gives the node map of the detach; the dropped nodes keep
   * their fields until then.
   */
  lemma DetachRelink<T>(s: Store<T>, root: Ptr, p: NodeRef, y: NodeRef, viaLeft: bool)
    requires WellFormed(s, root) && p in s.sub && p != root && y in s.sub
    requires if viaLeft then s.nodes[y].left == p else s.nodes[y].right == p
    ensures var D, N := SubtreeNodes(s, p), Relinked(s, p, y, viaLeft);
      && y !in D && N.Keys == s.nodes.Keys
      && (forall x | x in D :: x in N && N[x] == s.nodes[x])
      && N - D == Detach(s, p).nodes
  {
    var D, N := SubtreeNodes(s, p), Relinked(s, p, y, viaLeft);
    var next := s.nodes[p].right;
    assert RankedAt(s, p) && RankedAt(s, y);
    if y in D {
      assert false;
    }
    assert ParentAt(s, root, root) && RankedAt(s, root);
    forall x | x in s.sub.Keys - D
      ensures N[x] == Unlink(s.nodes[x], p, next)
    {
      if x != y && (s.nodes[x].left == p || s.nodes[x].right == p) {
        SingleOwner(s, root, x, y, p);
      }
    }
  }

  /** Dropping all the nodes of the root's subtree leaves the node map of the detach of the root: nothing. */
  lemma DetachRoot<T>(s: Store<T>, root: NodeRef)
    requires WellFormed(s, root)
    ensures s.nodes - SubtreeNodes(s, root) == Detach(s, root).nodes == map[]
  {
    assert RankedAt(s, root);
  }

  /** A node that survives a detach stays ranked and correctly parented. */
  lemma DetachAt<T>(s: Store<T>, root: Ptr, p: NodeRef, u: Store<T>, x: NodeRef)
    requires WellFormed(s, root) && p in s.sub && p != root && DetachShape(s, p, u)
    requires x in u.sub
    ensures RankedAt(u, x) && ParentAt(u, root, x)
  {
    var D := SubtreeNodes(s, p);
    var next := s.nodes[p].right;
    assert DetachedAt(s, p, u, x);
    DetachBorder(s, root, p, x);
    assert RankedAt(s, x) && ParentAt(s, root, x) && ParentAt(s, root, p);
    var l, r, q := s.nodes[x].left, s.nodes[x].right, s.nodes[x].parent;
    DetachBelow(s, root, p, u, l);
    DetachBelow(s, root, p, u, r);
    assert RankedAt(u, x);
    if q != null {
      assert RankedAt(s, q);
      DetachBorder(s, root, p, q);
      assert DetachedAt(s, p, u, q);
      DetachBelow(s, root, p, u, s.nodes[q].left);
    }
    var l', r' := u.nodes[x].left, u.nodes[x].right;
    if l' != null {
      if l == p { assert ParentAt(s, root, p); } else { assert l !in D; }
      assert DetachedAt(s, p, u, l');
    }
    if r' != null {
      if r == p { assert ParentAt(s, root, p); } else { assert r !in D; }
      assert DetachedAt(s, p, u, r');
    }
  }

  /** Detaching a subtree leaves a well-formed tree; detaching the root leaves the empty tree. */
  lemma DetachWellFormed<T>(s: Store<T>, root: Ptr, p: NodeRef)
    requires WellFormed(s, root) && p in s.sub
    ensures var u := Detach(s, p);
      && WellFormed(u, if p == root then null else root)
      && u.sub.Keys == s.sub.Keys - SubtreeNodes(s, p)
  {
    var u := Detach(s, p);
    DetachHasShape(s, p);
    if p == root {
      assert RankedAt(s, p);
      assert u.sub.Keys == {};
    } else {
      forall x | x in u.sub
        ensures RankedAt(u, x) && ParentAt(u, root, x)
      {
        DetachAt(s, root, p, u, x);
      }
      RootSurvives(s, root, p);
      assert RankedAt(s, root) && DetachedAt(s, p, u, root);
    }
  }

  /** The sibling chain through a surviving link loses `p` and keeps its order. */
  lemma {:induction false} DetachChain<T>(s: Store<T>, root: Ptr, p: NodeRef, u: Store<T>, c: Ptr)
    requires WellFormed(s, root) && p in s.sub && p != root && DetachShape(s, p, u)
    requires Linked(s, c) && (c in SubtreeNodes(s, p) ==> c == p)
    requires Ranked(u)
    ensures var c' := Skip<T>(c, p, s.nodes[p].right);
      Linked(u, c') && Chain(u, c') == Without(Chain(s, c), p)
    decreases Below(s, c)
  {
    DetachBelow(s, root, p, u, c);
    var next := s.nodes[p].right;
    if c == p {
      assert RankedAt(s, p);
      if next != null {
        assert RankedAt(s, next);
      }
      ChainInside(s, next);
      DetachChain(s, root, p, u, next);
      assert Chain(s, p) == [p] + Chain(s, next);
      assert p !in Chain(s, next);
      WithoutAbsent(Chain(s, next), p);
      assert ([p] + Chain(s, next))[1..] == Chain(s, next);
    } else if c != null {
      assert RankedAt(s, c) && DetachedAt(s, p, u, c);
      DetachBorder(s, root, p, c);
      var r := s.nodes[c].right;
      DetachChain(s, root, p, u, r);
      assert Chain(u, c) == [c] + Chain(u, u.nodes[c].right);
      assert ([c] + Chain(s, r))[1..] == Chain(s, r);
    }
  }

  /**
   * After a detach of `p`, every remaining node keeps its value, and its
   * children are its old children without `p`, in the same order.
   */
  lemma DetachChildren<T>(s: Store<T>, root: Ptr, p: NodeRef)
    requires WellFormed(s, root) && p in s.sub && p != root
    ensures var u := Detach(s, p);
      && WellFormed(u, root)
      && forall x | x in u.sub :: x in s.sub && u.nodes[x].data == s.nodes[x].data && ChildIds(u, x) == Without(ChildIds(s, x), p)
  {
    var u := Detach(s, p);
    DetachHasShape(s, p);
    DetachWellFormed(s, root, p);
    forall x | x in u.sub
      ensures x in s.sub && u.nodes[x].data == s.nodes[x].data && ChildIds(u, x) == Without(ChildIds(s, x), p)
    {
      assert DetachedAt(s, p, u, x) && RankedAt(s, x) && RankedAt(u, x);
      DetachBorder(s, root, p, x);
      DetachChain(s, root, p, u, s.nodes[x].left);
    }
  }

  /** A subtree that does not meet the detached one is unchanged. */
  lemma DetachTrees<T>(s: Store<T>, root: Ptr, p: NodeRef, u: Store<T>, c: NodeRef)
    requires WellFormed(s, root) && p in s.sub && DetachShape(s, p, u) && Ranked(u)
    requires c in s.sub && SubtreeNodes(s, c) !! SubtreeNodes(s, p)
    ensures c in u.sub && Subtree(u, c) == Subtree(s, c)
  {
    var D := SubtreeNodes(s, p);
    assert RankedAt(s, c) && DetachedAt(s, p, u, c);
    var l := s.nodes[c].left;
    if l != null {
      assert RankedAt(s, l);
    }
    forall m | m in Below(s, l)
      ensures m in s.sub && m in u.sub && u.nodes[m].data == s.nodes[m].data
      ensures u.nodes[m].left == s.nodes[m].left && u.nodes[m].right == s.nodes[m].right
    {
      SubTransitive(s, l, m);
      assert RankedAt(s, m) && DetachedAt(s, p, u, m);
      var ml, mr := s.nodes[m].left, s.nodes[m].right;
      if ml != null {
        assert RankedAt(s, ml);
      }
      if mr != null {
        assert RankedAt(s, mr);
      }
    }
    SubtreeFrame(s, u, c);
  }

  /**
   * The parent of a detached node keeps its value and its other child trees
   * in order: the detached child's tree is cut out of its children list.
   */
  lemma DetachParentTree<T>(s: Store<T>, root: Ptr, p: NodeRef, k: nat)
    requires WellFormed(s, root) && p in s.sub && p != root
    requires var q := s.nodes[p].parent; q != null && q in s.sub && k < |ChildIds(s, q)| && ChildIds(s, q)[k] == p
    ensures var u, q := Detach(s, p), s.nodes[p].parent;
      && WellFormed(u, root) && q in u.sub && |Subtree(s, q).children| == |ChildIds(s, q)|
      && Subtree(u, q) == Tree(s.nodes[q].data, Subtree(s, q).children[..k] + Subtree(s, q).children[k + 1..])
  {
    var u, q := Detach(s, p), s.nodes[p].parent;
    DetachHasShape(s, p);
    DetachChildren(s, root, p);
    ParentOutside(s, root, p);
    var C := ChildIds(s, q);
    DetachDropsChild(s, p, q, k);
    var C' := ChildIds(u, q);
    assert C' == C[..k] + C[k + 1..];
    SubtreeByChildren(s, q);
    SubtreeByChildren(u, q);
    var kids := Subtree(s, q).children;
    var want := kids[..k] + kids[k + 1..];
    forall i | 0 <= i < |C'|
      ensures Subtree(u, q).children[i] == want[i]
    {
      var j := if i < k then i else i + 1;
      assert C'[i] == C[j];
      DetachSibling(s, root, p, u, q, k, j);
    }
    assert Subtree(u, q).children == want;
  }

  /**
   * The effect of a detach of a node other than the root that a caller of it
   * relies on: the tree stays well formed, and the detached node's tree is
   * cut out of its parent's children.
   */
  lemma DetachEffect<T>(s: Store<T>, root: Ptr, p: NodeRef)
    requires WellFormed(s, root) && p in s.sub && p != root
    ensures var u, q := Detach(s, p), s.nodes[p].parent;
      && WellFormed(u, root) && u.sub.Keys == s.sub.Keys - SubtreeNodes(s, p)
      && q != null && q in s.sub && q in u.sub && p in ChildIds(s, q)
      && ChildIds(u, q) == Without(ChildIds(s, q), p)
      && |Subtree(s, q).children| == |ChildIds(s, q)|
      && forall k | 0 <= k < |ChildIds(s, q)| && ChildIds(s, q)[k] == p ::
           Subtree(u, q) == Tree(s.nodes[q].data, Subtree(s, q).children[..k] + Subtree(s, q).children[k + 1..])
  {
    var u, q := Detach(s, p), s.nodes[p].parent;
    DetachWellFormed(s, root, p);
    ParentOutside(s, root, p);
    DetachChildren(s, root, p);
    SubtreeByChildren(s, q);
    forall k | 0 <= k < |ChildIds(s, q)| && ChildIds(s, q)[k] == p
      ensures Subtree(u, q) == Tree(s.nodes[q].data, Subtree(s, q).children[..k] + Subtree(s, q).children[k + 1..])
    {
      DetachParentTree(s, root, p, k);
    }
  }

  /** Removing the `k`-th child from a children list cuts out position `k`. */
  lemma DetachDropsChild<T>(s: Store<T>, p: NodeRef, q: NodeRef, k: nat)
    requires Ranked(s) && q in s.sub && k < |ChildIds(s, q)| && ChildIds(s, q)[k] == p
    ensures Without(ChildIds(s, q), p) == ChildIds(s, q)[..k] + ChildIds(s, q)[k + 1..]
  {
    var C := ChildIds(s, q);
    assert RankedAt(s, q);
    ChainInside(s, s.nodes[q].left);
    assert C == C[..k] + [p] + C[k + 1..];
    assert p !in C[..k] && p !in C[k + 1..] by {
      forall i | 0 <= i < |C| && i != k ensures C[i] != p { }
    }
    WithoutSplit(C[..k], p, C[k + 1..]);
  }

  /** A sibling of a detached node keeps its whole subtree. */
  lemma DetachSibling<T>(s: Store<T>, root: Ptr, p: NodeRef, u: Store<T>, q: NodeRef, k: nat, j: nat)
    requires WellFormed(s, root) && p in s.sub && DetachShape(s, p, u) && Ranked(u)
    requires q in s.sub && k < |ChildIds(s, q)| && j < |ChildIds(s, q)| && j != k && ChildIds(s, q)[k] == p
    ensures ChildIds(s, q)[j] in u.sub && Subtree(u, ChildIds(s, q)[j]) == Subtree(s, ChildIds(s, q)[j])
  {
    assert RankedAt(s, q);
    if j < k {
      SiblingsDisjoint(s, s.nodes[q].left, j, k);
    } else {
      SiblingsDisjoint(s, s.nodes[q].left, k, j);
    }
    DetachTrees(s, root, p, u, ChildIds(s, q)[j]);
  }

  // ---------------------------------------------------------------------
  // A deep copy: the same tree on fresh nodes
  // ---------------------------------------------------------------------

  /** `p` renamed by `f`; null and pointers `f` does not rename become null. */
  function MapPtr(f: map<NodeRef, NodeRef>, p: Ptr): Ptr
  {
    if p != null && p in f then f[p] else null
  }

  /** The fields of a node with its three links renamed by `f`. */
  function MapNode<T>(f: map<NodeRef, NodeRef>, n: Node<T>): Node<T>
  {
    Node(n.data, MapPtr(f, n.left), MapPtr(f, n.right), MapPtr(f, n.parent))
  }

  /** The set `S` renamed by `f`. */
  ghost function MapSet(f: map<NodeRef, NodeRef>, S: set<NodeRef>): set<NodeRef>
  {
    set y | y in S && y in f :: f[y]
  }

  /** `g` undoes `f` at the copy `y`. */
  ghost predicate InverseAt(f: map<NodeRef, NodeRef>, g: map<NodeRef, NodeRef>, y: NodeRef)
    requires y in g
  {
    g[y] in f && f[g[y]] == y
  }

  /** The original `x` has been copied to `f[x]`, whose fields are `x`'s fields renamed by `f`. */
  ghost predicate CopiedAt<T>(s: Store<T>, f: map<NodeRef, NodeRef>, g: map<NodeRef, NodeRef>, cn: map<NodeRef, Node<T>>, x: NodeRef)
    requires x in f && x in s.nodes
  {
    f[x] in g && g[f[x]] == x && f[x] in cn && cn[f[x]] == MapNode(f, s.nodes[x])
  }

  /**
   * The node map `cn` holds a copy of the nodes of `s` that `f` has renamed so
   * far: `g` maps each copy back to its original, and each copy's links are
   * its original's links renamed (links to nodes not yet copied are null).
   */
  ghost predicate PartialCopy<T>(s: Store<T>, f: map<NodeRef, NodeRef>, g: map<NodeRef, NodeRef>, cn: map<NodeRef, Node<T>>)
  {
    && f.Keys <= s.nodes.Keys && g.Keys == cn.Keys
    && (forall y {:trigger InverseAt(f, g, y)} | y in g :: InverseAt(f, g, y))
    && forall x {:trigger CopiedAt(s, f, g, cn, x)} | x in f :: CopiedAt(s, f, g, cn, x)
  }

  /** The store of a completed copy: its reachable sets are the originals' renamed. */
  ghost function CopyStore<T>(s: Store<T>, f: map<NodeRef, NodeRef>, g: map<NodeRef, NodeRef>, cn: map<NodeRef, Node<T>>): Store<T>
    requires PartialCopy(s, f, g, cn) && s.nodes.Keys == s.sub.Keys
  {
    Store(cn, map y | y in g :: assert InverseAt(f, g, y); MapSet(f, s.sub[g[y]]))
  }

  /** A renaming with an inverse renames disjoint sets to disjoint sets. */
  lemma MapSetDisjoint(f: map<NodeRef, NodeRef>, g: map<NodeRef, NodeRef>, A: set<NodeRef>, B: set<NodeRef>)
    requires forall x {:trigger f[x]} | x in f :: f[x] in g && g[f[x]] == x
    requires A !! B
    ensures MapSet(f, A) !! MapSet(f, B)
  {
  }

  /** What a copied link reaches is the renaming of what the original link reaches. */
  lemma CopyBelow<T>(s: Store<T>, f: map<NodeRef, NodeRef>, g: map<NodeRef, NodeRef>, cn: map<NodeRef, Node<T>>, l: Ptr)
    requires Ranked(s) && PartialCopy(s, f, g, cn) && f.Keys == s.sub.Keys && Linked(s, l)
    ensures var c, l' := CopyStore(s, f, g, cn), MapPtr(f, l);
      Linked(c, l') && Below(c, l') == MapSet(f, Below(s, l))
  {
    if l != null {
      assert CopiedAt(s, f, g, cn, l);
    }
  }

  /** At every copy, the copied store is ranked and correctly parented. */
  lemma CopyAt<T>(s: Store<T>, root: NodeRef, f: map<NodeRef, NodeRef>, g: map<NodeRef, NodeRef>, cn: map<NodeRef, Node<T>>, x: NodeRef)
    requires WellFormed(s, root) && PartialCopy(s, f, g, cn) && f.Keys == s.sub.Keys && x in s.sub
    ensures var c := CopyStore(s, f, g, cn);
      Keyed(c) && f[x] in c.sub && RankedAt(c, f[x]) && ParentAt(c, f[root], f[x])
  {
    var c := CopyStore(s, f, g, cn);
    forall y | y in g ensures y in cn { assert InverseAt(f, g, y); }
    assert RankedAt(s, x) && ParentAt(s, root, x) && CopiedAt(s, f, g, cn, x);
    forall z {:trigger f[z]} | z in f ensures f[z] in g && g[f[z]] == z { assert CopiedAt(s, f, g, cn, z); }
    var l, r, q := s.nodes[x].left, s.nodes[x].right, s.nodes[x].parent;
    CopyBelow(s, f, g, cn, l);
    CopyBelow(s, f, g, cn, r);
    MapSetDisjoint(f, g, Below(s, l), Below(s, r));
    MapSetDisjoint(f, g, {x}, Below(s, l));
    MapSetDisjoint(f, g, {x}, Below(s, r));
    assert MapSet(f, {x}) == {f[x]};
    assert MapSet(f, s.sub[x]) == MapSet(f, {x}) + MapSet(f, Below(s, l)) + MapSet(f, Below(s, r));
    assert MapSet(f, s.sub[x]) <= c.sub.Keys;
    assert RankedAt(c, f[x]);
    assert CopiedAt(s, f, g, cn, root);
    if q != null {
      assert CopiedAt(s, f, g, cn, q) && RankedAt(s, q);
      CopyBelow(s, f, g, cn, s.nodes[q].left);
    }
    if l != null {
      assert CopiedAt(s, f, g, cn, l);
    }
    if r != null {
      assert CopiedAt(s, f, g, cn, r);
    }
  }

  /**
   * A completed copy of a well-formed tree is a well-formed tree rooted at
   * the copy of the root, and the copy of every node carries the same
   * abstract subtree as its original.
   */
  lemma CopyWellFormed<T>(s: Store<T>, root: NodeRef, f: map<NodeRef, NodeRef>, g: map<NodeRef, NodeRef>, cn: map<NodeRef, Node<T>>)
    requires WellFormed(s, root) && PartialCopy(s, f, g, cn) && f.Keys == s.sub.Keys
    ensures var c := CopyStore(s, f, g, cn);
      && WellFormed(c, f[root]) && c.sub.Keys == cn.Keys
      && forall x | x in s.sub :: f[x] in c.sub && Subtree(c, f[x]) == Subtree(s, x)
  {
    var c := CopyStore(s, f, g, cn);
    forall y | y in c.sub
      ensures RankedAt(c, y) && ParentAt(c, f[root], y)
    {
      assert InverseAt(f, g, y);
      CopyAt(s, root, f, g, cn, g[y]);
    }
    CopyAt(s, root, f, g, cn, root);
    assert RankedAt(s, root) && CopiedAt(s, f, g, cn, root);
    assert c.sub[f[root]] == MapSet(f, s.sub.Keys);
    forall y | y in c.sub ensures y in MapSet(f, s.sub.Keys) {
      assert InverseAt(f, g, y);
    }
    forall x | x in s.sub
      ensures f[x] in c.sub && Subtree(c, f[x]) == Subtree(s, x)
    {
      CopySubtree(s, root, f, g, cn, x);
    }
  }

  lemma {:induction false} CopySubtree<T>(s: Store<T>, root: NodeRef, f: map<NodeRef, NodeRef>, g: map<NodeRef, NodeRef>, cn: map<NodeRef, Node<T>>, x: NodeRef)
    requires WellFormed(s, root) && PartialCopy(s, f, g, cn) && f.Keys == s.sub.Keys && x in s.sub
    requires Ranked(CopyStore(s, f, g, cn))
    ensures f[x] in CopyStore(s, f, g, cn).sub && Subtree(CopyStore(s, f, g, cn), f[x]) == Subtree(s, x)
    decreases s.sub[x], 1
  {
    assert RankedAt(s, x) && CopiedAt(s, f, g, cn, x);
    CopyForest(s, root, f, g, cn, s.nodes[x].left);
  }

  lemma {:induction false} CopyForest<T>(s: Store<T>, root: NodeRef, f: map<NodeRef, NodeRef>, g: map<NodeRef, NodeRef>, cn: map<NodeRef, Node<T>>, l: Ptr)
    requires WellFormed(s, root) && PartialCopy(s, f, g, cn) && f.Keys == s.sub.Keys && Linked(s, l)
    requires Ranked(CopyStore(s, f, g, cn))
    ensures Linked(CopyStore(s, f, g, cn), MapPtr(f, l)) && Forest(CopyStore(s, f, g, cn), MapPtr(f, l)) == Forest(s, l)
    decreases Below(s, l), 2
  {
    if l != null {
      assert RankedAt(s, l) && CopiedAt(s, f, g, cn, l);
      CopySubtree(s, root, f, g, cn, l);
      CopyForest(s, root, f, g, cn, s.nodes[l].right);
    }
  }

  /**
   * Copying one more node: `child`, not yet copied, gets the fresh copy `k`
   * holding its value and the copy of its parent, and the copy of the one
   * node that links to `child` (through its first-child link when `viaLeft`,
   * else through its next-sibling link) now links to `k`.  The copy stays a
   * faithful partial copy.
   */
  lemma CopyExtend<T>(s: Store<T>, root: Ptr, f: map<NodeRef, NodeRef>, g: map<NodeRef, NodeRef>, cn: map<NodeRef, Node<T>>,
                      owner: NodeRef, viaLeft: bool, child: NodeRef, k: NodeRef)
    requires WellFormed(s, root) && PartialCopy(s, f, g, cn)
    requires child in s.sub && child !in f && k !in cn && owner in f
    requires if viaLeft then s.nodes[owner].left == child else s.nodes[owner].right == child
    requires s.nodes[child].parent != null && s.nodes[child].parent in f
    requires MapPtr(f, s.nodes[child].left) == null && MapPtr(f, s.nodes[child].right) == null
    requires forall x | x in f :: s.nodes[x].parent != child
    ensures f[owner] in cn && f[owner] != k
    ensures var cn1 := cn[k := Node(s.nodes[child].data, null, null, f[s.nodes[child].parent])];
      var o := cn1[f[owner]];
      var cn2 := cn1[f[owner] := if viaLeft then o.(left := k) else o.(right := k)];
      PartialCopy(s, f[child := k], g[k := child], cn2)
  {
    var f', g' := f[child := k], g[k := child];
    var cn1 := cn[k := Node(s.nodes[child].data, null, null, f[s.nodes[child].parent])];
    assert CopiedAt(s, f, g, cn, owner);
    var o := cn1[f[owner]];
    var cn2 := cn1[f[owner] := if viaLeft then o.(left := k) else o.(right := k)];
    assert RankedAt(s, child) && RankedAt(s, owner) && RankedAt(s, root);
    forall y | y in g' ensures InverseAt(f', g', y) {
      if y != k {
        assert InverseAt(f, g, y);
      }
    }
    forall x | x in f' ensures CopiedAt(s, f', g', cn2, x) {
      if x == child {
      } else if x == owner {
      } else {
        assert CopiedAt(s, f, g, cn, x);
        if s.nodes[x].left == child || s.nodes[x].right == child {
          SingleOwner(s, root, x, owner, child);
        }
        assert InverseAt(f, g, f[x]);
        assert f[x] != f[owner];
      }
    }
  }
}
