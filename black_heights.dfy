/** The colour rules of a red-black tree, which verifyNoConsecutiveRed and verifyBlackLength of
    IntervalTree.java check, stated node by node over a ghost black height: bh[i] is the number
    of black nodes on each path from just below node i down to a missing child. */
module BlackHeights {
  import opened TreeNodes
  import opened LeftRotations
  import opened RightRotations

  /** The black nodes on each path from x down to a missing child, x included; none for a
      missing child. */
  function Height(ns: Nodes, bh: seq<nat>, x: int): nat
    requires ns.Sized() && |bh| == ns.Size()
  {
    if 0 <= x < ns.Size() then bh[x] + (if ns.color[x] == Black then 1 else 0) else 0
  }

  /** The node in slot x once d, a node with at most one child, has been replaced by that
      child: Child(d) for d, x itself otherwise. While delete repairs the colours, d is still
      in the tree; the rules below are about the tree delete is heading for. With d == NIL
      there is no such node. */
  function Stand(ns: Nodes, d: int, x: int): int
    requires ns.Sized()
  {
    if x == d && 0 <= d < ns.Size() then Child(ns, d) else x
  }

  /** The black-height rule at node i: each child, as it stands, has bh[i] black nodes on each
      of its paths. */
  ghost predicate BalancedAt(ns: Nodes, bh: seq<nat>, d: int, i: int)
    requires ns.Sized() && |bh| == ns.Size() && 0 <= i < ns.Size()
  {
    Height(ns, bh, Stand(ns, d, ns.left[i])) == bh[i] &&
    Height(ns, bh, Stand(ns, d, ns.right[i])) == bh[i]
  }

  /** The red rule at node i: a red node has black children, as they stand, except that child
      e may be red. */
  ghost predicate RedOkAt(ns: Nodes, d: int, e: int, i: int)
    requires ns.Sized() && 0 <= i < ns.Size()
  {
    ns.color[i] == Red ==>
      (ns.left[i] == e || NodeColor(ns, Stand(ns, d, ns.left[i])) == Black) &&
      (ns.right[i] == e || NodeColor(ns, Stand(ns, d, ns.right[i])) == Black)
  }

  /** The black-height rule at every live node other than d and x. */
  ghost predicate Balanced(ns: Nodes, live: set<int>, bh: seq<nat>, d: int, x: int)
    requires ns.Sized() && |bh| == ns.Size()
  {
    forall i {:trigger BalancedAt(ns, bh, d, i)} | i in live && 0 <= i < ns.Size() && i != d && i != x ::
      BalancedAt(ns, bh, d, i)
  }

  /** The red rule at every live node other than d, with child e excepted. */
  ghost predicate RedsApart(ns: Nodes, live: set<int>, d: int, e: int)
    requires ns.Sized()
  {
    forall i {:trigger RedOkAt(ns, d, e, i)} | i in live && 0 <= i < ns.Size() && i != d :: RedOkAt(ns, d, e, i)
  }

  /** Both rules everywhere: the live nodes, with d replaced by its child, form a red-black
      tree whose nodes have the black heights bh. */
  ghost predicate RedBlack(ns: Nodes, live: set<int>, bh: seq<nat>, d: int) {
    ns.Sized() && |bh| == ns.Size() && Balanced(ns, live, bh, d, NIL) && RedsApart(ns, live, d, NIL)
  }

  // ---------------------------------------------------------------------------------------
  // Black heights across a rotation
  // ---------------------------------------------------------------------------------------

  /** The black heights after a rotation that brings c, a child of n, up above n, with c's
      inner child ci moving over to n: n now has ci's height below it, and c that plus n. */
  function TurnedHeights(ns: Nodes, bh: seq<nat>, n: int, c: int, ci: int): (r: seq<nat>)
    requires ns.Sized() && |bh| == ns.Size() && 0 <= n < ns.Size() && 0 <= c < ns.Size()
    ensures |r| == |bh| && forall x | 0 <= x < |bh| && x != n && x != c :: r[x] == bh[x]
  {
    var h := Height(ns, bh, ci);
    bh[n := h][c := h + (if ns.color[n] == Black then 1 else 0)]
  }

  /** The black heights after rotateLeft(n). */
  function LeftRotatedHeights(ns: Nodes, bh: seq<nat>, n: int): (r: seq<nat>)
    requires LeftRotatable(ns, n) && |bh| == ns.Size()
    ensures |r| == |bh| && forall x | 0 <= x < |bh| && x != n && x != ns.right[n] :: r[x] == bh[x]
  {
    TurnedHeights(ns, bh, n, ns.right[n], ns.left[ns.right[n]])
  }

  /** The black heights after rotateRight(n). */
  function RightRotatedHeights(ns: Nodes, bh: seq<nat>, n: int): (r: seq<nat>)
    requires RightRotatable(ns, n) && |bh| == ns.Size()
    ensures |r| == |bh| && forall x | 0 <= x < |bh| && x != n && x != ns.left[n] :: r[x] == bh[x]
  {
    TurnedHeights(ns, bh, n, ns.left[n], ns.right[ns.left[n]])
  }

  /** The pointers around a live node k of a linked tree, with no mention of subtrees: its
      children point back to it and differ from it, from each other and from its parent, and
      its parent, if any, is live, has k as a child and is not k's child. */
  lemma Kin(ns: Nodes, sub: seq<set<int>>, root: int, k: int)
    requires Linked(ns, sub, root) && k in Sub(sub, root)
    ensures 0 <= k < ns.Size()
    ensures var l, r, q := ns.left[k], ns.right[k], ns.parent[k];
      (l != NIL ==> 0 <= l < ns.Size() && l in Sub(sub, root) && ns.parent[l] == k && l != k && l != q && l != r) &&
      (r != NIL ==> 0 <= r < ns.Size() && r in Sub(sub, root) && ns.parent[r] == k && r != k && r != q) &&
      (q == NIL <==> k == root) &&
      (q != NIL ==> 0 <= q < ns.Size() && q in Sub(sub, root) && (ns.left[q] == k || ns.right[q] == k) &&
                    q != k && ns.parent[q] != k)
  {
    assert LinkedAt(ns, sub, root, k);
    var l, r, q := ns.left[k], ns.right[k], ns.parent[k];
    if l != NIL {
      assert LinkedAt(ns, sub, root, l);
    }
    if r != NIL {
      assert LinkedAt(ns, sub, root, r);
    }
    if q != NIL {
      assert LinkedAt(ns, sub, root, q);
      ParentSubProper(ns, sub, root, k);
      if q != root {
        ParentSubProper(ns, sub, root, q);
      }
    }
  }

  // ---------------------------------------------------------------------------------------
  // What a step leaves alone
  // ---------------------------------------------------------------------------------------

  /** The rules at node k read only k's colour, its black height, its children as they stand
      and their colours and heights. So a step that changes colours or heights only at nodes of
      C, none of them a child of k, keeps both rules at k as long as k keeps its children and
      its height and does not turn red, d (if any) keeps its children and its child is not in
      C. The excepted child e0 may become e when e0 is not a child of k or k ends black. */
  lemma RulesKept(ns0: Nodes, bh0: seq<nat>, ns: Nodes, bh: seq<nat>, C: set<int>, d: int,
                  e0: int, e: int, k: int)
    requires ns0.Sized() && |bh0| == ns0.Size() && ns.Sized() && ns.Size() == ns0.Size() && |bh| == ns.Size()
    requires 0 <= k < ns.Size() && k != d
    requires forall x | 0 <= x < ns.Size() && x !in C :: ns.color[x] == ns0.color[x] && bh[x] == bh0[x]
    requires ns.left[k] == ns0.left[k] && ns.right[k] == ns0.right[k] && bh[k] == bh0[k]
    requires ns0.left[k] == NIL || (0 <= ns0.left[k] < ns0.Size() && ns0.parent[ns0.left[k]] == k)
    requires ns0.right[k] == NIL || (0 <= ns0.right[k] < ns0.Size() && ns0.parent[ns0.right[k]] == k)
    requires forall x | x in C :: 0 <= x < ns0.Size() && ns0.parent[x] != k
    requires 0 <= d < ns0.Size() ==>
      ns.left[d] == ns0.left[d] && ns.right[d] == ns0.right[d] && Child(ns0, d) !in C
    requires ns.color[k] == ns0.color[k] || ns.color[k] == Black
    requires e0 == e || e0 == NIL || ns.color[k] == Black || (0 <= e0 < ns0.Size() && ns0.parent[e0] != k)
    ensures BalancedAt(ns0, bh0, d, k) ==> BalancedAt(ns, bh, d, k)
    ensures RedOkAt(ns0, d, e0, k) ==> RedOkAt(ns, d, e, k)
  {
    var l, r := ns0.left[k], ns0.right[k];
    assert l !in C && r !in C;
    if 0 <= d < ns0.Size() {
      assert Child(ns, d) == Child(ns0, d);
    }
    assert Stand(ns, d, l) == Stand(ns0, d, l) && Stand(ns, d, r) == Stand(ns0, d, r);
    assert Stand(ns0, d, l) !in C && Stand(ns0, d, r) !in C;
  }

  /** RulesKept at a live node k outside U, where U holds the nodes whose children change, the
      nodes of C and their parents. */
  lemma AtomKept(ns0: Nodes, bh0: seq<nat>, sub0: seq<set<int>>, root0: int, ns: Nodes, bh: seq<nat>,
                 C: set<int>, U: set<int>, d: int, e0: int, e: int, k: int)
    requires Linked(ns0, sub0, root0) && k in Sub(sub0, root0) && k !in U && k != d
    requires |bh0| == ns0.Size() && ns.Sized() && ns.Size() == ns0.Size() && |bh| == ns.Size()
    requires forall x | 0 <= x < ns.Size() && x !in C :: ns.color[x] == ns0.color[x] && bh[x] == bh0[x]
    requires forall x | 0 <= x < ns.Size() && x !in U :: ns.left[x] == ns0.left[x] && ns.right[x] == ns0.right[x]
    requires forall x | x in C :: x in U && 0 <= x < ns0.Size() && ns0.parent[x] in U
    requires 0 <= d < ns0.Size() ==> d !in U && Child(ns0, d) !in C
    requires e0 == e || e0 == NIL || (0 <= e0 < ns0.Size() && ns0.parent[e0] != k)
    ensures 0 <= k < ns.Size()
    ensures BalancedAt(ns0, bh0, d, k) ==> BalancedAt(ns, bh, d, k)
    ensures RedOkAt(ns0, d, e0, k) ==> RedOkAt(ns, d, e, k)
  {
    assert LinkedAt(ns0, sub0, root0, k);
    RulesKept(ns0, bh0, ns, bh, C, d, e0, e, k);
  }

  /** A step that puts y into the child slot of k that held x, y black with as many black
      nodes at and below it as x had, keeps both rules at k when k's other child o keeps its
      colour and height and k its own. Child e may be red below k before, but not o. */
  lemma Reseated(ns0: Nodes, bh0: seq<nat>, ns: Nodes, bh: seq<nat>, e: int, k: int, x: int, y: int, o: int)
    requires ns0.Sized() && |bh0| == ns0.Size() && ns.Sized() && |bh| == ns.Size()
    requires 0 <= k < ns0.Size() && k < ns.Size() && x != o && o != e
    requires (ns0.left[k] == x && ns0.right[k] == o && ns.left[k] == y && ns.right[k] == o) ||
             (ns0.right[k] == x && ns0.left[k] == o && ns.right[k] == y && ns.left[k] == o)
    requires ns.color[k] == ns0.color[k] && bh[k] == bh0[k]
    requires Height(ns, bh, y) == Height(ns0, bh0, x) && NodeColor(ns, y) == Black
    requires Height(ns, bh, o) == Height(ns0, bh0, o) && NodeColor(ns, o) == NodeColor(ns0, o)
    requires BalancedAt(ns0, bh0, NIL, k) && RedOkAt(ns0, NIL, e, k)
    ensures BalancedAt(ns, bh, NIL, k) && RedOkAt(ns, NIL, NIL, k)
  {
  }

  /** A step that hangs a new node x, with no black node at or below it, into an empty child
      slot of k, and otherwise keeps k's children with their colours and heights and k's own,
      keeps both rules at k, x excepted from the red rule. */
  lemma Hung(ns0: Nodes, bh0: seq<nat>, ns: Nodes, bh: seq<nat>, k: int, x: int)
    requires ns0.Sized() && |bh0| == ns0.Size() && ns.Sized() && |bh| == ns.Size()
    requires 0 <= k < ns0.Size() && k < ns.Size() && Height(ns, bh, x) == 0
    requires ns.left[k] == ns0.left[k] || (ns0.left[k] == NIL && ns.left[k] == x)
    requires ns.right[k] == ns0.right[k] || (ns0.right[k] == NIL && ns.right[k] == x)
    requires ns.color[k] == ns0.color[k] && bh[k] == bh0[k]
    requires var l := ns0.left[k];
      Height(ns, bh, l) == Height(ns0, bh0, l) && NodeColor(ns, l) == NodeColor(ns0, l)
    requires var r := ns0.right[k];
      Height(ns, bh, r) == Height(ns0, bh0, r) && NodeColor(ns, r) == NodeColor(ns0, r)
    requires BalancedAt(ns0, bh0, NIL, k) && RedOkAt(ns0, NIL, NIL, k)
    ensures BalancedAt(ns, bh, NIL, k) && RedOkAt(ns, NIL, x, k)
  {
  }

  /** Colours and black heights are all the rules look at, besides the children. */
  lemma RedBlackSameShape(ns0: Nodes, ns: Nodes, live: set<int>, bh: seq<nat>, d: int)
    requires RedBlack(ns0, live, bh, d) && ns.Sized() && ns.Size() == ns0.Size()
    requires ns.left == ns0.left && ns.right == ns0.right && ns.color == ns0.color
    ensures RedBlack(ns, live, bh, d)
  {
    forall i | i in live && 0 <= i < ns.Size() && i != d
      ensures BalancedAt(ns, bh, d, i) && RedOkAt(ns, d, NIL, i)
    {
      assert BalancedAt(ns0, bh, d, i) && RedOkAt(ns0, d, NIL, i);
      assert Stand(ns, d, ns.left[i]) == Stand(ns0, d, ns.left[i]);
      assert Stand(ns, d, ns.right[i]) == Stand(ns0, d, ns.right[i]);
    }
  }

  // ---------------------------------------------------------------------------------------
  // What the rules mean for whole paths
  // ---------------------------------------------------------------------------------------

  /** The live nodes on the path from the root down to i, i included. */
  ghost function PathTo(sub: seq<set<int>>, root: int, i: int): set<int> {
    set a | a in Sub(sub, root) && i in Sub(sub, a)
  }

  /** The black nodes on the path from the root down to i, i included. */
  ghost function BlackOnPath(ns: Nodes, sub: seq<set<int>>, root: int, i: int): nat {
    |set a | a in PathTo(sub, root, i) && NodeColor(ns, a) == Black|
  }

  /** The path to a live node other than the root is the path to its parent and the node. */
  lemma PathStep(ns: Nodes, sub: seq<set<int>>, root: int, i: int)
    requires Linked(ns, sub, root) && i in Sub(sub, root) && i != root
    ensures 0 <= i < ns.Size()
    ensures PathTo(sub, root, i) == PathTo(sub, root, ns.parent[i]) + {i}
    ensures i !in PathTo(sub, root, ns.parent[i])
  {
    ParentSubProper(ns, sub, root, i);
    var p := ns.parent[i];
    assert LinkedAt(ns, sub, root, p);
    assert LinkedAt(ns, sub, root, i);
    forall a | a in Sub(sub, root)
      ensures i in Sub(sub, a) <==> a == i || p in Sub(sub, a)
    {
      if i in Sub(sub, a) && a != i {
        ParentInSub(ns, sub, root, a, i);
      }
      if p in Sub(sub, a) {
        SubNested(ns, sub, root, a, p);
      }
    }
  }

  /** The path to the root is the root alone. */
  lemma PathToRoot(ns: Nodes, sub: seq<set<int>>, root: int)
    requires Linked(ns, sub, root) && root != NIL
    ensures PathTo(sub, root, root) == {root}
  {
    assert LinkedAt(ns, sub, root, root);
    forall a | a in Sub(sub, root) && root in Sub(sub, a)
      ensures a == root
    {
      if a != root {
        ParentInSub(ns, sub, root, a, root);
        SubNested(ns, sub, root, a, ns.parent[root]);
      }
    }
  }

  /** The black count of the path to the root is that of the root alone. */
  lemma BlackOnPathRoot(ns: Nodes, sub: seq<set<int>>, root: int)
    requires Linked(ns, sub, root) && root != NIL
    ensures BlackOnPath(ns, sub, root, root) == if NodeColor(ns, root) == Black then 1 else 0
  {
    PathToRoot(ns, sub, root);
    var B := set a | a in PathTo(sub, root, root) && NodeColor(ns, a) == Black;
    assert B == if NodeColor(ns, root) == Black then {root} else {};
  }

  /** One step down the path adds the node's own colour to the black count. */
  lemma BlackOnPathStep(ns: Nodes, sub: seq<set<int>>, root: int, i: int)
    requires Linked(ns, sub, root) && i in Sub(sub, root) && i != root
    ensures BlackOnPath(ns, sub, root, i) ==
      BlackOnPath(ns, sub, root, ns.parent[i]) + (if NodeColor(ns, i) == Black then 1 else 0)
  {
    PathStep(ns, sub, root, i);
    var p := ns.parent[i];
    var B := set a | a in PathTo(sub, root, i) && NodeColor(ns, a) == Black;
    var Bp := set a | a in PathTo(sub, root, p) && NodeColor(ns, a) == Black;
    assert B == if NodeColor(ns, i) == Black then Bp + {i} else Bp;
  }

  /** Under the black-height rule, the black nodes on the path down to a live node i and the
      black nodes on each path below i add up to the root's height. */
  lemma {:induction false} BlackCount(ns: Nodes, sub: seq<set<int>>, root: int, bh: seq<nat>, i: int)
    requires Linked(ns, sub, root) && RedBlack(ns, Sub(sub, root), bh, NIL)
    requires i in Sub(sub, root)
    ensures 0 <= i < ns.Size()
    ensures BlackOnPath(ns, sub, root, i) + bh[i] == Height(ns, bh, root)
    decreases Sub(sub, root) - Sub(sub, i)
  {
    assert LinkedAt(ns, sub, root, i);
    if i == root {
      BlackOnPathRoot(ns, sub, root);
    } else {
      ParentSubProper(ns, sub, root, i);
      var p := ns.parent[i];
      assert LinkedAt(ns, sub, root, p);
      assert p in Sub(sub, p) && p !in Sub(sub, i);
      BlackOnPathStep(ns, sub, root, i);
      BlackCount(ns, sub, root, bh, p);
      assert BalancedAt(ns, bh, NIL, p);
      assert Height(ns, bh, i) == bh[p];
    }
  }

  /** verifyBlackLength: every path from the root down to a missing child passes the same
      number of black nodes, the root's height. A path ends below a live node with a missing
      child. */
  lemma BlackPathsEqual(ns: Nodes, sub: seq<set<int>>, root: int, bh: seq<nat>, i: int)
    requires Linked(ns, sub, root) && RedBlack(ns, Sub(sub, root), bh, NIL)
    requires i in Sub(sub, root) && 0 <= i < ns.Size() && (ns.left[i] == NIL || ns.right[i] == NIL)
    ensures BlackOnPath(ns, sub, root, i) == Height(ns, bh, root)
  {
    BlackCount(ns, sub, root, bh, i);
    assert BalancedAt(ns, bh, NIL, i);
  }

  /** verifyNoConsecutiveRed: under the red rule a red live node has black children and, unless
      it is the root, a black parent. */
  lemma NoRedRed(ns: Nodes, sub: seq<set<int>>, root: int, bh: seq<nat>, i: int)
    requires Linked(ns, sub, root) && RedBlack(ns, Sub(sub, root), bh, NIL)
    requires i in Sub(sub, root) && 0 <= i < ns.Size() && ns.color[i] == Red
    ensures NodeColor(ns, ns.left[i]) == Black && NodeColor(ns, ns.right[i]) == Black
    ensures NodeColor(ns, ns.parent[i]) == Black
  {
    assert RedOkAt(ns, NIL, NIL, i);
    assert LinkedAt(ns, sub, root, i);
    var p := ns.parent[i];
    if p != NIL {
      assert RedOkAt(ns, NIL, NIL, p);
    }
  }
}
