/** The TreeNode objects of IntervalTree.java, stored as an arena, and the invariants that the
    `verify*` checks of the source test, written as ghost predicates over one node at a time. */
module TreeNodes {
  import opened Intervals

  /** Entries are opaque identities; an entry's interval is given beside it. */
  type Id = int

  datatype Color = Red | Black

  /** The null reference. Nodes are numbered 0, 1, 2, ... in allocation order. */
  const NIL: int := -1

  /** Every TreeNode ever allocated by one tree, field by field: slot i of each sequence is a field
      of node i. Nodes that are no longer reachable from the root keep their slot. */
  datatype Nodes = Nodes(
    interval: seq<Interval>,
    max: seq<int>,
    values: seq<set<Id>>,
    left: seq<int>,
    right: seq<int>,
    parent: seq<int>,
    color: seq<Color>)
  {
    function Size(): nat {
      |interval|
    }

    ghost predicate Sized() {
      |max| == |interval| && |values| == |interval| && |left| == |interval| &&
      |right| == |interval| && |parent| == |interval| && |color| == |interval|
    }
  }

  /** The node ids of the subtree hanging at pointer p (none for NIL). */
  function Sub(sub: seq<set<int>>, p: int): set<int> {
    if 0 <= p < |sub| then sub[p] else {}
  }

  /** nodeColor: a missing child counts as black. */
  function NodeColor(ns: Nodes, p: int): Color {
    if 0 <= p < |ns.color| then ns.color[p] else Black
  }

  /** The value TreeNode.updateMax stores in node i: its own end, raised to the max of each
      child that exists. */
  function UpdatedMax(ns: Nodes, i: int): int
    requires ns.Sized() && 0 <= i < ns.Size()
  {
    var l, r := ns.left[i], ns.right[i];
    var m0 := ns.interval[i].end;
    var m1 := if 0 <= l < ns.Size() then GetMax(m0, ns.max[l]) else m0;
    if 0 <= r < ns.Size() then GetMax(m1, ns.max[r]) else m1
  }

  /** updateMax stores the largest of node i's end and its children's maxes. */
  lemma UpdatedMaxIsLargest(ns: Nodes, i: int)
    requires ns.Sized() && 0 <= i < ns.Size()
    ensures var m := UpdatedMax(ns, i);
      m >= ns.interval[i].end &&
      (0 <= ns.left[i] < ns.Size() ==> m >= ns.max[ns.left[i]]) &&
      (0 <= ns.right[i] < ns.Size() ==> m >= ns.max[ns.right[i]]) &&
      (m == ns.interval[i].end || (0 <= ns.left[i] < ns.Size() && m == ns.max[ns.left[i]]) ||
       (0 <= ns.right[i] < ns.Size() && m == ns.max[ns.right[i]]))
  {
  }

  /** The parent links after TreeNode.updateMax on node i: each existing child points to i. */
  function Adopted(ns: Nodes, i: int): (ps: seq<int>)
    requires ns.Sized() && 0 <= i < ns.Size()
    ensures |ps| == ns.Size()
    ensures 0 <= ns.left[i] < ns.Size() ==> ps[ns.left[i]] == i
    ensures 0 <= ns.right[i] < ns.Size() ==> ps[ns.right[i]] == i
    ensures ((!(0 <= ns.left[i] < ns.Size()) || ns.parent[ns.left[i]] == i) &&
             (!(0 <= ns.right[i] < ns.Size()) || ns.parent[ns.right[i]] == i)) ==> ps == ns.parent
  {
    var l, r := ns.left[i], ns.right[i];
    var ps := if 0 <= l < ns.Size() then ns.parent[l := i] else ns.parent;
    if 0 <= r < ns.Size() then ps[r := i] else ps
  }

  /** The arena after TreeNode.updateMax on node i: i's max is recomputed and each existing
      child of i points back to it. */
  function MaxUpdated(ns: Nodes, i: int): (r: Nodes)
    requires ns.Sized() && 0 <= i < ns.Size()
    ensures r.Sized() && r.Size() == ns.Size()
    ensures r.left == ns.left && r.right == ns.right && r.interval == ns.interval
    ensures ns.left[i] != i && ns.right[i] != i ==> MaxAt(r, i)
  {
    ns.(max := ns.max[i := UpdatedMax(ns, i)], parent := Adopted(ns, i))
  }

  /** The arena after replaceNode(oldn, newn): the slot of oldn's parent that held oldn (the
      left slot if it holds oldn, the right slot otherwise) holds newn, and newn's parent is
      oldn's parent. */
  function Replaced(ns: Nodes, oldn: int, newn: int): (r: Nodes)
    requires ns.Sized() && 0 <= oldn < ns.Size() && (newn == NIL || 0 <= newn < ns.Size())
    requires ns.parent[oldn] == NIL || 0 <= ns.parent[oldn] < ns.Size()
    ensures r.Sized() && r.Size() == ns.Size()
    ensures r.interval == ns.interval && r.max == ns.max && r.values == ns.values
    ensures r.color == ns.color
  {
    var p := ns.parent[oldn];
    ns.(left := if p != NIL && ns.left[p] == oldn then ns.left[p := newn] else ns.left,
        right := if p != NIL && ns.left[p] != oldn then ns.right[p := newn] else ns.right,
        parent := if newn == NIL then ns.parent else ns.parent[newn := p])
  }

  /** The root after replaceNode(oldn, newn): newn when oldn was the root. */
  function ReplacedRoot(ns: Nodes, root: int, oldn: int, newn: int): int
    requires ns.Sized() && 0 <= oldn < ns.Size()
  {
    if ns.parent[oldn] == NIL then newn else root
  }

  /** TreeNode.grandparent: the parent of n's parent. */
  function Grandparent(ns: Nodes, n: int): int
    requires ns.Sized() && 0 <= n < ns.Size() && 0 <= ns.parent[n] < ns.Size()
  {
    ns.parent[ns.parent[n]]
  }

  /** TreeNode.sibling: the left child of n's parent when n is its right child, and the right
      child otherwise. */
  function Sibling(ns: Nodes, n: int): int
    requires ns.Sized() && 0 <= n < ns.Size() && 0 <= ns.parent[n] < ns.Size()
  {
    var p := ns.parent[n];
    if n == ns.right[p] then ns.left[p] else ns.right[p]
  }

  /** TreeNode.uncle: the sibling of n's parent. */
  function Uncle(ns: Nodes, n: int): int
    requires ns.Sized() && 0 <= n < ns.Size() && 0 <= ns.parent[n] < ns.Size()
    requires 0 <= Grandparent(ns, n) < ns.Size()
  {
    Sibling(ns, ns.parent[n])
  }

  /** The child that replaces a node d with at most one child when delete splices d out:
      `(n.right == null) ? n.left : n.right`. */
  function Child(ns: Nodes, d: int): int
    requires ns.Sized() && 0 <= d < ns.Size()
  {
    if ns.right[d] == NIL then ns.left[d] else ns.right[d]
  }

  /** Node i's max stays correct when neither its own fields nor its children's maxes change. */
  lemma MaxAtKept(ns0: Nodes, ns: Nodes, i: int)
    requires ns0.Sized() && ns.Sized() && ns.Size() == ns0.Size() && 0 <= i < ns.Size()
    requires ns.interval[i] == ns0.interval[i] && ns.max[i] == ns0.max[i]
    requires ns.left[i] == ns0.left[i] && ns.right[i] == ns0.right[i]
    requires 0 <= ns.left[i] < ns.Size() ==> ns.max[ns.left[i]] == ns0.max[ns.left[i]]
    requires 0 <= ns.right[i] < ns.Size() ==> ns.max[ns.right[i]] == ns0.max[ns.right[i]]
    requires MaxAt(ns0, i)
    ensures MaxAt(ns, i)
  {
  }

  /** The arena and the ghost subtree sets have one slot per node. */
  ghost predicate Shaped(ns: Nodes, sub: seq<set<int>>) {
    ns.Sized() && |sub| == ns.Size()
  }

  /** Node i's children are live and point back to it, and its ghost subtree is itself plus its
      children's disjoint subtrees. */
  ghost predicate ChildrenAt(ns: Nodes, sub: seq<set<int>>, root: int, i: int)
    requires ns.Sized() && |sub| == ns.Size() && 0 <= i < ns.Size()
  {
    var l, r, L := ns.left[i], ns.right[i], Sub(sub, root);
    (l == NIL || (0 <= l < ns.Size() && l in L && ns.parent[l] == i)) &&
    (r == NIL || (0 <= r < ns.Size() && r in L && ns.parent[r] == i)) &&
    sub[i] == {i} + Sub(sub, l) + Sub(sub, r) &&
    i !in Sub(sub, l) && i !in Sub(sub, r) && Sub(sub, l) !! Sub(sub, r)
  }

  /** Node i has no parent exactly when it is the root, and otherwise its parent is live and has
      i as a child. */
  ghost predicate ParentAt(ns: Nodes, sub: seq<set<int>>, root: int, i: int)
    requires ns.Sized() && |sub| == ns.Size() && 0 <= i < ns.Size()
  {
    (i == root ==> ns.parent[i] == NIL) &&
    (i != root ==> 0 <= ns.parent[i] < ns.Size() && ns.parent[i] in Sub(sub, root) &&
                   (ns.left[ns.parent[i]] == i || ns.right[ns.parent[i]] == i))
  }

  /** Node i is correctly linked, downwards and upwards. */
  ghost predicate LinkedAt(ns: Nodes, sub: seq<set<int>>, root: int, i: int)
    requires ns.Sized() && |sub| == ns.Size() && 0 <= i < ns.Size()
  {
    ChildrenAt(ns, sub, root, i) && ParentAt(ns, sub, root, i)
  }

  /** The nodes reachable from root form a binary tree with consistent parent links. */
  ghost predicate Linked(ns: Nodes, sub: seq<set<int>>, root: int) {
    ns.Sized() && |sub| == ns.Size() &&
    (root == NIL || (0 <= root < ns.Size() && root in sub[root])) &&
    (forall i | i in Sub(sub, root) :: 0 <= i < ns.Size()) &&
    (forall i {:trigger LinkedAt(ns, sub, root, i)} | i in Sub(sub, root) ::
       0 <= i < ns.Size() && LinkedAt(ns, sub, root, i))
  }

  /** Strict lexicographic order between node i and every node of its subtrees, except node d
      (while delete runs, d carries a copy of an ancestor's key). */
  ghost predicate OrderedAt(ns: Nodes, sub: seq<set<int>>, i: int, d: int)
    requires ns.Sized() && 0 <= i < ns.Size()
  {
    (forall j | j in Sub(sub, ns.left[i]) && j != d && 0 <= j < ns.Size() ::
       Less(ns.interval[j], ns.interval[i])) &&
    (forall j | j in Sub(sub, ns.right[i]) && j != d && 0 <= j < ns.Size() ::
       Less(ns.interval[i], ns.interval[j]))
  }

  /** Node i's max is what updateMax would store. */
  ghost predicate MaxAt(ns: Nodes, i: int)
    requires ns.Sized() && 0 <= i < ns.Size()
  {
    ns.max[i] == UpdatedMax(ns, i)
  }

  /** Every live node is in key order with its subtrees (node d excepted). */
  ghost predicate Ordered(ns: Nodes, sub: seq<set<int>>, root: int, d: int)
    requires Linked(ns, sub, root)
  {
    forall i {:trigger OrderedAt(ns, sub, i, d)} | i in Sub(sub, root) :: OrderedAt(ns, sub, i, d)
  }

  /** Every live node's max is up to date, except at the ancestors of d. */
  ghost predicate MaxesUpToDate(ns: Nodes, sub: seq<set<int>>, root: int, d: int)
    requires Linked(ns, sub, root)
  {
    forall i {:trigger MaxAt(ns, i)} | i in Sub(sub, root) :: d in sub[i] || MaxAt(ns, i)
  }

  /** The search-tree part of the invariant: linked, ordered except at d, max correct everywhere
      except possibly above d, and no live node without values. With d == NIL there are no
      exceptions. */
  ghost predicate Sound(ns: Nodes, sub: seq<set<int>>, root: int, d: int) {
    var sound :=
      Linked(ns, sub, root) && Ordered(ns, sub, root, d) && MaxesUpToDate(ns, sub, root, d) &&
      (forall i {:trigger ns.values[i]} | i in Sub(sub, root) :: ns.values[i] != {});
    sound
  }

  /** The stored entries: each value of each live node, paired with the node's interval. */
  ghost function EntriesOf(ns: Nodes, live: set<int>): set<(Interval, Id)>
    requires ns.Sized()
  {
    set i, v | i in live && 0 <= i < ns.Size() && v in ns.values[i] :: (ns.interval[i], v)
  }

  /** Each stored entry comes from one live node, and each value of a live node is stored. */
  lemma EntriesOfMembers(ns: Nodes, live: set<int>)
    requires ns.Sized()
    ensures forall e | e in EntriesOf(ns, live) :: exists i | i in live && 0 <= i < ns.Size() ::
              e.0 == ns.interval[i] && e.1 in ns.values[i]
    ensures forall i, v | i in live && 0 <= i < ns.Size() && v in ns.values[i] ::
              (ns.interval[i], v) in EntriesOf(ns, live)
  {
  }

  /** Some element of a non-empty set. */
  ghost function PickOne<T>(s: set<T>): (x: T)
    requires s != {}
    ensures x in s
  {
    var x :| x in s; x
  }

  /** The keys of the live nodes. */
  ghost function KeysOf(ns: Nodes, live: set<int>): set<Interval>
    requires ns.Sized()
  {
    set i | i in live && 0 <= i < ns.Size() :: ns.interval[i]
  }

  // ---------------------------------------------------------------------------------------
  // Facts about the linked structure
  // ---------------------------------------------------------------------------------------

  /** A subtree of a live node lies inside it. */
  lemma {:induction false} SubNested(ns: Nodes, sub: seq<set<int>>, root: int, i: int, j: int)
    requires Linked(ns, sub, root)
    requires i in Sub(sub, root) && j in sub[i]
    ensures j in Sub(sub, root) && 0 <= j < ns.Size() && sub[j] <= sub[i]
    decreases sub[i]
  {
    assert LinkedAt(ns, sub, root, i);
    var l, r := ns.left[i], ns.right[i];
    if j == i {
    } else if j in Sub(sub, l) {
      assert LinkedAt(ns, sub, root, l);
      SubNested(ns, sub, root, l, j);
    } else {
      assert j in Sub(sub, r);
      assert LinkedAt(ns, sub, root, r);
      SubNested(ns, sub, root, r, j);
    }
  }

  /** Going up one step stays inside every subtree that strictly contains the node. */
  lemma {:induction false} ParentInSub(ns: Nodes, sub: seq<set<int>>, root: int, a: int, j: int)
    requires Linked(ns, sub, root)
    requires a in Sub(sub, root) && j in sub[a] && j != a
    ensures 0 <= j < ns.Size() && ns.parent[j] in sub[a]
    decreases sub[a]
  {
    assert LinkedAt(ns, sub, root, a);
    var l, r := ns.left[a], ns.right[a];
    var c := if j in Sub(sub, l) then l else r;
    assert j in Sub(sub, c) && c in Sub(sub, root);
    assert LinkedAt(ns, sub, root, c);
    if j != c {
      ParentInSub(ns, sub, root, c, j);
      SubNested(ns, sub, root, a, c);
    }
  }

  /** A live node other than the root sits strictly inside its parent's subtree. */
  lemma ParentSubProper(ns: Nodes, sub: seq<set<int>>, root: int, j: int)
    requires Linked(ns, sub, root)
    requires j in Sub(sub, root) && j != root
    ensures var p := ns.parent[j];
      0 <= p < ns.Size() && p in Sub(sub, root) && sub[j] < sub[p] && p !in sub[j]
  {
    assert LinkedAt(ns, sub, root, j);
    assert LinkedAt(ns, sub, root, ns.parent[j]);
  }

  /** Below a rotation about n and its child c: the nodes involved are distinct, as far as they
      exist, and linked to each other as a tree demands. o is n's other child. */
  lemma RotationNeighbours(ns: Nodes, sub: seq<set<int>>, root: int, n: int, c: int)
    requires Linked(ns, sub, root) && n in Sub(sub, root)
    requires c != NIL && (c == ns.left[n] || c == ns.right[n])
    ensures 0 <= n < ns.Size() && 0 <= c < ns.Size() && c != n && ns.parent[c] == n
    ensures c in Sub(sub, root) && sub[c] < sub[n] && n !in sub[c] && c in sub[c] && c in sub[n]
    ensures var o := if c == ns.left[n] then ns.right[n] else ns.left[n];
      o != c && o != n &&
      (o == NIL || (0 <= o < ns.Size() && ns.parent[o] == n && o !in sub[c] && o in Sub(sub, root))) &&
      (o != NIL ==> o != ns.left[c] && o != ns.right[c])
    ensures var g := ns.left[c];
      g != n && g != c &&
      (g == NIL || (0 <= g < ns.Size() && ns.parent[g] == c && g in sub[c] && g in Sub(sub, root)))
    ensures var g := ns.right[c];
      g != n && g != c &&
      (g == NIL || (0 <= g < ns.Size() && ns.parent[g] == c && g in sub[c] && g in Sub(sub, root)))
    ensures ns.left[c] == NIL || ns.left[c] != ns.right[c]
  {
    assert LinkedAt(ns, sub, root, n);
    assert LinkedAt(ns, sub, root, c);
    var l, r := ns.left[c], ns.right[c];
    if l != NIL {
      assert LinkedAt(ns, sub, root, l);
    }
    if r != NIL {
      assert LinkedAt(ns, sub, root, r);
    }
    var o := if c == ns.left[n] then ns.right[n] else ns.left[n];
    if o != NIL {
      assert LinkedAt(ns, sub, root, o);
    }
  }

  /** Above a rotation about n and its child c: n's parent p is absent exactly at the root, and
      otherwise it is a live node distinct from all the nodes below it that the rotation touches. */
  lemma RotationParent(ns: Nodes, sub: seq<set<int>>, root: int, n: int, c: int)
    requires Linked(ns, sub, root) && n in Sub(sub, root)
    requires c != NIL && (c == ns.left[n] || c == ns.right[n])
    ensures 0 <= n < ns.Size()
    ensures var p := ns.parent[n];
      (p == NIL <==> n == root) &&
      (p != NIL ==> 0 <= p < ns.Size() && p in Sub(sub, root) && p !in sub[n] &&
                    (ns.left[p] == n || ns.right[p] == n) && ns.left[p] != ns.right[p] &&
                    ns.left[p] != p && ns.right[p] != p &&
                    (ns.left[p] == NIL || (0 <= ns.left[p] < ns.Size() && ns.parent[ns.left[p]] == p)) &&
                    (ns.right[p] == NIL || (0 <= ns.right[p] < ns.Size() && ns.parent[ns.right[p]] == p)))
    ensures var p, o := ns.parent[n], if c == ns.left[n] then ns.right[n] else ns.left[n];
      0 <= c < ns.Size() && (p != NIL ==> p != c && p != o && p != ns.left[c] && p != ns.right[c])
  {
    assert LinkedAt(ns, sub, root, n);
    assert LinkedAt(ns, sub, root, c);
    var p := ns.parent[n];
    if p != NIL {
      assert LinkedAt(ns, sub, root, p);
      var pl, pr := ns.left[p], ns.right[p];
      if pl != NIL {
        assert LinkedAt(ns, sub, root, pl);
      }
      if pr != NIL {
        assert LinkedAt(ns, sub, root, pr);
      }
      ParentSubProper(ns, sub, root, n);
      var l, r := ns.left[c], ns.right[c];
      if l != NIL {
        assert LinkedAt(ns, sub, root, l);
      }
      if r != NIL {
        assert LinkedAt(ns, sub, root, r);
      }
    }
  }

  /** m is the largest interval end among the nodes of S. */
  ghost predicate IsMaxEnd(ns: Nodes, S: set<int>, m: int)
    requires ns.Sized()
  {
    (forall j | j in S && 0 <= j < ns.Size() :: ns.interval[j].end <= m) &&
    (exists j | j in S :: 0 <= j < ns.Size() && ns.interval[j].end == m)
  }

  /** When updateMax has been applied throughout a subtree, the root's max is the largest end in
      that subtree. */
  lemma {:induction false} MaxOfSubtree(ns: Nodes, sub: seq<set<int>>, root: int, i: int)
    requires Linked(ns, sub, root)
    requires i in Sub(sub, root)
    requires forall j | j in sub[i] :: 0 <= j < ns.Size() && MaxAt(ns, j)
    ensures IsMaxEnd(ns, sub[i], ns.max[i])
    decreases sub[i]
  {
    assert LinkedAt(ns, sub, root, i);
    assert MaxAt(ns, i);
    UpdatedMaxIsLargest(ns, i);
    var l, r := ns.left[i], ns.right[i];
    if l != NIL {
      assert LinkedAt(ns, sub, root, l);
      MaxOfSubtree(ns, sub, root, l);
    }
    if r != NIL {
      assert LinkedAt(ns, sub, root, r);
      MaxOfSubtree(ns, sub, root, r);
    }
  }

  /** In a sound tree every node's max is the true maximum end of its subtree (unless the subtree
      holds the exception node d). */
  lemma MaxIsSubtreeMax(ns: Nodes, sub: seq<set<int>>, root: int, d: int, i: int)
    requires Sound(ns, sub, root, d)
    requires i in Sub(sub, root) && d !in sub[i]
    ensures IsMaxEnd(ns, sub[i], ns.max[i])
  {
    forall j | j in sub[i]
      ensures 0 <= j < ns.Size() && MaxAt(ns, j)
    {
      SubNested(ns, sub, root, i, j);
    }
    MaxOfSubtree(ns, sub, root, i);
  }

  /** Under strict order, distinct live nodes have distinct keys. */
  lemma {:induction false} KeysDistinct(ns: Nodes, sub: seq<set<int>>, root: int, a: int, i: int, j: int)
    requires Sound(ns, sub, root, NIL)
    requires a in Sub(sub, root) && i in sub[a] && j in sub[a]
    requires 0 <= i < ns.Size() && 0 <= j < ns.Size() && ns.interval[i] == ns.interval[j]
    ensures i == j
    decreases sub[a]
  {
    assert LinkedAt(ns, sub, root, a);
    assert OrderedAt(ns, sub, a, NIL);
    SubNested(ns, sub, root, a, i);
    SubNested(ns, sub, root, a, j);
    var l, r := ns.left[a], ns.right[a];
    if i != a && j != a {
      if i in Sub(sub, l) && j in Sub(sub, l) {
        KeysDistinct(ns, sub, root, l, i, j);
      } else if i in Sub(sub, r) && j in Sub(sub, r) {
        KeysDistinct(ns, sub, root, r, i, j);
      }
    }
  }

  /** The relatives of a live node n other than the root: its parent is live and has n as a
      child, its sibling is the parent's other child (missing or live), and, when the parent is
      not the root, its grandparent is live with the parent as a child and its uncle is the
      grandparent's other child. */
  lemma Family(ns: Nodes, sub: seq<set<int>>, root: int, n: int)
    requires Linked(ns, sub, root) && n in Sub(sub, root) && n != root
    ensures 0 <= n < ns.Size()
    ensures var p := ns.parent[n];
      0 <= p < ns.Size() && p in Sub(sub, root) && p != n && n in sub[p] && p !in sub[n] &&
      (ns.left[p] == n || ns.right[p] == n) &&
      var s := Sibling(ns, n);
      s != n && s != p && (s == ns.left[p] || s == ns.right[p]) &&
      (s == NIL || (0 <= s < ns.Size() && s in Sub(sub, root) && ns.parent[s] == p))
    ensures var p := ns.parent[n];
      0 <= p < ns.Size() && (p == root <==> ns.parent[p] == NIL) &&
      (p != root ==>
         var g := Grandparent(ns, n);
         0 <= g < ns.Size() && g in Sub(sub, root) && g != n && g != p && n in sub[g] &&
         p in sub[g] && g !in sub[n] && (ns.left[g] == p || ns.right[g] == p) &&
         var u := Uncle(ns, n);
         u != p && u != n && u != g && (u == ns.left[g] || u == ns.right[g]) &&
         (u == NIL || (0 <= u < ns.Size() && u in Sub(sub, root) && ns.parent[u] == g)))
  {
    assert LinkedAt(ns, sub, root, n);
    var p := ns.parent[n];
    RotationNeighbours(ns, sub, root, p, n);
    RotationParent(ns, sub, root, p, n);
    assert LinkedAt(ns, sub, root, p);
    if p != root {
      var g := ns.parent[p];
      RotationNeighbours(ns, sub, root, g, p);
      SubNested(ns, sub, root, g, p);
      if g in sub[n] {
        SubNested(ns, sub, root, n, g);
        SubNested(ns, sub, root, g, n);
        assert false;
      }
    }
  }

  /** The search-tree part of the invariant looks only at the links, keys and maxes of the
      nodes, and at whether their value sets are empty. */
  lemma SoundSameShape(ns: Nodes, r: Nodes, sub: seq<set<int>>, root: int, d: int)
    requires Sound(ns, sub, root, d) && r.Sized() && r.Size() == ns.Size()
    requires r.interval == ns.interval && r.max == ns.max && r.left == ns.left &&
             r.right == ns.right && r.parent == ns.parent
    requires forall i | i in Sub(sub, root) && 0 <= i < r.Size() :: r.values[i] != {}
    ensures Sound(r, sub, root, d)
  {
    forall i | i in Sub(sub, root)
      ensures 0 <= i < r.Size() && LinkedAt(r, sub, root, i)
    {
      assert LinkedAt(ns, sub, root, i);
    }
    forall i | i in Sub(sub, root)
      ensures OrderedAt(r, sub, i, d)
    {
      assert OrderedAt(ns, sub, i, d);
    }
    forall i | i in Sub(sub, root)
      ensures d in sub[i] || MaxAt(r, i)
    {
      assert d in sub[i] || MaxAt(ns, i);
    }
  }

  /** The search-tree part of the invariant does not look at colours. */
  lemma SoundIgnoresColor(ns: Nodes, cs: seq<Color>, sub: seq<set<int>>, root: int, d: int)
    requires Sound(ns, sub, root, d) && |cs| == |ns.color|
    ensures Sound(ns.(color := cs), sub, root, d)
  {
    var r := ns.(color := cs);
    forall i | i in Sub(sub, root) && 0 <= i < r.Size()
      ensures r.values[i] != {}
    {
      assert ns.values[i] != {};
    }
    SoundSameShape(ns, r, sub, root, d);
  }
}
