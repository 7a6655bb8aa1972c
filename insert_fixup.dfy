/** fixTreeAt of IntervalTree.java, the colour repair that ends an insertion, described by its
    effect on the arena, and the proof that it keeps the search-tree part of the invariant and
    leaves a red-black tree with a black root. */
module InsertFixups {
  import opened Intervals
  import opened TreeNodes
  import opened LeftRotations
  import opened RightRotations
  import opened BlackHeights

  /** The state fixTreeAt works on: the arena, the root, the ghost subtrees and the ghost black
      heights. */
  datatype Tree = Tree(ns: Nodes, root: int, sub: seq<set<int>>, bh: seq<nat>)

  /** The colour rules while fixTreeAt(n) runs: n is red, and both rules hold everywhere except
      that n's parent may be red as well. */
  ghost predicate RedPair(t: Tree, n: int) {
    var pair :=
      t.ns.Sized() && |t.bh| == t.ns.Size() && 0 <= n < t.ns.Size() && t.ns.color[n] == Red &&
      Balanced(t.ns, Sub(t.sub, t.root), t.bh, NIL, NIL) && RedsApart(t.ns, Sub(t.sub, t.root), NIL, n);
    pair
  }

  /** fixTreeAt(n) may start: a sound tree, n live, the root black unless it is n itself, and
      the colour rules broken at most by the red n below a red parent. */
  ghost predicate Fixable(t: Tree, n: int) {
    Sound(t.ns, t.sub, t.root, NIL) && n in Sub(t.sub, t.root) &&
    (NodeColor(t.ns, t.root) == Black || t.root == n) && RedPair(t, n)
  }

  /** What fixTreeAt promises its caller: a sound red-black tree over the same nodes with the
      same keys and values, and a black root. */
  ghost predicate Repaired(t0: Tree, t: Tree) {
    Sound(t.ns, t.sub, t.root, NIL) && NodeColor(t.ns, t.root) == Black &&
    RedBlack(t.ns, Sub(t.sub, t.root), t.bh, NIL) &&
    Sub(t.sub, t.root) == Sub(t0.sub, t0.root) && |t.sub| == |t0.sub| &&
    t.ns.Size() == t0.ns.Size() && t.ns.interval == t0.ns.interval && t.ns.values == t0.ns.values
  }

  // ---------------------------------------------------------------------------------------
  // Cases 1 and 2: nothing left to repair
  // ---------------------------------------------------------------------------------------

  /** Case 1: the red n is the root; painted black, it leaves a red-black tree. */
  lemma RootPainted(t: Tree, n: int)
    requires Linked(t.ns, t.sub, t.root) && RedPair(t, n) && n in Sub(t.sub, t.root)
    requires t.ns.parent[n] == NIL
    ensures RedBlack(t.ns.(color := t.ns.color[n := Black]), Sub(t.sub, t.root), t.bh, NIL)
  {
    var ns, L := t.ns, Sub(t.sub, t.root);
    var ns1 := ns.(color := ns.color[n := Black]);
    forall k | k in L && 0 <= k < ns1.Size() && k != NIL
      ensures BalancedAt(ns1, t.bh, NIL, k) && RedOkAt(ns1, NIL, NIL, k)
    {
      assert BalancedAt(ns, t.bh, NIL, k) && RedOkAt(ns, NIL, n, k);
      if k == n {
        assert LinkedAt(ns, t.sub, t.root, n);
      } else {
        AtomKept(ns, t.bh, t.sub, t.root, ns1, t.bh, {n}, {n, NIL}, NIL, n, NIL, k);
      }
    }
  }

  /** Case 2: below a black parent, the red n breaks no rule. */
  lemma BelowBlack(t: Tree, n: int)
    requires Linked(t.ns, t.sub, t.root) && RedPair(t, n) && n in Sub(t.sub, t.root)
    requires NodeColor(t.ns, t.ns.parent[n]) == Black
    ensures RedBlack(t.ns, Sub(t.sub, t.root), t.bh, NIL)
  {
    var ns, L := t.ns, Sub(t.sub, t.root);
    forall k | k in L && 0 <= k < ns.Size() && k != NIL
      ensures RedOkAt(ns, NIL, NIL, k)
    {
      assert RedOkAt(ns, NIL, n, k);
      assert LinkedAt(ns, t.sub, t.root, k);
    }
  }

  /** A repaired tree stores the same entries as before. */
  lemma RepairedEntries(t0: Tree, t: Tree)
    requires t0.ns.Sized() && Repaired(t0, t)
    ensures EntriesOf(t.ns, Sub(t.sub, t.root)) == EntriesOf(t0.ns, Sub(t0.sub, t0.root))
  {
  }

  // ---------------------------------------------------------------------------------------
  // Case 3: recolour and climb
  // ---------------------------------------------------------------------------------------

  /** Case 3 of fixTreeAt: parent and uncle turn black, the grandparent red. */
  ghost function Recolored(ns: Nodes, p: int, u: int, g: int): (r: Nodes)
    requires ns.Sized() && 0 <= p < ns.Size() && 0 <= u < ns.Size() && 0 <= g < ns.Size()
    ensures r.Sized() && r.Size() == ns.Size()
  {
    ns.(color := ns.color[p := Black][u := Black][g := Red])
  }

  /** The hypotheses of case 3 at n: n and its parent p red, the grandparent and the uncle
      present, the uncle red. */
  ghost predicate RedUncle(t: Tree, n: int) {
    Linked(t.ns, t.sub, t.root) && RedPair(t, n) && n in Sub(t.sub, t.root) && n != t.root &&
    0 <= n < t.ns.Size() &&
    var p := t.ns.parent[n];
    0 <= p < t.ns.Size() && p != t.root && t.ns.color[p] == Red &&
    0 <= Grandparent(t.ns, n) < t.ns.Size() && 0 <= Uncle(t.ns, n) < t.ns.Size() &&
    t.ns.color[Uncle(t.ns, n)] == Red
  }

  /** Case 3 at the grandparent g, whose children p and u turn black while g turns red and
      gains one black node below it, and at g's parent gg, if any. */
  lemma RecoloredNear(ns: Nodes, bh: seq<nat>, n: int, p: int, u: int, g: int, gg: int)
    requires ns.Sized() && |bh| == ns.Size()
    requires 0 <= p < ns.Size() && 0 <= u < ns.Size() && 0 <= g < ns.Size()
    requires p != u && p != g && u != g
    requires (ns.left[g] == p && ns.right[g] == u) || (ns.left[g] == u && ns.right[g] == p)
    requires ns.color[p] == Red && ns.color[u] == Red && ns.color[g] == Black
    requires BalancedAt(ns, bh, NIL, g)
    requires gg != NIL ==>
      0 <= gg < ns.Size() && gg != p && gg != u && gg != g &&
      (ns.left[gg] == g || ns.right[gg] == g) &&
      ns.left[gg] != n && ns.right[gg] != n &&
      ns.left[gg] != p && ns.right[gg] != p && ns.left[gg] != u && ns.right[gg] != u &&
      BalancedAt(ns, bh, NIL, gg) && RedOkAt(ns, NIL, n, gg)
    ensures var ns3, bh3 := Recolored(ns, p, u, g), bh[g := bh[g] + 1];
      BalancedAt(ns3, bh3, NIL, g) && RedOkAt(ns3, NIL, g, g) &&
      (gg != NIL ==> BalancedAt(ns3, bh3, NIL, gg) && RedOkAt(ns3, NIL, g, gg))
  {
  }

  /** Case 3 at the grandparent g and its parent. */
  lemma RecoloredAbove(t: Tree, n: int)
    requires RedUncle(t, n)
    ensures var ns, p := t.ns, t.ns.parent[n];
      var g := Grandparent(ns, n);
      var gg := ns.parent[g];
      var ns3, bh3 := Recolored(ns, p, Uncle(ns, n), g), t.bh[g := t.bh[g] + 1];
      BalancedAt(ns3, bh3, NIL, g) && RedOkAt(ns3, NIL, g, g) &&
      (gg != NIL ==> 0 <= gg < ns.Size() && BalancedAt(ns3, bh3, NIL, gg) && RedOkAt(ns3, NIL, g, gg))
  {
    var ns, bh := t.ns, t.bh;
    var p := ns.parent[n];
    var g, u := Grandparent(ns, n), Uncle(ns, n);
    var gg := ns.parent[g];
    Kin(ns, t.sub, t.root, n);
    Kin(ns, t.sub, t.root, p);
    Kin(ns, t.sub, t.root, g);
    assert ns.parent[u] == g;
    Kin(ns, t.sub, t.root, u);
    assert RedOkAt(ns, NIL, n, g) && BalancedAt(ns, bh, NIL, g);
    if gg != NIL {
      Kin(ns, t.sub, t.root, gg);
      assert BalancedAt(ns, bh, NIL, gg) && RedOkAt(ns, NIL, n, gg);
    }
    RecoloredNear(ns, bh, n, p, u, g, gg);
  }

  /** Case 3 at a node k other than g whose children are not p, u or g: the rules hold at k
      as before. */
  lemma RecoloredKept(ns: Nodes, bh: seq<nat>, n: int, p: int, u: int, g: int, k: int)
    requires ns.Sized() && |bh| == ns.Size()
    requires 0 <= p < ns.Size() && 0 <= u < ns.Size() && 0 <= g < ns.Size() && 0 <= k < ns.Size()
    requires k != g && ns.parent[p] != k && ns.parent[u] != k && ns.parent[g] != k
    requires ns.left[k] == NIL || (0 <= ns.left[k] < ns.Size() && ns.parent[ns.left[k]] == k)
    requires ns.right[k] == NIL || (0 <= ns.right[k] < ns.Size() && ns.parent[ns.right[k]] == k)
    requires k == p || k == u || n == NIL || (0 <= n < ns.Size() && ns.parent[n] != k)
    ensures var ns3, bh3 := Recolored(ns, p, u, g), bh[g := bh[g] + 1];
      (BalancedAt(ns, bh, NIL, k) ==> BalancedAt(ns3, bh3, NIL, k)) &&
      (RedOkAt(ns, NIL, n, k) ==> RedOkAt(ns3, NIL, g, k))
  {
    RulesKept(ns, bh, Recolored(ns, p, u, g), bh[g := bh[g] + 1], {p, u, g}, NIL, n, g, k);
  }

  /** Case 3 away from the grandparent g and its parent: the rules hold at k as before. */
  lemma RecoloredFar(t: Tree, n: int, k: int)
    requires RedUncle(t, n) && k in Sub(t.sub, t.root)
    requires k != Grandparent(t.ns, n) && k != t.ns.parent[Grandparent(t.ns, n)]
    ensures var ns, p := t.ns, t.ns.parent[n];
      var g := Grandparent(ns, n);
      var ns3, bh3 := Recolored(ns, p, Uncle(ns, n), g), t.bh[g := t.bh[g] + 1];
      0 <= k < ns.Size() && BalancedAt(ns3, bh3, NIL, k) && RedOkAt(ns3, NIL, g, k)
  {
    var ns, bh := t.ns, t.bh;
    var p := ns.parent[n];
    var g, u := Grandparent(ns, n), Uncle(ns, n);
    Kin(ns, t.sub, t.root, n);
    Kin(ns, t.sub, t.root, p);
    Kin(ns, t.sub, t.root, g);
    Kin(ns, t.sub, t.root, k);
    assert ns.parent[u] == g;
    assert BalancedAt(ns, bh, NIL, k) && RedOkAt(ns, NIL, n, k);
    RecoloredKept(ns, bh, n, p, u, g, k);
  }

  /** Case 3: parent and uncle red. Painting them black and the grandparent g red adds one black
      node to every path through g and leaves g as the only red node that may have a red
      parent. */
  lemma RecoloredPair(t: Tree, n: int)
    requires RedUncle(t, n)
    ensures var ns, p := t.ns, t.ns.parent[n];
      var g := Grandparent(ns, n);
      RedPair(Tree(Recolored(ns, p, Uncle(ns, n), g), t.root, t.sub, t.bh[g := t.bh[g] + 1]), g)
  {
    var ns, L, bh := t.ns, Sub(t.sub, t.root), t.bh;
    var p := ns.parent[n];
    var g, u := Grandparent(ns, n), Uncle(ns, n);
    var gg := ns.parent[g];
    var ns3, bh3 := Recolored(ns, p, u, g), bh[g := bh[g] + 1];
    RecoloredAbove(t, n);
    forall k | k in L && 0 <= k < ns.Size() && k != NIL
      ensures BalancedAt(ns3, bh3, NIL, k) && RedOkAt(ns3, NIL, g, k)
    {
      if k != g && k != gg {
        RecoloredFar(t, n, k);
      }
    }
  }

  /** In case 3 the repair may go on at the grandparent g: the recoloured tree is sound, its root
      is black unless it is g, the only red pair left is g below its parent, and g lies strictly
      above n. */
  lemma RecolorUp(t: Tree, n: int)
    requires Fixable(t, n) && t.root != n
    requires 0 <= n < t.ns.Size() && NodeColor(t.ns, t.ns.parent[n]) == Red
    ensures 0 <= t.ns.parent[n] < t.ns.Size() && t.ns.parent[n] != t.root
    ensures var ns, p := t.ns, t.ns.parent[n];
      0 <= Grandparent(ns, n) < ns.Size() &&
      (NodeColor(ns, Uncle(ns, n)) == Red ==>
         var u, g := Uncle(ns, n), Grandparent(ns, n);
         0 <= u < ns.Size() &&
         Fixable(Tree(Recolored(ns, p, u, g), t.root, t.sub, t.bh[g := t.bh[g] + 1]), g) &&
         Sub(t.sub, t.root) - Sub(t.sub, g) < Sub(t.sub, t.root) - Sub(t.sub, n))
  {
    var ns, p := t.ns, t.ns.parent[n];
    TreeNodes.Family(ns, t.sub, t.root, n);
    assert LinkedAt(ns, t.sub, t.root, t.root);
    var g := Grandparent(ns, n);
    if NodeColor(ns, Uncle(ns, n)) == Red {
      var u := Uncle(ns, n);
      SoundIgnoresColor(ns, Recolored(ns, p, u, g).color, t.sub, t.root, NIL);
      assert LinkedAt(ns, t.sub, t.root, g);
      SubNested(ns, t.sub, t.root, g, n);
      SubNested(ns, t.sub, t.root, t.root, g);
      RecoloredPair(t, n);
    }
  }

  // ---------------------------------------------------------------------------------------
  // Case 4: rotate
  // ---------------------------------------------------------------------------------------

  /** Case 4 may start at n: n and its parent are red, the uncle is black, the root is black. */
  ghost predicate RedRed(t: Tree, n: int) {
    Sound(t.ns, t.sub, t.root, NIL) && n in Sub(t.sub, t.root) && n != t.root &&
    NodeColor(t.ns, t.root) == Black && 0 <= n < t.ns.Size() &&
    NodeColor(t.ns, t.ns.parent[n]) == Red && RedPair(t, n) &&
    (0 <= t.ns.parent[n] < t.ns.Size() && 0 <= Grandparent(t.ns, n) < t.ns.Size() ==>
       NodeColor(t.ns, Uncle(t.ns, n)) == Black)
  }

  /** After case 4.1 the repair goes on at m whose parent p is not the root and is an outer
      child of the grandparent: m and p both left children or both right children, both red,
      and p's sibling black. */
  ghost predicate Outer(t: Tree, m: int) {
    Sound(t.ns, t.sub, t.root, NIL) && m in Sub(t.sub, t.root) && m != t.root &&
    NodeColor(t.ns, t.root) == Black && 0 <= m < t.ns.Size() &&
    var p := t.ns.parent[m];
    0 <= p < t.ns.Size() && p != t.root && 0 <= t.ns.parent[p] < t.ns.Size() &&
    ((m == t.ns.left[p] && p == t.ns.left[t.ns.parent[p]]) ||
     (m == t.ns.right[p] && p == t.ns.right[t.ns.parent[p]])) &&
    RedPair(t, m) && t.ns.color[p] == Red && NodeColor(t.ns, Sibling(t.ns, p)) == Black
  }

  /** What the rotations of case 4 keep: the live nodes, keys, values and the arena size. */
  ghost predicate Kept(t0: Tree, t: Tree) {
    Sub(t.sub, t.root) == Sub(t0.sub, t0.root) && |t.sub| == |t0.sub| &&
    t.ns.Size() == t0.ns.Size() && t.ns.interval == t0.ns.interval && t.ns.values == t0.ns.values
  }

  /** Case 4.1 with n the right child of a left child p, both red, below the grandparent g. */
  ghost predicate LeftInner(t: Tree, n: int) {
    Linked(t.ns, t.sub, t.root) && RedPair(t, n) && n in Sub(t.sub, t.root) && n != t.root &&
    0 <= n < t.ns.Size() &&
    var p := t.ns.parent[n];
    0 <= p < t.ns.Size() && p != t.root && t.ns.color[p] == Red && n == t.ns.right[p] &&
    0 <= t.ns.parent[p] < t.ns.Size() && p == t.ns.left[t.ns.parent[p]]
  }

  /** Case 4.1 at the nodes the left rotation about p relinks: p, n and the grandparent g. */
  lemma InnerLeftNear(ns: Nodes, bh: seq<nat>, ns1: Nodes, n: int, p: int, g: int)
    requires ns.Sized() && |bh| == ns.Size() && ns1.Sized() && ns1.Size() == ns.Size()
    requires 0 <= n < ns.Size() && 0 <= p < ns.Size() && 0 <= g < ns.Size()
    requires n != p && n != g && p != g
    requires ns.right[p] == n && ns.left[g] == p
    requires var a, ci, co, u := ns.left[p], ns.left[n], ns.right[n], ns.right[g];
      a != p && a != n && ci != p && ci != n && co != p && co != n && u != p && u != n &&
      (a == NIL || 0 <= a < ns.Size()) && (ci == NIL || 0 <= ci < ns.Size()) &&
      (co == NIL || 0 <= co < ns.Size()) && (u == NIL || 0 <= u < ns.Size()) &&
      ns1.color == ns.color && ns1.left[p] == a && ns1.right[p] == ci &&
      ns1.left[n] == p && ns1.right[n] == co && ns1.left[g] == n && ns1.right[g] == u
    requires ns.color[p] == Red && ns.color[n] == Red && ns.color[g] == Black
    requires BalancedAt(ns, bh, NIL, p) && BalancedAt(ns, bh, NIL, n) && BalancedAt(ns, bh, NIL, g)
    requires RedOkAt(ns, NIL, n, p) && RedOkAt(ns, NIL, n, n)
    ensures var bh1 := TurnedHeights(ns, bh, p, n, ns.left[n]);
      BalancedAt(ns1, bh1, NIL, p) && BalancedAt(ns1, bh1, NIL, n) && BalancedAt(ns1, bh1, NIL, g) &&
      RedOkAt(ns1, NIL, p, p) && RedOkAt(ns1, NIL, p, n) && RedOkAt(ns1, NIL, p, g) &&
      NodeColor(ns1, ns1.right[n]) == Black
  {
  }

  /** Case 4.1 at a node k other than p, n and p's parent: rotating p left keeps the rules at
      k. */
  lemma InnerLeftKept(ns: Nodes, bh: seq<nat>, n: int, p: int, k: int)
    requires LeftRotatable(ns, p) && |bh| == ns.Size() && ns.right[p] == n && ns.parent[n] == p
    requires 0 <= k < ns.Size() && k != p && k != n && k != ns.parent[p]
    requires ns.left[k] == NIL || (0 <= ns.left[k] < ns.Size() && ns.parent[ns.left[k]] == k)
    requires ns.right[k] == NIL || (0 <= ns.right[k] < ns.Size() && ns.parent[ns.right[k]] == k)
    ensures var ns1, bh1 := LeftRotated(ns, p), LeftRotatedHeights(ns, bh, p);
      (BalancedAt(ns, bh, NIL, k) ==> BalancedAt(ns1, bh1, NIL, k)) &&
      (RedOkAt(ns, NIL, n, k) ==> RedOkAt(ns1, NIL, p, k))
  {
    LeftRotatedAround(ns, p);
    LeftRotatedAway(ns, p, k);
    RulesKept(ns, bh, LeftRotated(ns, p), LeftRotatedHeights(ns, bh, p), {p, n}, NIL, n, p, k);
  }

  /** Case 4.1 with n the right child of a left child p, away from p, n and the grandparent:
      the rules hold at k as before. */
  lemma InnerLeftFar(t: Tree, n: int, k: int)
    requires LeftInner(t, n) && k in Sub(t.sub, t.root)
    requires k != n && k != t.ns.parent[n] && k != t.ns.parent[t.ns.parent[n]]
    ensures LeftRotatable(t.ns, t.ns.parent[n])
    ensures var p := t.ns.parent[n];
      var ns1, bh1 := LeftRotated(t.ns, p), LeftRotatedHeights(t.ns, t.bh, p);
      0 <= k < t.ns.Size() && BalancedAt(ns1, bh1, NIL, k) && RedOkAt(ns1, NIL, p, k)
  {
    var ns, bh := t.ns, t.bh;
    var p := ns.parent[n];
    Kin(ns, t.sub, t.root, n);
    Kin(ns, t.sub, t.root, k);
    LeftRotatableLinked(ns, t.root, t.sub, p);
    assert BalancedAt(ns, bh, NIL, k) && RedOkAt(ns, NIL, n, k);
    InnerLeftKept(ns, bh, n, p, k);
  }

  /** Case 4.1 at p, n and the grandparent g, the nodes the left rotation about p relinks. */
  lemma InnerLeftAbove(t: Tree, n: int)
    requires LeftInner(t, n)
    ensures LeftRotatable(t.ns, t.ns.parent[n])
    ensures var p := t.ns.parent[n];
      var g := t.ns.parent[p];
      var ns1, bh1 := LeftRotated(t.ns, p), LeftRotatedHeights(t.ns, t.bh, p);
      BalancedAt(ns1, bh1, NIL, p) && BalancedAt(ns1, bh1, NIL, n) && BalancedAt(ns1, bh1, NIL, g) &&
      RedOkAt(ns1, NIL, p, p) && RedOkAt(ns1, NIL, p, n) && RedOkAt(ns1, NIL, p, g) &&
      NodeColor(ns1, ns1.right[n]) == Black
  {
    var ns, bh := t.ns, t.bh;
    var p := ns.parent[n];
    var g := ns.parent[p];
    Kin(ns, t.sub, t.root, n);
    Kin(ns, t.sub, t.root, p);
    Kin(ns, t.sub, t.root, g);
    LeftRotatableLinked(ns, t.root, t.sub, p);
    assert BalancedAt(ns, bh, NIL, p) && BalancedAt(ns, bh, NIL, n) && BalancedAt(ns, bh, NIL, g);
    assert RedOkAt(ns, NIL, n, p) && RedOkAt(ns, NIL, n, n) && RedOkAt(ns, NIL, n, g);
    InnerLeftTurned(ns, bh, n, p, g);
  }

  /** InnerLeftNear for the rotation case 4.1 performs. */
  lemma InnerLeftTurned(ns: Nodes, bh: seq<nat>, n: int, p: int, g: int)
    requires LeftRotatable(ns, p) && |bh| == ns.Size() && ns.right[p] == n && ns.parent[p] == g
    requires 0 <= g < ns.Size() && n != g && p != g && ns.left[g] == p
    requires var a, ci, co, u := ns.left[p], ns.left[n], ns.right[n], ns.right[g];
      a != p && a != n && ci != p && co != p && co != n && u != p && u != n &&
      (u == NIL || 0 <= u < ns.Size())
    requires ns.color[p] == Red && ns.color[n] == Red
    requires BalancedAt(ns, bh, NIL, p) && BalancedAt(ns, bh, NIL, n) && BalancedAt(ns, bh, NIL, g)
    requires RedOkAt(ns, NIL, n, p) && RedOkAt(ns, NIL, n, n) && RedOkAt(ns, NIL, n, g)
    ensures var ns1, bh1 := LeftRotated(ns, p), LeftRotatedHeights(ns, bh, p);
      BalancedAt(ns1, bh1, NIL, p) && BalancedAt(ns1, bh1, NIL, n) && BalancedAt(ns1, bh1, NIL, g) &&
      RedOkAt(ns1, NIL, p, p) && RedOkAt(ns1, NIL, p, n) && RedOkAt(ns1, NIL, p, g) &&
      NodeColor(ns1, ns1.right[n]) == Black
  {
    LeftRotatedAround(ns, p);
    InnerLeftNear(ns, bh, LeftRotated(ns, p), n, p, g);
  }

  /** Case 4.1, n the right child of a left child p: rotating p left keeps every path's black
      count, and leaves p red below the red n, whose other child is black. */
  lemma InnerLeftPair(t: Tree, n: int)
    requires LeftInner(t, n)
    ensures LeftRotatable(t.ns, t.ns.parent[n])
    ensures var p := t.ns.parent[n];
      var ns1, bh1 := LeftRotated(t.ns, p), LeftRotatedHeights(t.ns, t.bh, p);
      Balanced(ns1, Sub(t.sub, t.root), bh1, NIL, NIL) && RedsApart(ns1, Sub(t.sub, t.root), NIL, p) &&
      NodeColor(ns1, ns1.right[n]) == Black
  {
    var ns, L := t.ns, Sub(t.sub, t.root);
    var p := ns.parent[n];
    var g := ns.parent[p];
    InnerLeftAbove(t, n);
    var ns1, bh1 := LeftRotated(ns, p), LeftRotatedHeights(ns, t.bh, p);
    forall k | k in L && 0 <= k < ns.Size() && k != NIL
      ensures BalancedAt(ns1, bh1, NIL, k) && RedOkAt(ns1, NIL, p, k)
    {
      if k != p && k != n && k != g {
        InnerLeftFar(t, n, k);
      }
    }
  }

  /** Case 4 with m and p left children, both red, below the grandparent g whose other child
      is black. */
  ghost predicate RightOuter(t: Tree, m: int) {
    Linked(t.ns, t.sub, t.root) && RedPair(t, m) && m in Sub(t.sub, t.root) && m != t.root &&
    0 <= m < t.ns.Size() &&
    var p := t.ns.parent[m];
    0 <= p < t.ns.Size() && p != t.root && t.ns.color[p] == Red && m == t.ns.left[p] &&
    var g := t.ns.parent[p];
    0 <= g < t.ns.Size() && p == t.ns.left[g] && NodeColor(t.ns, t.ns.right[g]) == Black
  }

  /** Case 4 at p, which takes g's place and turns black, and at g, which turns red below p. */
  lemma OuterRightNear(ns: Nodes, bh: seq<nat>, ns1: Nodes, m: int, p: int, g: int)
    requires ns.Sized() && |bh| == ns.Size() && ns1.Sized() && ns1.Size() == ns.Size()
    requires 0 <= m < ns.Size() && 0 <= p < ns.Size() && 0 <= g < ns.Size()
    requires m != p && m != g && p != g
    requires ns.left[p] == m && ns.left[g] == p
    requires var q, u := ns.right[p], ns.right[g];
      q != m && q != p && q != g && u != m && u != p && u != g &&
      (q == NIL || 0 <= q < ns.Size()) && (u == NIL || 0 <= u < ns.Size()) &&
      ns1.color == ns.color[p := Black][g := Red] &&
      ns1.left[p] == m && ns1.right[p] == g && ns1.left[g] == q && ns1.right[g] == u
    requires ns.color[m] == Red && ns.color[p] == Red && NodeColor(ns, ns.right[g]) == Black
    requires BalancedAt(ns, bh, NIL, p) && BalancedAt(ns, bh, NIL, g)
    requires RedOkAt(ns, NIL, m, p) && RedOkAt(ns, NIL, m, g)
    ensures var bh1 := TurnedHeights(Promoted(ns, p, g), bh, g, p, ns.right[p]);
      BalancedAt(ns1, bh1, NIL, p) && BalancedAt(ns1, bh1, NIL, g) &&
      RedOkAt(ns1, NIL, NIL, p) && RedOkAt(ns1, NIL, NIL, g)
  {
  }

  /** Case 4 at g's parent gg, whose child slot that held g now holds the black p with as many
      black nodes below it as g had. */
  lemma OuterRightTop(ns: Nodes, bh: seq<nat>, ns1: Nodes, m: int, p: int, g: int, gg: int)
    requires ns.Sized() && |bh| == ns.Size() && ns1.Sized() && ns1.Size() == ns.Size()
    requires 0 <= m < ns.Size() && 0 <= p < ns.Size() && 0 <= g < ns.Size() && 0 <= gg < ns.Size()
    requires m != p && m != g && p != g && gg != m && gg != p && gg != g
    requires ns.left[g] == p && ns.color[p] == Red && RedOkAt(ns, NIL, m, g)
    requires var q := ns.right[p]; q != p && q != g && (q == NIL || 0 <= q < ns.Size())
    requires BalancedAt(ns, bh, NIL, p) && BalancedAt(ns, bh, NIL, g)
    requires (ns.left[gg] == g || ns.right[gg] == g) && ns.left[gg] != ns.right[gg]
    requires ns.left[gg] != m && ns.right[gg] != m && ns.left[gg] != p && ns.right[gg] != p
    requires BalancedAt(ns, bh, NIL, gg) && RedOkAt(ns, NIL, m, gg)
    requires ns1.color == ns.color[p := Black][g := Red]
    requires ns.left[gg] == g ==> ns1.left[gg] == p && ns1.right[gg] == ns.right[gg]
    requires ns.left[gg] != g ==> ns1.left[gg] == ns.left[gg] && ns1.right[gg] == p
    ensures var bh1 := TurnedHeights(Promoted(ns, p, g), bh, g, p, ns.right[p]);
      BalancedAt(ns1, bh1, NIL, gg) && RedOkAt(ns1, NIL, NIL, gg)
  {
    var bh1 := TurnedHeights(Promoted(ns, p, g), bh, g, p, ns.right[p]);
    var o := if ns.left[gg] == g then ns.right[gg] else ns.left[gg];
    Reseated(ns, bh, ns1, bh1, m, gg, g, p, o);
  }

  /** Case 4 at a node k other than p, g and g's parent: recolouring p and g and rotating g
      right keeps the rules at k. */
  lemma OuterRightKept(ns: Nodes, bh: seq<nat>, m: int, p: int, g: int, k: int)
    requires ns.Sized() && |bh| == ns.Size() && 0 <= p < ns.Size() && 0 <= g < ns.Size()
    requires RightRotatable(Promoted(ns, p, g), g) && ns.left[g] == p && p != g
    requires ns.parent[p] == g && 0 <= m < ns.Size() && ns.parent[m] == p
    requires 0 <= k < ns.Size() && k != p && k != g && k != ns.parent[g]
    requires ns.left[k] == NIL || (0 <= ns.left[k] < ns.Size() && ns.parent[ns.left[k]] == k)
    requires ns.right[k] == NIL || (0 <= ns.right[k] < ns.Size() && ns.parent[ns.right[k]] == k)
    ensures var ns2 := Promoted(ns, p, g);
      var ns1, bh1 := RightRotated(ns2, g), RightRotatedHeights(ns2, bh, g);
      (BalancedAt(ns, bh, NIL, k) ==> BalancedAt(ns1, bh1, NIL, k)) &&
      (RedOkAt(ns, NIL, m, k) ==> RedOkAt(ns1, NIL, NIL, k))
  {
    var ns2 := Promoted(ns, p, g);
    RightRotatedAround(ns2, g);
    RightRotatedAway(ns2, g, k);
    RulesKept(ns, bh, RightRotated(ns2, g), RightRotatedHeights(ns2, bh, g), {p, g}, NIL, m, NIL, k);
  }

  /** Case 4 with m and p left children, away from p, g and g's parent: the rules hold at k as
      before. */
  lemma OuterRightFar(t: Tree, m: int, k: int)
    requires RightOuter(t, m) && k in Sub(t.sub, t.root)
    requires k != t.ns.parent[m] && k != t.ns.parent[t.ns.parent[m]]
    requires k != t.ns.parent[t.ns.parent[t.ns.parent[m]]]
    ensures var p := t.ns.parent[m];
      var g := t.ns.parent[p];
      var ns2 := Promoted(t.ns, p, g);
      RightRotatable(ns2, g) &&
      var ns1, bh1 := RightRotated(ns2, g), RightRotatedHeights(ns2, t.bh, g);
      0 <= k < t.ns.Size() && BalancedAt(ns1, bh1, NIL, k) && RedOkAt(ns1, NIL, NIL, k)
  {
    var ns, bh := t.ns, t.bh;
    var p := ns.parent[m];
    var g := ns.parent[p];
    Kin(ns, t.sub, t.root, m);
    Kin(ns, t.sub, t.root, p);
    Kin(ns, t.sub, t.root, k);
    RightRotatableLinked(ns, t.root, t.sub, g);
    assert RightRotatable(Promoted(ns, p, g), g);
    assert BalancedAt(ns, bh, NIL, k) && RedOkAt(ns, NIL, m, k);
    OuterRightKept(ns, bh, m, p, g, k);
  }

  /** Case 4 at p and g, the nodes the right rotation about g relinks. */
  lemma OuterRightAbove(t: Tree, m: int)
    requires RightOuter(t, m)
    ensures var p := t.ns.parent[m];
      var g := t.ns.parent[p];
      var ns2 := Promoted(t.ns, p, g);
      RightRotatable(ns2, g) &&
      var ns1, bh1 := RightRotated(ns2, g), RightRotatedHeights(ns2, t.bh, g);
      BalancedAt(ns1, bh1, NIL, p) && BalancedAt(ns1, bh1, NIL, g) &&
      RedOkAt(ns1, NIL, NIL, p) && RedOkAt(ns1, NIL, NIL, g)
  {
    var ns, bh := t.ns, t.bh;
    var p := ns.parent[m];
    var g := ns.parent[p];
    Kin(ns, t.sub, t.root, m);
    Kin(ns, t.sub, t.root, p);
    Kin(ns, t.sub, t.root, g);
    RightRotatableLinked(ns, t.root, t.sub, g);
    var ns2 := Promoted(ns, p, g);
    assert RightRotatable(ns2, g);
    RightRotatedAround(ns2, g);
    assert BalancedAt(ns, bh, NIL, p) && BalancedAt(ns, bh, NIL, g);
    assert RedOkAt(ns, NIL, m, p) && RedOkAt(ns, NIL, m, g);
    OuterRightNear(ns, bh, RightRotated(ns2, g), m, p, g);
  }

  /** The pointers around m, its parent p, grandparent g and great-grandparent gg: four
      distinct nodes, gg's children g and another one, and g rotatable towards p. */
  lemma Lineage(ns: Nodes, sub: seq<set<int>>, root: int, m: int)
    requires Linked(ns, sub, root) && m in Sub(sub, root) && 0 <= m < ns.Size()
    requires var p := ns.parent[m];
      0 <= p < ns.Size() && 0 <= ns.parent[p] < ns.Size() && 0 <= ns.parent[ns.parent[p]] < ns.Size()
    ensures var p := ns.parent[m];
      var g := ns.parent[p];
      var gg := ns.parent[g];
      m != p && m != g && p != g && gg != m && gg != p && gg != g &&
      (ns.left[p] == m || ns.right[p] == m) && (ns.left[g] == p || ns.right[g] == p) &&
      (ns.left[gg] == g || ns.right[gg] == g) && ns.left[gg] != ns.right[gg] &&
      ns.left[gg] != m && ns.right[gg] != m && ns.left[gg] != p && ns.right[gg] != p &&
      (ns.left[g] == p ==> RightRotatable(ns, g)) && (ns.right[g] == p ==> LeftRotatable(ns, g))
  {
    var p := ns.parent[m];
    var g := ns.parent[p];
    var gg := ns.parent[g];
    Kin(ns, sub, root, m);
    Kin(ns, sub, root, p);
    Kin(ns, sub, root, g);
    Kin(ns, sub, root, gg);
    ParentSubProper(ns, sub, root, m);
    ParentSubProper(ns, sub, root, p);
    ParentSubProper(ns, sub, root, g);
    RightRotatableLinked(ns, root, sub, g);
    LeftRotatableLinked(ns, root, sub, g);
  }

  /** Case 4 at g's parent gg, from the rules at p, g and gg alone. */
  lemma OuterRightUpAt(ns: Nodes, sub: seq<set<int>>, root: int, bh: seq<nat>, m: int)
    requires Linked(ns, sub, root) && m in Sub(sub, root) && |bh| == ns.Size() && 0 <= m < ns.Size()
    requires var p := ns.parent[m];
      0 <= p < ns.Size() && m == ns.left[p] && ns.color[p] == Red &&
      var g := ns.parent[p];
      0 <= g < ns.Size() && p == ns.left[g] && ns.parent[g] != NIL &&
      BalancedAt(ns, bh, NIL, p) && BalancedAt(ns, bh, NIL, g) && RedOkAt(ns, NIL, m, g) &&
      0 <= ns.parent[g] < ns.Size() &&
      BalancedAt(ns, bh, NIL, ns.parent[g]) && RedOkAt(ns, NIL, m, ns.parent[g])
    ensures var p := ns.parent[m];
      var g := ns.parent[p];
      var gg := ns.parent[g];
      var ns2 := Promoted(ns, p, g);
      RightRotatable(ns2, g) &&
      var ns1, bh1 := RightRotated(ns2, g), RightRotatedHeights(ns2, bh, g);
      BalancedAt(ns1, bh1, NIL, gg) && RedOkAt(ns1, NIL, NIL, gg)
  {
    var p := ns.parent[m];
    var g := ns.parent[p];
    var gg := ns.parent[g];
    Lineage(ns, sub, root, m);
    assert RightRotatable(Promoted(ns, p, g), g);
    OuterRightTurned(ns, bh, m, p, g, gg);
  }

  /** OuterRightTop for the recolouring and rotation case 4 performs. */
  lemma OuterRightTurned(ns: Nodes, bh: seq<nat>, m: int, p: int, g: int, gg: int)
    requires ns.Sized() && |bh| == ns.Size()
    requires 0 <= m < ns.Size() && 0 <= p < ns.Size() && 0 <= g < ns.Size() && 0 <= gg < ns.Size()
    requires m != p && m != g && p != g && gg != m && gg != p && gg != g
    requires ns.left[g] == p && ns.parent[g] == gg && RightRotatable(Promoted(ns, p, g), g)
    requires ns.color[p] == Red && RedOkAt(ns, NIL, m, g)
    requires BalancedAt(ns, bh, NIL, p) && BalancedAt(ns, bh, NIL, g)
    requires (ns.left[gg] == g || ns.right[gg] == g) && ns.left[gg] != ns.right[gg]
    requires ns.left[gg] != m && ns.right[gg] != m && ns.left[gg] != p && ns.right[gg] != p
    requires BalancedAt(ns, bh, NIL, gg) && RedOkAt(ns, NIL, m, gg)
    ensures var ns2 := Promoted(ns, p, g);
      var ns1, bh1 := RightRotated(ns2, g), RightRotatedHeights(ns2, bh, g);
      BalancedAt(ns1, bh1, NIL, gg) && RedOkAt(ns1, NIL, NIL, gg)
  {
    var ns2 := Promoted(ns, p, g);
    RightRotatedAround(ns2, g);
    assert RightRotatedHeights(ns2, bh, g) == TurnedHeights(ns2, bh, g, p, ns.right[p]);
    OuterRightTop(ns, bh, RightRotated(ns2, g), m, p, g, gg);
  }

  /** Case 4 at g's parent, if any. */
  lemma OuterRightUp(t: Tree, m: int)
    requires RightOuter(t, m) && t.ns.parent[t.ns.parent[t.ns.parent[m]]] != NIL
    ensures var p := t.ns.parent[m];
      var g := t.ns.parent[p];
      var gg := t.ns.parent[g];
      var ns2 := Promoted(t.ns, p, g);
      RightRotatable(ns2, g) && 0 <= gg < t.ns.Size() &&
      var ns1, bh1 := RightRotated(ns2, g), RightRotatedHeights(ns2, t.bh, g);
      BalancedAt(ns1, bh1, NIL, gg) && RedOkAt(ns1, NIL, NIL, gg)
  {
    var ns, bh := t.ns, t.bh;
    var p := ns.parent[m];
    var g := ns.parent[p];
    var gg := ns.parent[g];
    Kin(ns, t.sub, t.root, m);
    Kin(ns, t.sub, t.root, p);
    Kin(ns, t.sub, t.root, g);
    assert BalancedAt(ns, bh, NIL, p) && BalancedAt(ns, bh, NIL, g) && RedOkAt(ns, NIL, m, g);
    assert BalancedAt(ns, bh, NIL, gg) && RedOkAt(ns, NIL, m, gg);
    OuterRightUpAt(ns, t.sub, t.root, bh, m);
  }

  /** Case 4 with m and p left children: painting p black and g red and rotating g right leaves
      a red-black tree. */
  lemma OuterRightBlack(t: Tree, m: int)
    requires RightOuter(t, m)
    ensures var p := t.ns.parent[m];
      var g := t.ns.parent[p];
      var ns2 := Promoted(t.ns, p, g);
      RightRotatable(ns2, g) &&
      RedBlack(RightRotated(ns2, g), Sub(t.sub, t.root), RightRotatedHeights(ns2, t.bh, g), NIL)
  {
    var ns, L := t.ns, Sub(t.sub, t.root);
    var p := ns.parent[m];
    var g := ns.parent[p];
    var gg := ns.parent[g];
    OuterRightAbove(t, m);
    if gg != NIL {
      OuterRightUp(t, m);
    }
    var ns2 := Promoted(ns, p, g);
    var ns1, bh1 := RightRotated(ns2, g), RightRotatedHeights(ns2, t.bh, g);
    forall k | k in L && 0 <= k < ns.Size() && k != NIL
      ensures BalancedAt(ns1, bh1, NIL, k) && RedOkAt(ns1, NIL, NIL, k)
    {
      if k != p && k != g && k != gg {
        OuterRightFar(t, m, k);
      }
    }
  }

  /** Case 4.1 with n the left child of a right child p, both red, below the grandparent g. */
  ghost predicate RightInner(t: Tree, n: int) {
    Linked(t.ns, t.sub, t.root) && RedPair(t, n) && n in Sub(t.sub, t.root) && n != t.root &&
    0 <= n < t.ns.Size() &&
    var p := t.ns.parent[n];
    0 <= p < t.ns.Size() && p != t.root && t.ns.color[p] == Red && n == t.ns.left[p] &&
    0 <= t.ns.parent[p] < t.ns.Size() && p == t.ns.right[t.ns.parent[p]]
  }

  /** Case 4.1 at the nodes the right rotation about p relinks: p, n and the grandparent g. */
  lemma InnerRightNear(ns: Nodes, bh: seq<nat>, ns1: Nodes, n: int, p: int, g: int)
    requires ns.Sized() && |bh| == ns.Size() && ns1.Sized() && ns1.Size() == ns.Size()
    requires 0 <= n < ns.Size() && 0 <= p < ns.Size() && 0 <= g < ns.Size()
    requires n != p && n != g && p != g
    requires ns.left[p] == n && ns.right[g] == p
    requires var a, ci, co, u := ns.right[p], ns.right[n], ns.left[n], ns.left[g];
      a != p && a != n && ci != p && ci != n && co != p && co != n && u != p && u != n &&
      (a == NIL || 0 <= a < ns.Size()) && (ci == NIL || 0 <= ci < ns.Size()) &&
      (co == NIL || 0 <= co < ns.Size()) && (u == NIL || 0 <= u < ns.Size()) &&
      ns1.color == ns.color && ns1.right[p] == a && ns1.left[p] == ci &&
      ns1.right[n] == p && ns1.left[n] == co && ns1.right[g] == n && ns1.left[g] == u
    requires ns.color[p] == Red && ns.color[n] == Red && ns.color[g] == Black
    requires BalancedAt(ns, bh, NIL, p) && BalancedAt(ns, bh, NIL, n) && BalancedAt(ns, bh, NIL, g)
    requires RedOkAt(ns, NIL, n, p) && RedOkAt(ns, NIL, n, n)
    ensures var bh1 := TurnedHeights(ns, bh, p, n, ns.right[n]);
      BalancedAt(ns1, bh1, NIL, p) && BalancedAt(ns1, bh1, NIL, n) && BalancedAt(ns1, bh1, NIL, g) &&
      RedOkAt(ns1, NIL, p, p) && RedOkAt(ns1, NIL, p, n) && RedOkAt(ns1, NIL, p, g) &&
      NodeColor(ns1, ns1.left[n]) == Black
  {
  }

  /** Case 4.1 at a node k other than p, n and p's parent: rotating p right keeps the rules at
      k. */
  lemma InnerRightKept(ns: Nodes, bh: seq<nat>, n: int, p: int, k: int)
    requires RightRotatable(ns, p) && |bh| == ns.Size() && ns.left[p] == n && ns.parent[n] == p
    requires 0 <= k < ns.Size() && k != p && k != n && k != ns.parent[p]
    requires ns.right[k] == NIL || (0 <= ns.right[k] < ns.Size() && ns.parent[ns.right[k]] == k)
    requires ns.left[k] == NIL || (0 <= ns.left[k] < ns.Size() && ns.parent[ns.left[k]] == k)
    ensures var ns1, bh1 := RightRotated(ns, p), RightRotatedHeights(ns, bh, p);
      (BalancedAt(ns, bh, NIL, k) ==> BalancedAt(ns1, bh1, NIL, k)) &&
      (RedOkAt(ns, NIL, n, k) ==> RedOkAt(ns1, NIL, p, k))
  {
    RightRotatedAround(ns, p);
    RightRotatedAway(ns, p, k);
    RulesKept(ns, bh, RightRotated(ns, p), RightRotatedHeights(ns, bh, p), {p, n}, NIL, n, p, k);
  }

  /** Case 4.1 with n the left child of a right child p, away from p, n and the grandparent:
      the rules hold at k as before. */
  lemma InnerRightFar(t: Tree, n: int, k: int)
    requires RightInner(t, n) && k in Sub(t.sub, t.root)
    requires k != n && k != t.ns.parent[n] && k != t.ns.parent[t.ns.parent[n]]
    ensures RightRotatable(t.ns, t.ns.parent[n])
    ensures var p := t.ns.parent[n];
      var ns1, bh1 := RightRotated(t.ns, p), RightRotatedHeights(t.ns, t.bh, p);
      0 <= k < t.ns.Size() && BalancedAt(ns1, bh1, NIL, k) && RedOkAt(ns1, NIL, p, k)
  {
    var ns, bh := t.ns, t.bh;
    var p := ns.parent[n];
    Kin(ns, t.sub, t.root, n);
    Kin(ns, t.sub, t.root, k);
    RightRotatableLinked(ns, t.root, t.sub, p);
    assert BalancedAt(ns, bh, NIL, k) && RedOkAt(ns, NIL, n, k);
    InnerRightKept(ns, bh, n, p, k);
  }

  /** Case 4.1 at p, n and the grandparent g, the nodes the right rotation about p relinks. */
  lemma InnerRightAbove(t: Tree, n: int)
    requires RightInner(t, n)
    ensures RightRotatable(t.ns, t.ns.parent[n])
    ensures var p := t.ns.parent[n];
      var g := t.ns.parent[p];
      var ns1, bh1 := RightRotated(t.ns, p), RightRotatedHeights(t.ns, t.bh, p);
      BalancedAt(ns1, bh1, NIL, p) && BalancedAt(ns1, bh1, NIL, n) && BalancedAt(ns1, bh1, NIL, g) &&
      RedOkAt(ns1, NIL, p, p) && RedOkAt(ns1, NIL, p, n) && RedOkAt(ns1, NIL, p, g) &&
      NodeColor(ns1, ns1.left[n]) == Black
  {
    var ns, bh := t.ns, t.bh;
    var p := ns.parent[n];
    var g := ns.parent[p];
    Kin(ns, t.sub, t.root, n);
    Kin(ns, t.sub, t.root, p);
    Kin(ns, t.sub, t.root, g);
    RightRotatableLinked(ns, t.root, t.sub, p);
    assert BalancedAt(ns, bh, NIL, p) && BalancedAt(ns, bh, NIL, n) && BalancedAt(ns, bh, NIL, g);
    assert RedOkAt(ns, NIL, n, p) && RedOkAt(ns, NIL, n, n) && RedOkAt(ns, NIL, n, g);
    InnerRightTurned(ns, bh, n, p, g);
  }

  /** InnerRightNear for the rotation case 4.1 performs. */
  lemma InnerRightTurned(ns: Nodes, bh: seq<nat>, n: int, p: int, g: int)
    requires RightRotatable(ns, p) && |bh| == ns.Size() && ns.left[p] == n && ns.parent[p] == g
    requires 0 <= g < ns.Size() && n != g && p != g && ns.right[g] == p
    requires var a, ci, co, u := ns.right[p], ns.right[n], ns.left[n], ns.left[g];
      a != p && a != n && ci != p && co != p && co != n && u != p && u != n &&
      (u == NIL || 0 <= u < ns.Size())
    requires ns.color[p] == Red && ns.color[n] == Red
    requires BalancedAt(ns, bh, NIL, p) && BalancedAt(ns, bh, NIL, n) && BalancedAt(ns, bh, NIL, g)
    requires RedOkAt(ns, NIL, n, p) && RedOkAt(ns, NIL, n, n) && RedOkAt(ns, NIL, n, g)
    ensures var ns1, bh1 := RightRotated(ns, p), RightRotatedHeights(ns, bh, p);
      BalancedAt(ns1, bh1, NIL, p) && BalancedAt(ns1, bh1, NIL, n) && BalancedAt(ns1, bh1, NIL, g) &&
      RedOkAt(ns1, NIL, p, p) && RedOkAt(ns1, NIL, p, n) && RedOkAt(ns1, NIL, p, g) &&
      NodeColor(ns1, ns1.left[n]) == Black
  {
    RightRotatedAround(ns, p);
    InnerRightNear(ns, bh, RightRotated(ns, p), n, p, g);
  }

  /** Case 4.1, n the left child of a right child p: rotating p right keeps every path's black
      count, and leaves p red below the red n, whose other child is black. */
  lemma InnerRightPair(t: Tree, n: int)
    requires RightInner(t, n)
    ensures RightRotatable(t.ns, t.ns.parent[n])
    ensures var p := t.ns.parent[n];
      var ns1, bh1 := RightRotated(t.ns, p), RightRotatedHeights(t.ns, t.bh, p);
      Balanced(ns1, Sub(t.sub, t.root), bh1, NIL, NIL) && RedsApart(ns1, Sub(t.sub, t.root), NIL, p) &&
      NodeColor(ns1, ns1.left[n]) == Black
  {
    var ns, L := t.ns, Sub(t.sub, t.root);
    var p := ns.parent[n];
    var g := ns.parent[p];
    InnerRightAbove(t, n);
    var ns1, bh1 := RightRotated(ns, p), RightRotatedHeights(ns, t.bh, p);
    forall k | k in L && 0 <= k < ns.Size() && k != NIL
      ensures BalancedAt(ns1, bh1, NIL, k) && RedOkAt(ns1, NIL, p, k)
    {
      if k != p && k != n && k != g {
        InnerRightFar(t, n, k);
      }
    }
  }

  /** Case 4 with m and p right children, both red, below the grandparent g whose other child
      is black. */
  ghost predicate LeftOuter(t: Tree, m: int) {
    Linked(t.ns, t.sub, t.root) && RedPair(t, m) && m in Sub(t.sub, t.root) && m != t.root &&
    0 <= m < t.ns.Size() &&
    var p := t.ns.parent[m];
    0 <= p < t.ns.Size() && p != t.root && t.ns.color[p] == Red && m == t.ns.right[p] &&
    var g := t.ns.parent[p];
    0 <= g < t.ns.Size() && p == t.ns.right[g] && NodeColor(t.ns, t.ns.left[g]) == Black
  }

  /** Case 4 at p, which takes g's place and turns black, and at g, which turns red below p. */
  lemma OuterLeftNear(ns: Nodes, bh: seq<nat>, ns1: Nodes, m: int, p: int, g: int)
    requires ns.Sized() && |bh| == ns.Size() && ns1.Sized() && ns1.Size() == ns.Size()
    requires 0 <= m < ns.Size() && 0 <= p < ns.Size() && 0 <= g < ns.Size()
    requires m != p && m != g && p != g
    requires ns.right[p] == m && ns.right[g] == p
    requires var q, u := ns.left[p], ns.left[g];
      q != m && q != p && q != g && u != m && u != p && u != g &&
      (q == NIL || 0 <= q < ns.Size()) && (u == NIL || 0 <= u < ns.Size()) &&
      ns1.color == ns.color[p := Black][g := Red] &&
      ns1.right[p] == m && ns1.left[p] == g && ns1.right[g] == q && ns1.left[g] == u
    requires ns.color[m] == Red && ns.color[p] == Red && NodeColor(ns, ns.left[g]) == Black
    requires BalancedAt(ns, bh, NIL, p) && BalancedAt(ns, bh, NIL, g)
    requires RedOkAt(ns, NIL, m, p) && RedOkAt(ns, NIL, m, g)
    ensures var bh1 := TurnedHeights(Promoted(ns, p, g), bh, g, p, ns.left[p]);
      BalancedAt(ns1, bh1, NIL, p) && BalancedAt(ns1, bh1, NIL, g) &&
      RedOkAt(ns1, NIL, NIL, p) && RedOkAt(ns1, NIL, NIL, g)
  {
  }

  /** Case 4 at g's parent gg, whose child slot that held g now holds the black p with as many
      black nodes below it as g had. */
  lemma OuterLeftTop(ns: Nodes, bh: seq<nat>, ns1: Nodes, m: int, p: int, g: int, gg: int)
    requires ns.Sized() && |bh| == ns.Size() && ns1.Sized() && ns1.Size() == ns.Size()
    requires 0 <= m < ns.Size() && 0 <= p < ns.Size() && 0 <= g < ns.Size() && 0 <= gg < ns.Size()
    requires m != p && m != g && p != g && gg != m && gg != p && gg != g
    requires ns.right[g] == p && ns.color[p] == Red && RedOkAt(ns, NIL, m, g)
    requires var q := ns.left[p]; q != p && q != g && (q == NIL || 0 <= q < ns.Size())
    requires BalancedAt(ns, bh, NIL, p) && BalancedAt(ns, bh, NIL, g)
    requires (ns.right[gg] == g || ns.left[gg] == g) && ns.right[gg] != ns.left[gg]
    requires ns.right[gg] != m && ns.left[gg] != m && ns.right[gg] != p && ns.left[gg] != p
    requires BalancedAt(ns, bh, NIL, gg) && RedOkAt(ns, NIL, m, gg)
    requires ns1.color == ns.color[p := Black][g := Red]
    requires ns.right[gg] == g ==> ns1.right[gg] == p && ns1.left[gg] == ns.left[gg]
    requires ns.right[gg] != g ==> ns1.right[gg] == ns.right[gg] && ns1.left[gg] == p
    ensures var bh1 := TurnedHeights(Promoted(ns, p, g), bh, g, p, ns.left[p]);
      BalancedAt(ns1, bh1, NIL, gg) && RedOkAt(ns1, NIL, NIL, gg)
  {
    var bh1 := TurnedHeights(Promoted(ns, p, g), bh, g, p, ns.left[p]);
    var o := if ns.right[gg] == g then ns.left[gg] else ns.right[gg];
    Reseated(ns, bh, ns1, bh1, m, gg, g, p, o);
  }

  /** Case 4 at a node k other than p, g and g's parent: recolouring p and g and rotating g
      left keeps the rules at k. */
  lemma OuterLeftKept(ns: Nodes, bh: seq<nat>, m: int, p: int, g: int, k: int)
    requires ns.Sized() && |bh| == ns.Size() && 0 <= p < ns.Size() && 0 <= g < ns.Size()
    requires LeftRotatable(Promoted(ns, p, g), g) && ns.right[g] == p && p != g
    requires ns.parent[p] == g && 0 <= m < ns.Size() && ns.parent[m] == p
    requires 0 <= k < ns.Size() && k != p && k != g && k != ns.parent[g]
    requires ns.right[k] == NIL || (0 <= ns.right[k] < ns.Size() && ns.parent[ns.right[k]] == k)
    requires ns.left[k] == NIL || (0 <= ns.left[k] < ns.Size() && ns.parent[ns.left[k]] == k)
    ensures var ns2 := Promoted(ns, p, g);
      var ns1, bh1 := LeftRotated(ns2, g), LeftRotatedHeights(ns2, bh, g);
      (BalancedAt(ns, bh, NIL, k) ==> BalancedAt(ns1, bh1, NIL, k)) &&
      (RedOkAt(ns, NIL, m, k) ==> RedOkAt(ns1, NIL, NIL, k))
  {
    var ns2 := Promoted(ns, p, g);
    LeftRotatedAround(ns2, g);
    LeftRotatedAway(ns2, g, k);
    RulesKept(ns, bh, LeftRotated(ns2, g), LeftRotatedHeights(ns2, bh, g), {p, g}, NIL, m, NIL, k);
  }

  /** Case 4 with m and p right children, away from p, g and g's parent: the rules hold at k as
      before. */
  lemma OuterLeftFar(t: Tree, m: int, k: int)
    requires LeftOuter(t, m) && k in Sub(t.sub, t.root)
    requires k != t.ns.parent[m] && k != t.ns.parent[t.ns.parent[m]]
    requires k != t.ns.parent[t.ns.parent[t.ns.parent[m]]]
    ensures var p := t.ns.parent[m];
      var g := t.ns.parent[p];
      var ns2 := Promoted(t.ns, p, g);
      LeftRotatable(ns2, g) &&
      var ns1, bh1 := LeftRotated(ns2, g), LeftRotatedHeights(ns2, t.bh, g);
      0 <= k < t.ns.Size() && BalancedAt(ns1, bh1, NIL, k) && RedOkAt(ns1, NIL, NIL, k)
  {
    var ns, bh := t.ns, t.bh;
    var p := ns.parent[m];
    var g := ns.parent[p];
    Kin(ns, t.sub, t.root, m);
    Kin(ns, t.sub, t.root, p);
    Kin(ns, t.sub, t.root, k);
    LeftRotatableLinked(ns, t.root, t.sub, g);
    assert LeftRotatable(Promoted(ns, p, g), g);
    assert BalancedAt(ns, bh, NIL, k) && RedOkAt(ns, NIL, m, k);
    OuterLeftKept(ns, bh, m, p, g, k);
  }

  /** Case 4 at p and g, the nodes the left rotation about g relinks. */
  lemma OuterLeftAbove(t: Tree, m: int)
    requires LeftOuter(t, m)
    ensures var p := t.ns.parent[m];
      var g := t.ns.parent[p];
      var ns2 := Promoted(t.ns, p, g);
      LeftRotatable(ns2, g) &&
      var ns1, bh1 := LeftRotated(ns2, g), LeftRotatedHeights(ns2, t.bh, g);
      BalancedAt(ns1, bh1, NIL, p) && BalancedAt(ns1, bh1, NIL, g) &&
      RedOkAt(ns1, NIL, NIL, p) && RedOkAt(ns1, NIL, NIL, g)
  {
    var ns, bh := t.ns, t.bh;
    var p := ns.parent[m];
    var g := ns.parent[p];
    Kin(ns, t.sub, t.root, m);
    Kin(ns, t.sub, t.root, p);
    Kin(ns, t.sub, t.root, g);
    LeftRotatableLinked(ns, t.root, t.sub, g);
    var ns2 := Promoted(ns, p, g);
    assert LeftRotatable(ns2, g);
    LeftRotatedAround(ns2, g);
    assert BalancedAt(ns, bh, NIL, p) && BalancedAt(ns, bh, NIL, g);
    assert RedOkAt(ns, NIL, m, p) && RedOkAt(ns, NIL, m, g);
    OuterLeftNear(ns, bh, LeftRotated(ns2, g), m, p, g);
  }

  /** Case 4 at g's parent gg, from the rules at p, g and gg alone. */
  lemma OuterLeftUpAt(ns: Nodes, sub: seq<set<int>>, root: int, bh: seq<nat>, m: int)
    requires Linked(ns, sub, root) && m in Sub(sub, root) && |bh| == ns.Size() && 0 <= m < ns.Size()
    requires var p := ns.parent[m];
      0 <= p < ns.Size() && m == ns.right[p] && ns.color[p] == Red &&
      var g := ns.parent[p];
      0 <= g < ns.Size() && p == ns.right[g] && ns.parent[g] != NIL &&
      BalancedAt(ns, bh, NIL, p) && BalancedAt(ns, bh, NIL, g) && RedOkAt(ns, NIL, m, g) &&
      0 <= ns.parent[g] < ns.Size() &&
      BalancedAt(ns, bh, NIL, ns.parent[g]) && RedOkAt(ns, NIL, m, ns.parent[g])
    ensures var p := ns.parent[m];
      var g := ns.parent[p];
      var gg := ns.parent[g];
      var ns2 := Promoted(ns, p, g);
      LeftRotatable(ns2, g) &&
      var ns1, bh1 := LeftRotated(ns2, g), LeftRotatedHeights(ns2, bh, g);
      BalancedAt(ns1, bh1, NIL, gg) && RedOkAt(ns1, NIL, NIL, gg)
  {
    var p := ns.parent[m];
    var g := ns.parent[p];
    var gg := ns.parent[g];
    Lineage(ns, sub, root, m);
    assert LeftRotatable(Promoted(ns, p, g), g);
    OuterLeftTurned(ns, bh, m, p, g, gg);
  }

  /** OuterLeftTop for the recolouring and rotation case 4 performs. */
  lemma OuterLeftTurned(ns: Nodes, bh: seq<nat>, m: int, p: int, g: int, gg: int)
    requires ns.Sized() && |bh| == ns.Size()
    requires 0 <= m < ns.Size() && 0 <= p < ns.Size() && 0 <= g < ns.Size() && 0 <= gg < ns.Size()
    requires m != p && m != g && p != g && gg != m && gg != p && gg != g
    requires ns.right[g] == p && ns.parent[g] == gg && LeftRotatable(Promoted(ns, p, g), g)
    requires ns.color[p] == Red && RedOkAt(ns, NIL, m, g)
    requires BalancedAt(ns, bh, NIL, p) && BalancedAt(ns, bh, NIL, g)
    requires (ns.right[gg] == g || ns.left[gg] == g) && ns.right[gg] != ns.left[gg]
    requires ns.right[gg] != m && ns.left[gg] != m && ns.right[gg] != p && ns.left[gg] != p
    requires BalancedAt(ns, bh, NIL, gg) && RedOkAt(ns, NIL, m, gg)
    ensures var ns2 := Promoted(ns, p, g);
      var ns1, bh1 := LeftRotated(ns2, g), LeftRotatedHeights(ns2, bh, g);
      BalancedAt(ns1, bh1, NIL, gg) && RedOkAt(ns1, NIL, NIL, gg)
  {
    var ns2 := Promoted(ns, p, g);
    LeftRotatedAround(ns2, g);
    assert LeftRotatedHeights(ns2, bh, g) == TurnedHeights(ns2, bh, g, p, ns.left[p]);
    OuterLeftTop(ns, bh, LeftRotated(ns2, g), m, p, g, gg);
  }

  /** Case 4 at g's parent, if any. */
  lemma OuterLeftUp(t: Tree, m: int)
    requires LeftOuter(t, m) && t.ns.parent[t.ns.parent[t.ns.parent[m]]] != NIL
    ensures var p := t.ns.parent[m];
      var g := t.ns.parent[p];
      var gg := t.ns.parent[g];
      var ns2 := Promoted(t.ns, p, g);
      LeftRotatable(ns2, g) && 0 <= gg < t.ns.Size() &&
      var ns1, bh1 := LeftRotated(ns2, g), LeftRotatedHeights(ns2, t.bh, g);
      BalancedAt(ns1, bh1, NIL, gg) && RedOkAt(ns1, NIL, NIL, gg)
  {
    var ns, bh := t.ns, t.bh;
    var p := ns.parent[m];
    var g := ns.parent[p];
    var gg := ns.parent[g];
    Kin(ns, t.sub, t.root, m);
    Kin(ns, t.sub, t.root, p);
    Kin(ns, t.sub, t.root, g);
    assert BalancedAt(ns, bh, NIL, p) && BalancedAt(ns, bh, NIL, g) && RedOkAt(ns, NIL, m, g);
    assert BalancedAt(ns, bh, NIL, gg) && RedOkAt(ns, NIL, m, gg);
    OuterLeftUpAt(ns, t.sub, t.root, bh, m);
  }

  /** Case 4 with m and p right children: painting p black and g red and rotating g left leaves
      a red-black tree. */
  lemma OuterLeftBlack(t: Tree, m: int)
    requires LeftOuter(t, m)
    ensures var p := t.ns.parent[m];
      var g := t.ns.parent[p];
      var ns2 := Promoted(t.ns, p, g);
      LeftRotatable(ns2, g) &&
      RedBlack(LeftRotated(ns2, g), Sub(t.sub, t.root), LeftRotatedHeights(ns2, t.bh, g), NIL)
  {
    var ns, L := t.ns, Sub(t.sub, t.root);
    var p := ns.parent[m];
    var g := ns.parent[p];
    var gg := ns.parent[g];
    OuterLeftAbove(t, m);
    if gg != NIL {
      OuterLeftUp(t, m);
    }
    var ns2 := Promoted(ns, p, g);
    var ns1, bh1 := LeftRotated(ns2, g), LeftRotatedHeights(ns2, t.bh, g);
    forall k | k in L && 0 <= k < ns.Size() && k != NIL
      ensures BalancedAt(ns1, bh1, NIL, k) && RedOkAt(ns1, NIL, NIL, k)
    {
      if k != p && k != g && k != gg {
        OuterLeftFar(t, m, k);
      }
    }
  }

  /** Case 4.1 when n is the right child of a left child p: rotating p left keeps the tree sound
      and makes p, now n's left child, an outer grandchild. */
  lemma InnerLeft(t: Tree, n: int, p: int, g: int)
    requires Sound(t.ns, t.sub, t.root, NIL) && n in Sub(t.sub, t.root) && n != t.root
    requires NodeColor(t.ns, t.root) == Black && 0 <= n < t.ns.Size()
    requires p == t.ns.parent[n] && 0 <= p < t.ns.Size() && p != t.root
    requires g == t.ns.parent[p] && 0 <= g < t.ns.Size()
    requires n == t.ns.right[p] && p == t.ns.left[g]
    requires RedPair(t, n) && t.ns.color[p] == Red && NodeColor(t.ns, t.ns.right[g]) == Black
    ensures LeftRotatable(t.ns, p) && |t.sub| == t.ns.Size()
    ensures var t1 := Tree(LeftRotated(t.ns, p), ReplacedRoot(t.ns, t.root, p, n),
                           LeftRotatedSub(t.ns, t.sub, p), LeftRotatedHeights(t.ns, t.bh, p));
      t1.root == t.root && t1.ns.left[n] == p && Outer(t1, p) && Kept(t, t1) &&
      t1.ns.color == t.ns.color
  {
    TreeNodes.Family(t.ns, t.sub, t.root, n);
    TreeNodes.Family(t.ns, t.sub, t.root, p);
    LeftRotatedSound(t.ns, t.root, t.sub, p, NIL);
    InnerLeftPair(t, n);
  }

  /** Case 4.1 when n is the left child of a right child p: the mirror image of InnerLeft. */
  lemma InnerRight(t: Tree, n: int, p: int, g: int)
    requires Sound(t.ns, t.sub, t.root, NIL) && n in Sub(t.sub, t.root) && n != t.root
    requires NodeColor(t.ns, t.root) == Black && 0 <= n < t.ns.Size()
    requires p == t.ns.parent[n] && 0 <= p < t.ns.Size() && p != t.root
    requires g == t.ns.parent[p] && 0 <= g < t.ns.Size()
    requires n == t.ns.left[p] && p == t.ns.right[g]
    requires RedPair(t, n) && t.ns.color[p] == Red && NodeColor(t.ns, t.ns.left[g]) == Black
    ensures RightRotatable(t.ns, p) && |t.sub| == t.ns.Size()
    ensures var t1 := Tree(RightRotated(t.ns, p), ReplacedRoot(t.ns, t.root, p, n),
                           RightRotatedSub(t.ns, t.sub, p), RightRotatedHeights(t.ns, t.bh, p));
      t1.root == t.root && t1.ns.right[n] == p && Outer(t1, p) && Kept(t, t1) &&
      t1.ns.color == t.ns.color
  {
    TreeNodes.Family(t.ns, t.sub, t.root, n);
    TreeNodes.Family(t.ns, t.sub, t.root, p);
    RightRotatedSound(t.ns, t.root, t.sub, p, NIL);
    InnerRightPair(t, n);
  }

  /** The pointers case 4.1 follows exist: n's parent and grandparent, and the rotation it
      performs, if any, is possible. */
  ghost predicate InnerReady(t: Tree, n: int) {
    var ns := t.ns;
    var ready :=
      ns.Sized() && |t.sub| == ns.Size() && |t.bh| == ns.Size() && 0 <= n < ns.Size() &&
      var p := ns.parent[n];
      0 <= p < ns.Size() && 0 <= ns.parent[p] < ns.Size() &&
      (n == ns.right[p] && p == ns.left[ns.parent[p]] ==> LeftRotatable(ns, p)) &&
      (n == ns.left[p] && p == ns.right[ns.parent[p]] ==> RightRotatable(ns, p));
    ready
  }

  /** Case 4.1 of fixTreeAt: when n is an inner grandchild, the rotation about its parent p that
      brings n up, after which the repair goes on with p; otherwise nothing changes and it goes
      on with n. */
  ghost function InnerRotated(t: Tree, n: int): (Tree, int)
    requires InnerReady(t, n)
  {
    var ns, p := t.ns, t.ns.parent[n];
    var g := ns.parent[p];
    if n == ns.right[p] && p == ns.left[g] then
      var ns1 := LeftRotated(ns, p);
      (Tree(ns1, ReplacedRoot(ns, t.root, p, ns.right[p]), LeftRotatedSub(ns, t.sub, p),
            LeftRotatedHeights(ns, t.bh, p)), ns1.left[n])
    else if n == ns.left[p] && p == ns.right[g] then
      var ns1 := RightRotated(ns, p);
      (Tree(ns1, ReplacedRoot(ns, t.root, p, ns.left[p]), RightRotatedSub(ns, t.sub, p),
            RightRotatedHeights(ns, t.bh, p)), ns1.right[n])
    else
      (t, n)
  }

  /** Case 4.1 keeps the tree sound with the same root, nodes, keys, values and colours, and
      leaves the red pair outer. */
  lemma InnerRotatedFacts(t: Tree, n: int)
    requires RedRed(t, n)
    ensures InnerReady(t, n)
    ensures var (t1, m) := InnerRotated(t, n);
      Outer(t1, m) && t1.root == t.root && Kept(t, t1) && t1.ns.color == t.ns.color
  {
    RecolorUp(t, n);
    TreeNodes.Family(t.ns, t.sub, t.root, n);
    var ns, p := t.ns, t.ns.parent[n];
    var g := Grandparent(ns, n);
    if n == ns.right[p] && p == ns.left[g] {
      InnerLeft(t, n, p, g);
    } else if n == ns.left[p] && p == ns.right[g] {
      InnerRight(t, n, p, g);
    }
  }

  /** The recolouring of case 4: the parent p black, the grandparent g red. */
  ghost function Promoted(ns: Nodes, p: int, g: int): (r: Nodes)
    requires ns.Sized() && 0 <= p < ns.Size() && 0 <= g < ns.Size()
    ensures r.Sized() && r.Size() == ns.Size()
  {
    ns.(color := ns.color[p := Black][g := Red])
  }

  /** Case 4 with m and p left children: after the recolouring, rotating g right keeps the tree
      sound and leaves a black root. */
  lemma OuterRight(t: Tree, m: int, p: int, g: int)
    requires Outer(t, m) && p == t.ns.parent[m] && g == t.ns.parent[p] && m == t.ns.left[p]
    ensures 0 <= p < t.ns.Size() && 0 <= g < t.ns.Size() && p == t.ns.left[g]
    ensures var ns2 := Promoted(t.ns, p, g);
      RightRotatable(ns2, g) && |t.sub| == ns2.Size() &&
      Repaired(t, Tree(RightRotated(ns2, g), ReplacedRoot(ns2, t.root, g, p), RightRotatedSub(ns2, t.sub, g),
                       RightRotatedHeights(ns2, t.bh, g)))
  {
    var ns2 := Promoted(t.ns, p, g);
    TreeNodes.Family(t.ns, t.sub, t.root, m);
    TreeNodes.Family(t.ns, t.sub, t.root, p);
    SoundIgnoresColor(t.ns, ns2.color, t.sub, t.root, NIL);
    RightRotatedSound(ns2, t.root, t.sub, g, NIL);
    OuterRightBlack(t, m);
  }

  /** Case 4 with m and p right children: the mirror image of OuterRight. */
  lemma OuterLeft(t: Tree, m: int, p: int, g: int)
    requires Outer(t, m) && p == t.ns.parent[m] && g == t.ns.parent[p] && m == t.ns.right[p]
    ensures 0 <= p < t.ns.Size() && 0 <= g < t.ns.Size() && p == t.ns.right[g]
    ensures var ns2 := Promoted(t.ns, p, g);
      LeftRotatable(ns2, g) && |t.sub| == ns2.Size() &&
      Repaired(t, Tree(LeftRotated(ns2, g), ReplacedRoot(ns2, t.root, g, p), LeftRotatedSub(ns2, t.sub, g),
                       LeftRotatedHeights(ns2, t.bh, g)))
  {
    var ns2 := Promoted(t.ns, p, g);
    TreeNodes.Family(t.ns, t.sub, t.root, m);
    TreeNodes.Family(t.ns, t.sub, t.root, p);
    SoundIgnoresColor(t.ns, ns2.color, t.sub, t.root, NIL);
    LeftRotatedSound(ns2, t.root, t.sub, g, NIL);
    OuterLeftBlack(t, m);
  }

  /** The pointers case 4 proper follows exist, and the rotation about the grandparent is
      possible once the parent and grandparent are recoloured. */
  ghost predicate OuterReady(t: Tree, m: int) {
    var ns := t.ns;
    var ready :=
      ns.Sized() && |t.sub| == ns.Size() && |t.bh| == ns.Size() && 0 <= m < ns.Size() &&
      var p := ns.parent[m];
      0 <= p < ns.Size() && 0 <= ns.parent[p] < ns.Size() &&
      var g := ns.parent[p];
      (m == ns.left[p] && p == ns.left[g] ==> RightRotatable(Promoted(ns, p, g), g)) &&
      (!(m == ns.left[p] && p == ns.left[g]) ==> LeftRotatable(Promoted(ns, p, g), g));
    ready
  }

  /** Case 4 proper: p turns black, the grandparent g red, and the rotation about g that brings
      p up (right when m and p are left children, left otherwise). */
  ghost function OuterRotated(t: Tree, m: int): Tree
    requires OuterReady(t, m)
  {
    var ns, p := t.ns, t.ns.parent[m];
    var g := ns.parent[p];
    var ns2 := Promoted(ns, p, g);
    if m == ns.left[p] && p == ns.left[g] then
      Tree(RightRotated(ns2, g), ReplacedRoot(ns2, t.root, g, ns2.left[g]), RightRotatedSub(ns2, t.sub, g),
           RightRotatedHeights(ns2, t.bh, g))
    else
      Tree(LeftRotated(ns2, g), ReplacedRoot(ns2, t.root, g, ns2.right[g]), LeftRotatedSub(ns2, t.sub, g),
           LeftRotatedHeights(ns2, t.bh, g))
  }

  /** Case 4 proper leaves a sound red-black tree with a black root over the same nodes, keys
      and values. */
  lemma OuterRotatedFacts(t: Tree, m: int)
    requires Outer(t, m)
    ensures OuterReady(t, m) && Repaired(t, OuterRotated(t, m))
  {
    var p := t.ns.parent[m];
    var g := t.ns.parent[p];
    if m == t.ns.left[p] && p == t.ns.left[g] {
      OuterRight(t, m, p, g);
    } else {
      OuterLeft(t, m, p, g);
    }
  }

  /** Case 4 as a whole, 4.1 and the rotation about the grandparent: with n and its parent red
      and the uncle black, both rotations are possible and leave a sound red-black tree with a
      black root. */
  lemma RotationsRepair(t: Tree, n: int)
    requires Fixable(t, n) && n != t.root && 0 <= n < t.ns.Size()
    requires NodeColor(t.ns, t.ns.parent[n]) == Red
    requires 0 <= t.ns.parent[n] < t.ns.Size() && 0 <= Grandparent(t.ns, n) < t.ns.Size()
    requires NodeColor(t.ns, Uncle(t.ns, n)) == Black
    ensures InnerReady(t, n) && OuterReady(InnerRotated(t, n).0, InnerRotated(t, n).1)
    ensures Repaired(t, OuterRotated(InnerRotated(t, n).0, InnerRotated(t, n).1))
  {
    InnerRotatedFacts(t, n);
    OuterRotatedFacts(InnerRotated(t, n).0, InnerRotated(t, n).1);
  }

  // ---------------------------------------------------------------------------------------
  // The whole repair
  // ---------------------------------------------------------------------------------------

  /** A red parent of n is not the root, which is black, so n has a grandparent. */
  lemma RedParent(t: Tree, n: int)
    requires Fixable(t, n) && t.root != n
    requires 0 <= n < t.ns.Size() && NodeColor(t.ns, t.ns.parent[n]) == Red
    ensures 0 <= t.ns.parent[n] < t.ns.Size() && t.ns.parent[n] != t.root
    ensures 0 <= Grandparent(t.ns, n) < t.ns.Size()
  {
    TreeNodes.Family(t.ns, t.sub, t.root, n);
    assert LinkedAt(t.ns, t.sub, t.root, t.root);
  }

  /** Case 3 as the first step of FixedAt: the rest of the repair is the repair from the
      recoloured grandparent. */
  lemma RecolorThenFixed(t: Tree, n: int)
    requires Fixable(t, n) && t.root != n && 0 <= n < t.ns.Size()
    requires 0 <= t.ns.parent[n] < t.ns.Size() && 0 <= Grandparent(t.ns, n) < t.ns.Size()
    requires NodeColor(t.ns, t.ns.parent[n]) == Red && NodeColor(t.ns, Uncle(t.ns, n)) == Red
    ensures 0 <= Uncle(t.ns, n) < t.ns.Size()
    ensures var ns, p, u, g := t.ns, t.ns.parent[n], Uncle(t.ns, n), Grandparent(t.ns, n);
      var t3 := Tree(Recolored(ns, p, u, g), t.root, t.sub, t.bh[g := t.bh[g] + 1]);
      Fixable(t3, g) && Sub(t.sub, t.root) - Sub(t.sub, g) < Sub(t.sub, t.root) - Sub(t.sub, n) &&
      FixedAt(t, n) == FixedAt(t3, g)
  {
    RecolorUp(t, n);
    var ns, p, u, g := t.ns, t.ns.parent[n], Uncle(t.ns, n), Grandparent(t.ns, n);
    var t3 := Tree(Recolored(ns, p, u, g), t.root, t.sub, t.bh[g := t.bh[g] + 1]);
    assert p != NIL && NodeColor(ns, p) != Black;
    assert FixedAt(t, n) == FixedAt(t3, g);
  }

  /** Case 4 as the last step of FixedAt: the repair is the two rotations. */
  lemma RotationsThenFixed(t: Tree, n: int)
    requires Fixable(t, n) && t.root != n && 0 <= n < t.ns.Size()
    requires 0 <= t.ns.parent[n] < t.ns.Size() && 0 <= Grandparent(t.ns, n) < t.ns.Size()
    requires NodeColor(t.ns, t.ns.parent[n]) == Red && NodeColor(t.ns, Uncle(t.ns, n)) == Black
    ensures InnerReady(t, n) && OuterReady(InnerRotated(t, n).0, InnerRotated(t, n).1)
    ensures FixedAt(t, n) == OuterRotated(InnerRotated(t, n).0, InnerRotated(t, n).1)
  {
    RotationsRepair(t, n);
  }

  /** fixTreeAt(n): case 1 paints the root black; case 2 (black parent) changes nothing; case 3
      (red uncle) recolours and repairs from the grandparent; case 4 rotates. Whatever the case,
      the result is a sound red-black tree with a black root over the same nodes, keys and
      values. */
  ghost function FixedAt(t: Tree, n: int): (r: Tree)
    requires Fixable(t, n)
    ensures Repaired(t, r)
    decreases Sub(t.sub, t.root) - Sub(t.sub, n)
  {
    assert LinkedAt(t.ns, t.sub, t.root, n);
    var ns, p := t.ns, t.ns.parent[n];
    if p == NIL then
      SoundIgnoresColor(ns, ns.color[n := Black], t.sub, t.root, NIL);
      RootPainted(t, n);
      Tree(ns.(color := ns.color[n := Black]), t.root, t.sub, t.bh)
    else if NodeColor(ns, p) == Black then
      assert LinkedAt(ns, t.sub, t.root, t.root);
      BelowBlack(t, n);
      t
    else
      RecolorUp(t, n);
      var g := Grandparent(ns, n);
      if NodeColor(ns, Uncle(ns, n)) == Red then
        FixedAt(Tree(Recolored(ns, p, Uncle(ns, n), g), t.root, t.sub, t.bh[g := t.bh[g] + 1]), g)
      else
        RotationsRepair(t, n);
        var (t1, m) := InnerRotated(t, n);
        OuterRotated(t1, m)
  }
}
