/** The colour side of the two ends of delete in IntervalTree.java around fixTreeForDeletion: a
    black node d with at most one child first takes its child's colour, which leaves d's side
    one black node short; a red one needs no repair. Once the repair is done, replaceNode takes
    d out, and a child that became the root turns black. */
module DeleteEnds {
  import opened TreeNodes
  import opened BlackHeights
  import opened InsertFixups
  import opened DeleteFixups
  import opened DeleteColors
  import opened Deletions

  /** In a red-black tree a node d with at most one child has no black node below it, and its
      child, if any, is red. */
  lemma LoneChild(ns: Nodes, sub: seq<set<int>>, root: int, bh: seq<nat>, d: int)
    requires Linked(ns, sub, root) && d in Sub(sub, root) && RedBlack(ns, Sub(sub, root), bh, NIL)
    requires 0 <= d < ns.Size() && (ns.left[d] == NIL || ns.right[d] == NIL)
    ensures bh[d] == 0 && Height(ns, bh, Child(ns, d)) == 0
    ensures Child(ns, d) != NIL ==>
      0 <= Child(ns, d) < ns.Size() && ns.color[Child(ns, d)] == Red && bh[Child(ns, d)] == 0
  {
    assert BalancedAt(ns, bh, NIL, d);
    Kin(ns, sub, root, d);
  }

  /** A red d with at most one child has none, so taking it out takes no black node off any
      path: read with d gone, the tree is already red-black, and delete skips the repair. */
  lemma RedLeafGone(ns: Nodes, sub: seq<set<int>>, root: int, bh: seq<nat>, d: int)
    requires Linked(ns, sub, root) && d in Sub(sub, root) && RedBlack(ns, Sub(sub, root), bh, NIL)
    requires 0 <= d < ns.Size() && (ns.left[d] == NIL || ns.right[d] == NIL) && ns.color[d] == Red
    ensures Child(ns, d) == NIL && RedBlack(ns, Sub(sub, root), bh, d)
  {
    LoneChild(ns, sub, root, bh, d);
    assert RedOkAt(ns, NIL, NIL, d);
    forall k | k in Sub(sub, root) && 0 <= k < ns.Size() && k != d
      ensures BalancedAt(ns, bh, d, k) && RedOkAt(ns, d, NIL, k)
    {
      assert BalancedAt(ns, bh, NIL, k) && RedOkAt(ns, NIL, NIL, k);
    }
  }

  /** The colour rules at a live node k other than d and its parent after d, black with at
      most one child, has taken its child's colour c: as they were, d excepted from the red
      rule. */
  lemma RepaintedRulesAt(ns: Nodes, sub: seq<set<int>>, root: int, bh: seq<nat>, d: int, c: Color, k: int)
    requires Linked(ns, sub, root) && RedBlack(ns, Sub(sub, root), bh, NIL)
    requires 0 <= d < ns.Size() && k in Sub(sub, root) && k != d
    ensures 0 <= k < ns.Size()
    ensures k != ns.parent[d] ==> BalancedAt(Painted(ns, d, c), bh, d, k)
    ensures RedOkAt(Painted(ns, d, c), d, d, k)
  {
    Kin(ns, sub, root, k);
    assert BalancedAt(ns, bh, NIL, k) && RedOkAt(ns, NIL, NIL, k);
  }

  /** `n.color = nodeColor(child)` on a black d with at most one child: read with d replaced by
      its child, d's side is now one black node short. */
  lemma RepaintedShort(ns: Nodes, sub: seq<set<int>>, root: int, bh: seq<nat>, d: int)
    requires Linked(ns, sub, root) && d in Sub(sub, root) && RedBlack(ns, Sub(sub, root), bh, NIL)
    requires 0 <= d < ns.Size() && (ns.left[d] == NIL || ns.right[d] == NIL) && ns.color[d] == Black
    ensures ShortBelow(Painted(ns, d, NodeColor(ns, Child(ns, d))), Sub(sub, root), bh, d, d, ns.parent[d])
  {
    var L, c, p := Sub(sub, root), Child(ns, d), ns.parent[d];
    var ns1 := Painted(ns, d, NodeColor(ns, c));
    LoneChild(ns, sub, root, bh, d);
    Kin(ns, sub, root, d);
    forall k | k in L && 0 <= k < ns.Size() && k != d && k != p
      ensures BalancedAt(ns1, bh, d, k)
    {
      RepaintedRulesAt(ns, sub, root, bh, d, NodeColor(ns, c), k);
    }
    forall k | k in L && 0 <= k < ns.Size() && k != d
      ensures RedOkAt(ns1, d, d, k)
    {
      RepaintedRulesAt(ns, sub, root, bh, d, NodeColor(ns, c), k);
    }
    if p != NIL {
      Kin(ns, sub, root, p);
      assert BalancedAt(ns, bh, NIL, p);
    }
  }

  /** The same with the rest of what fixTreeForDeletion needs: it may start at d. */
  lemma StartShort(t: Tree, d: int)
    requires Sound(t.ns, t.sub, t.root, d) && d in Sub(t.sub, t.root) && NodeColor(t.ns, t.root) == Black
    requires RedBlack(t.ns, Sub(t.sub, t.root), t.bh, NIL)
    requires 0 <= d < t.ns.Size() && (t.ns.left[d] == NIL || t.ns.right[d] == NIL) && t.ns.color[d] == Black
    ensures Mendable(Tree(Painted(t.ns, d, NodeColor(t.ns, Child(t.ns, d))), t.root, t.sub, t.bh), d, d)
  {
    var ns := t.ns;
    var ns1 := Painted(ns, d, NodeColor(ns, Child(ns, d)));
    RepaintedShort(ns, t.sub, t.root, t.bh, d);
    assert LinkedAt(ns, t.sub, t.root, d);
    SoundIgnoresColor(ns, ns1.color, t.sub, t.root, d);
    if d != t.root {
      SubNested(ns, t.sub, t.root, t.root, d);
      Kin(ns, t.sub, t.root, t.root);
    }
  }

  /** The colour rules at a node k that stays after replaceNode(d, child): its children are
      those it had with d read as its child. */
  lemma SplicedRulesAt(ns: Nodes, sub: seq<set<int>>, root: int, bh: seq<nat>, d: int, k: int)
    requires Splicable(ns, sub, root, d) && RedBlack(ns, Sub(sub, root), bh, d)
    requires k in Sub(sub, root) && k != d
    ensures SpliceInRange(ns, d)
    ensures var r := Replaced(ns, d, Child(ns, d));
      0 <= k < r.Size() && BalancedAt(r, bh, NIL, k) && RedOkAt(r, NIL, NIL, k)
  {
    Kin(ns, sub, root, d);
    var r := Replaced(ns, d, Child(ns, d));
    Kin(ns, sub, root, k);
    assert BalancedAt(ns, bh, d, k) && RedOkAt(ns, d, NIL, k);
    assert r.left[k] == Stand(ns, d, ns.left[k]) && r.right[k] == Stand(ns, d, ns.right[k]);
  }

  /** replaceNode(d, child) once the repair is done: the tree that was read with d replaced by
      its child now is that tree, red-black with the same black heights. */
  lemma SplicedRedBlack(ns: Nodes, sub: seq<set<int>>, root: int, bh: seq<nat>, d: int)
    requires Splicable(ns, sub, root, d) && RedBlack(ns, Sub(sub, root), bh, d)
    ensures SpliceInRange(ns, d)
    ensures var c := Child(ns, d);
      RedBlack(Replaced(ns, d, c), Sub(Spliced(sub, d), ReplacedRoot(ns, root, d, c)), bh, NIL)
  {
    SpliceNeighbours(ns, sub, root, d);
    var c := Child(ns, d);
    var r, L1 := Replaced(ns, d, c), Sub(Spliced(sub, d), ReplacedRoot(ns, root, d, c));
    forall k | k in L1 && 0 <= k < r.Size()
      ensures BalancedAt(r, bh, NIL, k) && RedOkAt(r, NIL, NIL, k)
    {
      SplicedRulesAt(ns, sub, root, bh, d, k);
    }
  }

  /** `child.color = BLACK` for a child that became the root: painting the root of a red-black
      tree black keeps it red-black. */
  lemma RootBlackened(ns: Nodes, sub: seq<set<int>>, root: int, bh: seq<nat>)
    requires Linked(ns, sub, root) && root in Sub(sub, root) && RedBlack(ns, Sub(sub, root), bh, NIL)
    ensures 0 <= root < ns.Size() && RedBlack(Painted(ns, root, Black), Sub(sub, root), bh, NIL)
  {
    Kin(ns, sub, root, root);
    var ns1 := Painted(ns, root, Black);
    forall k | k in Sub(sub, root) && 0 <= k < ns.Size()
      ensures BalancedAt(ns1, bh, NIL, k) && RedOkAt(ns1, NIL, NIL, k)
    {
      Kin(ns, sub, root, k);
      assert BalancedAt(ns, bh, NIL, k) && RedOkAt(ns, NIL, NIL, k);
    }
  }
}
