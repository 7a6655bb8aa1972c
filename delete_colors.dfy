/** The colour side of fixTreeForDeletion of IntervalTree.java. delete repaints a black node d
    it is about to splice out with the colour of its only child and calls the repair at d;
    from then on the tree, read with d replaced by its child, is a red-black tree except that
    the side of the node n the repair has reached has one black node too few. Each case of the
    repair either moves that deficit up to n's parent or removes it; the proofs here follow the
    black heights through each case, and DeleteFixedAt puts them together. */
module DeleteColors {
  import opened TreeNodes
  import opened LeftRotations
  import opened RightRotations
  import opened BlackHeights
  import opened InsertFixups
  import opened DeleteFixups

  /** The colour rules while the repair stands at n, a child of p (or the root, with p == NIL):
      the black-height rule holds at every live node other than d and p, the red rule holds
      everywhere except for n's own colour, and at p the side of n, as it stands, has one black
      node fewer than bh[p] while the other side has bh[p]. */
  ghost predicate ShortBelow(ns: Nodes, live: set<int>, bh: seq<nat>, d: int, n: int, p: int)
    requires ns.Sized() && |bh| == ns.Size()
  {
    Balanced(ns, live, bh, d, p) && RedsApart(ns, live, d, n) &&
    (p != NIL ==>
       0 <= p < ns.Size() &&
       Height(ns, bh, Stand(ns, d, n)) + 1 == bh[p] &&
       Height(ns, bh, if ns.right[p] == n then ns.left[p] else ns.right[p]) == bh[p])
  }

  /** The colour rules at n in t, below n's parent. */
  ghost predicate Short(t: Tree, n: int, d: int) {
    var short :=
      t.ns.Sized() && |t.bh| == t.ns.Size() && 0 <= n < t.ns.Size() &&
      ShortBelow(t.ns, Sub(t.sub, t.root), t.bh, d, n, t.ns.parent[n]);
    short
  }

  /** fixTreeForDeletion(n) may start: the tree is framed for the repair at n (sound except at
      d, d below n, the root black unless it is n) and n's side is one black node short. */
  ghost predicate Mendable(t: Tree, n: int, d: int) {
    Framed(t, n, d) && Short(t, n, d)
  }

  /** What fixTreeForDeletion promises delete: the tree is settled (sound except at d, a black
      root, the same nodes, keys and values, d's children where they were) and, read with d
      replaced by its child, it is a red-black tree. */
  ghost predicate Mended(t0: Tree, t: Tree, d: int) {
    Settled(t0, t, d) && RedBlack(t.ns, Sub(t.sub, t.root), t.bh, d)
  }

  /** The repair is under way below the root at n: the tree is linked, d lies below n and n's
      side is one black node short. */
  ghost predicate Deficit(t: Tree, n: int, d: int) {
    Linked(t.ns, t.sub, t.root) && n in Sub(t.sub, t.root) && n != t.root && d in Sub(t.sub, n) &&
    Short(t, n, d)
  }

  // ---------------------------------------------------------------------------------------
  // The neighbourhood of n
  // ---------------------------------------------------------------------------------------

  /** A child y of a live node s, and y's children, lie in s's subtree below s. */
  lemma Grandchildren(ns: Nodes, sub: seq<set<int>>, root: int, s: int, y: int)
    requires Linked(ns, sub, root) && s in Sub(sub, root)
    requires y != NIL && (y == ns.left[s] || y == ns.right[s])
    ensures 0 <= y < ns.Size() && y in sub[s] && y != s && ns.left[y] != y && ns.right[y] != y
    ensures ns.left[y] != NIL ==> ns.left[y] in sub[s] && ns.left[y] != s
    ensures ns.right[y] != NIL ==> ns.right[y] in sub[s] && ns.right[y] != s
  {
    assert LinkedAt(ns, sub, root, s);
    assert LinkedAt(ns, sub, root, y);
    var l, r := ns.left[y], ns.right[y];
    if l != NIL {
      assert LinkedAt(ns, sub, root, l);
    }
    if r != NIL {
      assert LinkedAt(ns, sub, root, r);
    }
  }

  /** The nodes around n, which is not the root: its parent p, its sibling s with s's
      children, and p's parent g with g's children are distinct where they exist, and linked
      as a tree demands. */
  lemma Around(ns: Nodes, sub: seq<set<int>>, root: int, n: int)
    requires Linked(ns, sub, root) && n in Sub(sub, root) && n != root
    ensures 0 <= n < ns.Size() && 0 <= ns.parent[n] < ns.Size()
    ensures var p, s := ns.parent[n], Sibling(ns, n);
      var g := ns.parent[p];
      p != n && g != n && (ns.left[p] == n || ns.right[p] == n) && ns.left[p] != ns.right[p] &&
      p in Sub(sub, root) &&
      (g != NIL ==>
         0 <= g < ns.Size() && g in Sub(sub, root) && g != p && (ns.left[g] == p || ns.right[g] == p) &&
         ns.left[g] != ns.right[g] && ns.left[g] != n && ns.right[g] != n) &&
      (s != NIL ==>
         0 <= s < ns.Size() && s in Sub(sub, root) && s != n && s != p && s != g && ns.parent[s] == p &&
         (g != NIL ==> ns.left[g] != s && ns.right[g] != s) &&
         var sn, sf := ns.left[s], ns.right[s];
         (sn != NIL ==>
            0 <= sn < ns.Size() && ns.parent[sn] == s && sn != n && sn != p && sn != s && sn != g &&
            sn != sf && (g != NIL ==> ns.left[g] != sn && ns.right[g] != sn)) &&
         (sf != NIL ==>
            0 <= sf < ns.Size() && ns.parent[sf] == s && sf != n && sf != p && sf != s && sf != g &&
            (g != NIL ==> ns.left[g] != sf && ns.right[g] != sf)))
  {
    TreeNodes.Family(ns, sub, root, n);
    var p, s := ns.parent[n], Sibling(ns, n);
    var g := ns.parent[p];
    assert LinkedAt(ns, sub, root, p);
    if p != root {
      ParentSubProper(ns, sub, root, p);
      assert LinkedAt(ns, sub, root, g);
    }
    if s != NIL {
      Grandchildren(ns, sub, root, p, s);
      assert LinkedAt(ns, sub, root, s);
      var sn, sf := ns.left[s], ns.right[s];
      if sn != NIL {
        Grandchildren(ns, sub, root, s, sn);
        SubNested(ns, sub, root, p, sn);
      }
      if sf != NIL {
        Grandchildren(ns, sub, root, s, sf);
        SubNested(ns, sub, root, p, sf);
      }
    }
  }

  /** x is none of the nodes around n. */
  ghost predicate Clear(ns: Nodes, n: int, x: int)
    requires ns.Sized() && 0 <= n < ns.Size() && 0 <= ns.parent[n] < ns.Size()
  {
    var p, s := ns.parent[n], Sibling(ns, n);
    var g := ns.parent[p];
    x != p && x != g && x != s &&
    (0 <= g < ns.Size() ==> x != ns.left[g] && x != ns.right[g]) &&
    (0 <= s < ns.Size() ==> x != ns.left[s] && x != ns.right[s])
  }

  /** A node in n's subtree is none of the nodes around n. */
  lemma Beneath(ns: Nodes, sub: seq<set<int>>, root: int, n: int, x: int)
    requires Linked(ns, sub, root) && n in Sub(sub, root) && n != root && x in Sub(sub, n)
    ensures 0 <= n < ns.Size() && 0 <= ns.parent[n] < ns.Size() && 0 <= x < ns.Size()
    ensures Clear(ns, n, x)
  {
    TreeNodes.Family(ns, sub, root, n);
    var p, s := ns.parent[n], Sibling(ns, n);
    var g := ns.parent[p];
    SubNested(ns, sub, root, n, x);
    SubNested(ns, sub, root, p, n);
    assert LinkedAt(ns, sub, root, p);
    if p != root {
      ParentSubProper(ns, sub, root, p);
      assert LinkedAt(ns, sub, root, g);
      var u := if ns.right[g] == p then ns.left[g] else ns.right[g];
      if u != NIL {
        assert LinkedAt(ns, sub, root, u);
      }
    }
    if s != NIL {
      assert LinkedAt(ns, sub, root, s);
      var sn, sf := ns.left[s], ns.right[s];
      if sn != NIL {
        assert LinkedAt(ns, sub, root, sn);
        SubNested(ns, sub, root, s, sn);
      }
      if sf != NIL {
        assert LinkedAt(ns, sub, root, sf);
        SubNested(ns, sub, root, s, sf);
      }
    }
  }

  /** The node d the repair works for, and the child that stands in its place, are none of the
      nodes around n. */
  lemma DeepBelow(t: Tree, n: int, d: int)
    requires Linked(t.ns, t.sub, t.root) && n in Sub(t.sub, t.root) && n != t.root && d in Sub(t.sub, n)
    ensures 0 <= n < t.ns.Size() && 0 <= t.ns.parent[n] < t.ns.Size() && 0 <= d < t.ns.Size()
    ensures Clear(t.ns, n, d) && (Child(t.ns, d) != NIL ==> Clear(t.ns, n, Child(t.ns, d)))
    ensures Child(t.ns, d) == NIL || 0 <= Child(t.ns, d) < t.ns.Size()
  {
    var ns := t.ns;
    Beneath(ns, t.sub, t.root, n, d);
    var c := Child(ns, d);
    if c != NIL {
      SubNested(ns, t.sub, t.root, n, d);
      assert LinkedAt(ns, t.sub, t.root, d);
      assert LinkedAt(ns, t.sub, t.root, c);
      Beneath(ns, t.sub, t.root, n, c);
    }
  }

  /** While the repair is under way at n, n has a sibling: the sibling's side has as many black
      nodes as bh[p], one more than n's side, so it cannot be missing. This is why the Java
      code can follow n.sibling() without a null check. */
  lemma SiblingExists(t: Tree, n: int, d: int)
    requires Deficit(t, n, d)
    ensures 0 <= n < t.ns.Size() && 0 <= t.ns.parent[n] < t.ns.Size()
    ensures 0 <= Sibling(t.ns, n) < t.ns.Size()
  {
    Orphan(t.ns, t.sub, t.root, n);
  }

  /** The facts about n, its parent p and its sibling s that every case needs: they are
      distinct and linked, d is none of them nor s's children, the rules hold at p and s as
      far as n's side allows, and n's side, as it stands, is one black node short of s's. */
  ghost predicate SiblingAt(ns: Nodes, bh: seq<nat>, d: int, n: int, p: int, s: int) {
    var at :=
      ns.Sized() && |bh| == ns.Size() &&
      0 <= n < ns.Size() && 0 <= p < ns.Size() && 0 <= s < ns.Size() && 0 <= d < ns.Size() &&
      n != p && s != p && s != n && ns.parent[n] == p && ns.parent[s] == p &&
      n != ns.parent[p] && s != ns.parent[p] &&
      ((ns.left[p] == n && ns.right[p] == s) || (ns.right[p] == n && ns.left[p] == s)) &&
      var sn, sf, cn := ns.left[s], ns.right[s], Stand(ns, d, n);
      sn != p && sn != s && sn != n && sf != p && sf != s && sf != n &&
      (sn == NIL || (0 <= sn < ns.Size() && ns.parent[sn] == s)) &&
      (sf == NIL || (0 <= sf < ns.Size() && ns.parent[sf] == s && sf != sn)) &&
      d != p && d != s && d != sn && d != sf && d != ns.parent[p] &&
      cn != p && cn != s && (cn == NIL || 0 <= cn < ns.Size()) &&
      BalancedAt(ns, bh, d, s) && RedOkAt(ns, d, n, s) && RedOkAt(ns, d, n, p) &&
      Height(ns, bh, cn) + 1 == bh[p] && Height(ns, bh, s) == bh[p];
    at
  }

  /** While the repair is under way at n, the facts about n, p and s hold. */
  lemma SiblingLocal(t: Tree, n: int, d: int)
    requires Deficit(t, n, d)
    ensures 0 <= n < t.ns.Size() && 0 <= t.ns.parent[n] < t.ns.Size() && t.ns.parent[n] in Sub(t.sub, t.root)
    ensures 0 <= Sibling(t.ns, n) < t.ns.Size() && Sibling(t.ns, n) in Sub(t.sub, t.root)
    ensures SiblingAt(t.ns, t.bh, d, n, t.ns.parent[n], Sibling(t.ns, n))
  {
    var ns, bh, p := t.ns, t.bh, t.ns.parent[n];
    SiblingExists(t, n, d);
    var s := Sibling(ns, n);
    Around(ns, t.sub, t.root, n);
    DeepBelow(t, n, d);
    assert BalancedAt(ns, bh, d, s) && RedOkAt(ns, d, n, s) && RedOkAt(ns, d, n, p);
  }

  /** x lies away from n's side: it is neither n, p, s nor p's parent, nor d or the child that
      stands in d's place. */
  ghost predicate Apart(ns: Nodes, n: int, d: int, x: int)
    requires ns.Sized() && 0 <= n < ns.Size() && 0 <= ns.parent[n] < ns.Size() && 0 <= d < ns.Size()
  {
    var p := ns.parent[n];
    x != d && x != n && x != p && x != Sibling(ns, n) && x != ns.parent[p] &&
    (Child(ns, d) == NIL || x != Child(ns, d))
  }

  /** A node below the sibling lies apart from n's side, where d is. */
  lemma Remote(t: Tree, n: int, d: int, x: int)
    requires Linked(t.ns, t.sub, t.root) && n in Sub(t.sub, t.root) && n != t.root && d in Sub(t.sub, n)
    requires 0 <= n < t.ns.Size() && 0 <= t.ns.parent[n] < t.ns.Size() && 0 <= d < t.ns.Size()
    requires 0 <= Sibling(t.ns, n) < t.ns.Size() && x in t.sub[Sibling(t.ns, n)] && x != Sibling(t.ns, n)
    ensures 0 <= x < t.ns.Size() && x in Sub(t.sub, t.root) && Apart(t.ns, n, d, x)
  {
    var ns, sub, root := t.ns, t.sub, t.root;
    var p, s := ns.parent[n], Sibling(ns, n);
    Around(ns, sub, root, n);
    assert LinkedAt(ns, sub, root, p);
    assert LinkedAt(ns, sub, root, n);
    assert LinkedAt(ns, sub, root, s);
    SubNested(ns, sub, root, p, s);
    SubNested(ns, sub, root, s, x);
    SubNested(ns, sub, root, n, d);
    assert LinkedAt(ns, sub, root, d);
    var c := Child(ns, d);
    if c != NIL {
      assert LinkedAt(ns, sub, root, c);
    }
    if p != root {
      ParentSubProper(ns, sub, root, p);
    }
  }

  /** A child y of n's sibling, and y's children, lie apart from n's side. */
  lemma Cousins(t: Tree, n: int, d: int, y: int)
    requires Linked(t.ns, t.sub, t.root) && n in Sub(t.sub, t.root) && n != t.root && d in Sub(t.sub, n)
    requires 0 <= n < t.ns.Size() && 0 <= t.ns.parent[n] < t.ns.Size() && 0 <= d < t.ns.Size()
    requires var s := Sibling(t.ns, n);
      0 <= s < t.ns.Size() && y != NIL && (y == t.ns.left[s] || y == t.ns.right[s])
    ensures var ns, L := t.ns, Sub(t.sub, t.root);
      0 <= y < ns.Size() && y in L && Apart(ns, n, d, y) && ns.left[y] != y && ns.right[y] != y &&
      (ns.left[y] != NIL ==> 0 <= ns.left[y] < ns.Size() && ns.left[y] in L && Apart(ns, n, d, ns.left[y])) &&
      (ns.right[y] != NIL ==> 0 <= ns.right[y] < ns.Size() && ns.right[y] in L && Apart(ns, n, d, ns.right[y]))
  {
    var ns, sub, root := t.ns, t.sub, t.root;
    TreeNodes.Family(ns, sub, root, n);
    Grandchildren(ns, sub, root, Sibling(ns, n), y);
    Remote(t, n, d, y);
    var l, r := ns.left[y], ns.right[y];
    if l != NIL {
      Remote(t, n, d, l);
    }
    if r != NIL {
      Remote(t, n, d, r);
    }
  }

  /** Recolouring changes no pointer, so a node that could be rotated still can. */
  lemma Repainted(ns: Nodes, ns2: Nodes, n: int)
    requires ns.Sized() && ns2 == ns.(color := ns2.color) && |ns2.color| == |ns.color|
    ensures (LeftRotatable(ns, n) ==> LeftRotatable(ns2, n)) && (RightRotatable(ns, n) ==> RightRotatable(ns2, n))
  {
  }

  /** A live node stays ready for either rotation when only colours change. */
  lemma Turnable(t: Tree, p: int, ns2: Nodes)
    requires Linked(t.ns, t.sub, t.root) && p in Sub(t.sub, t.root)
    requires ns2 == t.ns.(color := ns2.color) && |ns2.color| == |t.ns.color|
    ensures 0 <= p < t.ns.Size()
    ensures t.ns.right[p] != NIL ==> LeftRotatable(ns2, p)
    ensures t.ns.left[p] != NIL ==> RightRotatable(ns2, p)
  {
    LeftRotatableLinked(t.ns, t.root, t.sub, p);
    RightRotatableLinked(t.ns, t.root, t.sub, p);
    Repainted(t.ns, ns2, p);
  }

  /** The facts about p's parent gg that the cases which rotate about p need: gg is p's
      parent, none of its children is s, n or d, and the rules hold at gg. */
  ghost predicate GrandAt(ns: Nodes, bh: seq<nat>, d: int, n: int, p: int, s: int, gg: int) {
    var at :=
      ns.Sized() && |bh| == ns.Size() && 0 <= p < ns.Size() && 0 <= gg < ns.Size() &&
      ns.parent[p] == gg && gg != p && gg != s && gg != n &&
      (ns.left[gg] == p || ns.right[gg] == p) && ns.left[gg] != ns.right[gg] &&
      ns.left[gg] != s && ns.right[gg] != s && ns.left[gg] != n && ns.right[gg] != n &&
      ns.left[gg] != d && ns.right[gg] != d &&
      BalancedAt(ns, bh, d, gg) && RedOkAt(ns, d, n, gg);
    at
  }

  /** While the repair is under way at n and n's parent p has a parent gg, the facts about gg
      hold. */
  lemma GrandLocal(t: Tree, n: int, d: int)
    requires Deficit(t, n, d)
    ensures 0 <= n < t.ns.Size() && 0 <= t.ns.parent[n] < t.ns.Size()
    ensures var ns, p := t.ns, t.ns.parent[n];
      ns.parent[p] != NIL ==> GrandAt(ns, t.bh, d, n, p, Sibling(ns, n), ns.parent[p])
  {
    var ns, bh, p := t.ns, t.bh, t.ns.parent[n];
    Around(ns, t.sub, t.root, n);
    var gg := ns.parent[p];
    if gg != NIL {
      DeepBelow(t, n, d);
      assert BalancedAt(ns, bh, d, gg) && RedOkAt(ns, d, n, gg);
    }
  }

  /** A rotation above which gg sits: the slot of gg that held p now holds s, with the colour
      and the black height p had, and nothing else at gg changed; the rules at gg hold as
      before. */
  lemma SlotTaken(ns: Nodes, bh: seq<nat>, ns1: Nodes, bh1: seq<nat>, d: int, e: int, e1: int,
                  gg: int, p: int, s: int)
    requires ns.Sized() && |bh| == ns.Size() && ns1.Sized() && ns1.Size() == ns.Size() && |bh1| == |bh|
    requires 0 <= gg < ns.Size() && 0 <= p < ns.Size() && 0 <= s < ns.Size()
    requires var u := if ns.left[gg] == p then ns.right[gg] else ns.left[gg];
      (ns.left[gg] == p || ns.right[gg] == p) && u != p &&
      (ns.left[gg] == p ==> ns1.left[gg] == s && ns1.right[gg] == u) &&
      (ns.left[gg] != p ==> ns1.right[gg] == s && ns1.left[gg] == u) &&
      (u == NIL || (0 <= u < ns.Size() && ns1.color[u] == ns.color[u] && bh1[u] == bh[u])) &&
      u != d && p != d && s != d && u != e && p != e &&
      ns1.color[gg] == ns.color[gg] && bh1[gg] == bh[gg] &&
      Height(ns1, bh1, s) == Height(ns, bh, p) && NodeColor(ns1, s) == NodeColor(ns, p)
    ensures BalancedAt(ns, bh, d, gg) ==> BalancedAt(ns1, bh1, d, gg)
    ensures RedOkAt(ns, d, e, gg) ==> RedOkAt(ns1, d, e1, gg)
  {
  }

  // ---------------------------------------------------------------------------------------
  // Case 2: a red sibling
  // ---------------------------------------------------------------------------------------

  /** Case 2 with n a left child. */
  ghost predicate LiftLeftCase(t: Tree, n: int, d: int) {
    Deficit(t, n, d) && 0 <= t.ns.parent[n] < t.ns.Size() &&
    n == t.ns.left[t.ns.parent[n]] && NodeColor(t.ns, t.ns.right[t.ns.parent[n]]) == Red
  }

  /** The facts about n, its parent p and its red sibling s that case 2 needs, with n a left
      child. */
  ghost predicate LiftLeftAt(ns: Nodes, bh: seq<nat>, d: int, n: int, p: int, s: int) {
    var at :=
      SiblingAt(ns, bh, d, n, p, s) && ns.left[p] == n && ns.color[s] == Red && ns.color[p] == Black &&
      LeftRotatable(Painted(Painted(ns, p, Red), s, Black), p);
    at
  }

  /** Case 2 at p and s, n a left child: p turns red and s black, and the left rotation about p
      puts s above p; p keeps n, still one black node short, and takes s's black left child. */
  lemma LiftLeftNear(ns: Nodes, bh: seq<nat>, ns1: Nodes, d: int, n: int, p: int, s: int, cn: int)
    requires ns.Sized() && |bh| == ns.Size() && ns1.Sized() && ns1.Size() == ns.Size()
    requires 0 <= n < ns.Size() && 0 <= p < ns.Size() && 0 <= s < ns.Size()
    requires n != p && s != p && s != n && ns.left[p] == n && ns.right[p] == s
    requires var sn, sf := ns.left[s], ns.right[s];
      sn != p && sn != s && sn != n && sf != p && sf != s && sf != n &&
      (sn == NIL || 0 <= sn < ns.Size()) && (sf == NIL || 0 <= sf < ns.Size()) &&
      d != p && d != s && d != sn && d != sf &&
      cn == Stand(ns, d, n) && cn == Stand(ns1, d, n) && cn != p && cn != s &&
      (cn == NIL || 0 <= cn < ns.Size()) &&
      ns1.color == ns.color[p := Red][s := Black] &&
      ns1.left[p] == n && ns1.right[p] == sn && ns1.left[s] == p && ns1.right[s] == sf
    requires ns.color[s] == Red && ns.color[p] == Black && BalancedAt(ns, bh, d, s) && RedOkAt(ns, d, n, s)
    requires Height(ns, bh, cn) + 1 == bh[p] && Height(ns, bh, s) == bh[p]
    ensures var bh1 := TurnedHeights(Painted(Painted(ns, p, Red), s, Black), bh, p, s, ns.left[s]);
      Height(ns1, bh1, s) == Height(ns, bh, p) && BalancedAt(ns1, bh1, d, s) && RedOkAt(ns1, d, n, p) && RedOkAt(ns1, d, n, s) &&
      Height(ns1, bh1, Stand(ns1, d, n)) + 1 == bh1[p] && ns1.left[p] == n &&
      ns1.right[p] != n && Height(ns1, bh1, ns1.right[p]) == bh1[p] &&
      NodeColor(ns1, ns1.right[p]) == Black
  {
  }

  /** Case 2, n a left child: how the recolouring and the rotation about p relink p and s. */
  lemma LiftLeftShape(ns: Nodes, d: int, n: int, p: int, s: int)
    requires ns.Sized() && 0 <= n < ns.Size() && 0 <= p < ns.Size() && 0 <= s < ns.Size() && 0 <= d < ns.Size()
    requires ns.left[p] == n && ns.right[p] == s
    requires d != p && d != s && d != ns.parent[p] && n != p && n != s && n != ns.parent[p]
    requires LeftRotatable(Painted(Painted(ns, p, Red), s, Black), p)
    ensures var ns1 := LeftRotated(Painted(Painted(ns, p, Red), s, Black), p);
      ns1.color == ns.color[p := Red][s := Black] &&
      ns1.left[p] == n && ns1.right[p] == ns.left[s] && ns1.left[s] == p && ns1.right[s] == ns.right[s] &&
      Stand(ns1, d, n) == Stand(ns, d, n)
  {
    var ns2 := Painted(Painted(ns, p, Red), s, Black);
    LeftRotatedAround(ns2, p);
    LeftRotatedAway(ns2, p, d);
    LeftRotatedAway(ns2, p, n);
  }

  /** Case 2 at p and s, n a left child, from the facts it needs. */
  lemma LiftLeftAbove(ns: Nodes, bh: seq<nat>, d: int, n: int, p: int, s: int)
    requires LiftLeftAt(ns, bh, d, n, p, s)
    ensures var ns2 := Painted(Painted(ns, p, Red), s, Black);
      var ns1, bh1 := LeftRotated(ns2, p), LeftRotatedHeights(ns2, bh, p);
      Height(ns1, bh1, s) == Height(ns, bh, p) && BalancedAt(ns1, bh1, d, s) && RedOkAt(ns1, d, n, p) && RedOkAt(ns1, d, n, s) &&
      Height(ns1, bh1, Stand(ns1, d, n)) + 1 == bh1[p] && ns1.left[p] == n &&
      ns1.right[p] != n && Height(ns1, bh1, ns1.right[p]) == bh1[p] &&
      NodeColor(ns1, ns1.right[p]) == Black
  {
    var ns2 := Painted(Painted(ns, p, Red), s, Black);
    LiftLeftShape(ns, d, n, p, s);
    LiftLeftNear(ns, bh, LeftRotated(ns2, p), d, n, p, s, Stand(ns, d, n));
  }

  /** Case 2 at p's parent gg, n a left child: the slot that held the black p now holds s, black
      with as many black nodes below it, so the rules at gg hold as before. */
  lemma LiftLeftTop(ns: Nodes, bh: seq<nat>, d: int, n: int, p: int, s: int, gg: int)
    requires GrandAt(ns, bh, d, n, p, s, gg)
    requires 0 <= s < ns.Size() && ns.right[p] == s && ns.color[p] == Black && d != p && d != s && n != p
    requires LeftRotatable(Painted(Painted(ns, p, Red), s, Black), p)
    requires var ns2 := Painted(Painted(ns, p, Red), s, Black);
      Height(LeftRotated(ns2, p), LeftRotatedHeights(ns2, bh, p), s) == Height(ns, bh, p)
    ensures var ns2 := Painted(Painted(ns, p, Red), s, Black);
      var ns1, bh1 := LeftRotated(ns2, p), LeftRotatedHeights(ns2, bh, p);
      BalancedAt(ns1, bh1, d, gg) && RedOkAt(ns1, d, n, gg)
  {
    var ns2 := Painted(Painted(ns, p, Red), s, Black);
    LeftRotatedAround(ns2, p);
    SlotTaken(ns, bh, LeftRotated(ns2, p), LeftRotatedHeights(ns2, bh, p), d, n, n, gg, p, s);
  }

  /** Case 2 at a node k other than p, s and p's parent, n a left child: recolouring p and s
      and rotating p left keeps the rules at k. */
  lemma LiftLeftKept(ns: Nodes, bh: seq<nat>, d: int, n: int, p: int, s: int, k: int)
    requires ns.Sized() && |bh| == ns.Size() && 0 <= p < ns.Size() && 0 <= s < ns.Size()
    requires LeftRotatable(Painted(Painted(ns, p, Red), s, Black), p) && ns.right[p] == s
    requires ns.parent[s] == p && 0 <= n < ns.Size() && ns.parent[n] == p && p != s
    requires 0 <= k < ns.Size() && k != p && k != s && k != ns.parent[p] && k != d
    requires ns.left[k] == NIL || (0 <= ns.left[k] < ns.Size() && ns.parent[ns.left[k]] == k)
    requires ns.right[k] == NIL || (0 <= ns.right[k] < ns.Size() && ns.parent[ns.right[k]] == k)
    requires 0 <= d < ns.Size() && d != p && d != s && d != ns.parent[p]
    requires Child(ns, d) != p && Child(ns, d) != s
    ensures var ns2 := Painted(Painted(ns, p, Red), s, Black);
      var ns1, bh1 := LeftRotated(ns2, p), LeftRotatedHeights(ns2, bh, p);
      (BalancedAt(ns, bh, d, k) ==> BalancedAt(ns1, bh1, d, k)) &&
      (RedOkAt(ns, d, n, k) ==> RedOkAt(ns1, d, n, k))
  {
    var ns2 := Painted(Painted(ns, p, Red), s, Black);
    LeftRotatedAround(ns2, p);
    LeftRotatedAway(ns2, p, k);
    LeftRotatedAway(ns2, p, d);
    var ns1, bh1 := LeftRotated(ns2, p), LeftRotatedHeights(ns2, bh, p);
    assert ns1.color == ns.color[p := Red][s := Black];
    assert forall x | 0 <= x < ns.Size() && x !in {p, s} :: ns1.color[x] == ns.color[x] && bh1[x] == bh[x];
    RulesKept(ns, bh, ns1, bh1, {p, s}, d, n, n, k);
  }

  /** Case 2 away from p, s and p's parent, n a left child: the rules hold at k as before. */
  lemma LiftLeftFar(t: Tree, n: int, d: int, k: int)
    requires LiftLeftCase(t, n, d) && k in Sub(t.sub, t.root) && k != d
    requires k != t.ns.parent[n] && k != t.ns.right[t.ns.parent[n]] && k != t.ns.parent[t.ns.parent[n]]
    ensures var ns, p := t.ns, t.ns.parent[n];
      var ns2 := Painted(Painted(ns, p, Red), ns.right[p], Black);
      LeftRotatable(ns2, p) &&
      var ns1, bh1 := LeftRotated(ns2, p), LeftRotatedHeights(ns2, t.bh, p);
      0 <= k < ns.Size() && BalancedAt(ns1, bh1, d, k) && RedOkAt(ns1, d, n, k)
  {
    var ns, bh, p := t.ns, t.bh, t.ns.parent[n];
    var s := ns.right[p];
    Around(ns, t.sub, t.root, n);
    DeepBelow(t, n, d);
    Kin(ns, t.sub, t.root, k);
    LeftRotatableLinked(ns, t.root, t.sub, p);
    assert LeftRotatable(Painted(Painted(ns, p, Red), s, Black), p);
    assert BalancedAt(ns, bh, d, k) && RedOkAt(ns, d, n, k);
    LiftLeftKept(ns, bh, d, n, p, s, k);
  }

  /** Case 2 with n a left child: the facts it needs about n, p and s hold. */
  lemma LiftLeftLocal(t: Tree, n: int, d: int)
    requires LiftLeftCase(t, n, d)
    ensures var ns, p := t.ns, t.ns.parent[n];
      LiftLeftAt(ns, t.bh, d, n, p, ns.right[p])
  {
    var ns, p := t.ns, t.ns.parent[n];
    SiblingLocal(t, n, d);
    LeftRotatableLinked(ns, t.root, t.sub, p);
    Repainted(ns, Painted(Painted(ns, p, Red), ns.right[p], Black), p);
  }

  /** Case 2 with n a left child: after the recolouring and the rotation about p, n's side is
      still one black node short below p, and n's new sibling is black. */
  lemma LiftLeftShort(t: Tree, n: int, d: int)
    requires LiftLeftCase(t, n, d)
    ensures var ns, p := t.ns, t.ns.parent[n];
      var ns2 := Painted(Painted(ns, p, Red), ns.right[p], Black);
      LeftRotatable(ns2, p) &&
      var ns1, bh1 := LeftRotated(ns2, p), LeftRotatedHeights(ns2, t.bh, p);
      ShortBelow(ns1, Sub(t.sub, t.root), bh1, d, n, p) && NodeColor(ns1, ns1.right[p]) == Black
  {
    var ns, p := t.ns, t.ns.parent[n];
    LiftLeftLocal(t, n, d);
    LiftLeftAbove(ns, t.bh, d, n, p, ns.right[p]);
    LiftLeftRest(t, n, d);
  }

  /** Case 2 with n a left child, everywhere but at p: the rules hold, with n's colour
      excepted. */
  lemma LiftLeftRest(t: Tree, n: int, d: int)
    requires LiftLeftCase(t, n, d)
    ensures var ns, p := t.ns, t.ns.parent[n];
      var ns2 := Painted(Painted(ns, p, Red), ns.right[p], Black);
      LeftRotatable(ns2, p) &&
      var ns1, bh1 := LeftRotated(ns2, p), LeftRotatedHeights(ns2, t.bh, p);
      Balanced(ns1, Sub(t.sub, t.root), bh1, d, p) && RedsApart(ns1, Sub(t.sub, t.root), d, n)
  {
    var ns, L, p := t.ns, Sub(t.sub, t.root), t.ns.parent[n];
    var s, gg := ns.right[p], ns.parent[p];
    LiftLeftLocal(t, n, d);
    LiftLeftAbove(ns, t.bh, d, n, p, s);
    GrandLocal(t, n, d);
    if gg != NIL {
      LiftLeftTop(ns, t.bh, d, n, p, s, gg);
    }
    var ns2 := Painted(Painted(ns, p, Red), s, Black);
    var ns1, bh1 := LeftRotated(ns2, p), LeftRotatedHeights(ns2, t.bh, p);
    forall k | k in L && 0 <= k < ns.Size() && k != d
      ensures (k != p ==> BalancedAt(ns1, bh1, d, k)) && RedOkAt(ns1, d, n, k)
    {
      if k != p && k != s && k != gg {
        LiftLeftFar(t, n, d, k);
      }
    }
  }

  /** Case 2 with n a right child. */
  ghost predicate LiftRightCase(t: Tree, n: int, d: int) {
    Deficit(t, n, d) && 0 <= t.ns.parent[n] < t.ns.Size() &&
    n == t.ns.right[t.ns.parent[n]] && NodeColor(t.ns, t.ns.left[t.ns.parent[n]]) == Red
  }

  /** The facts about n, its parent p and its red sibling s that case 2 needs, with n a right
      child. */
  ghost predicate LiftRightAt(ns: Nodes, bh: seq<nat>, d: int, n: int, p: int, s: int) {
    var at :=
      SiblingAt(ns, bh, d, n, p, s) && ns.right[p] == n && ns.color[s] == Red && ns.color[p] == Black &&
      RightRotatable(Painted(Painted(ns, p, Red), s, Black), p);
    at
  }

  /** Case 2 at p and s, n a right child: p turns red and s black, and the right rotation about p
      puts s above p; p keeps n, still one black node short, and takes s's black right child. */
  lemma LiftRightNear(ns: Nodes, bh: seq<nat>, ns1: Nodes, d: int, n: int, p: int, s: int, cn: int)
    requires ns.Sized() && |bh| == ns.Size() && ns1.Sized() && ns1.Size() == ns.Size()
    requires 0 <= n < ns.Size() && 0 <= p < ns.Size() && 0 <= s < ns.Size()
    requires n != p && s != p && s != n && ns.right[p] == n && ns.left[p] == s
    requires var sn, sf := ns.right[s], ns.left[s];
      sn != p && sn != s && sn != n && sf != p && sf != s && sf != n &&
      (sn == NIL || 0 <= sn < ns.Size()) && (sf == NIL || 0 <= sf < ns.Size()) &&
      d != p && d != s && d != sn && d != sf &&
      cn == Stand(ns, d, n) && cn == Stand(ns1, d, n) && cn != p && cn != s &&
      (cn == NIL || 0 <= cn < ns.Size()) &&
      ns1.color == ns.color[p := Red][s := Black] &&
      ns1.right[p] == n && ns1.left[p] == sn && ns1.right[s] == p && ns1.left[s] == sf
    requires ns.color[s] == Red && ns.color[p] == Black && BalancedAt(ns, bh, d, s) && RedOkAt(ns, d, n, s)
    requires Height(ns, bh, cn) + 1 == bh[p] && Height(ns, bh, s) == bh[p]
    ensures var bh1 := TurnedHeights(Painted(Painted(ns, p, Red), s, Black), bh, p, s, ns.right[s]);
      Height(ns1, bh1, s) == Height(ns, bh, p) && BalancedAt(ns1, bh1, d, s) && RedOkAt(ns1, d, n, p) && RedOkAt(ns1, d, n, s) &&
      Height(ns1, bh1, Stand(ns1, d, n)) + 1 == bh1[p] && ns1.right[p] == n &&
      ns1.left[p] != n && Height(ns1, bh1, ns1.left[p]) == bh1[p] &&
      NodeColor(ns1, ns1.left[p]) == Black
  {
  }

  /** Case 2, n a right child: how the recolouring and the rotation about p relink p and s. */
  lemma LiftRightShape(ns: Nodes, d: int, n: int, p: int, s: int)
    requires ns.Sized() && 0 <= n < ns.Size() && 0 <= p < ns.Size() && 0 <= s < ns.Size() && 0 <= d < ns.Size()
    requires ns.right[p] == n && ns.left[p] == s
    requires d != p && d != s && d != ns.parent[p] && n != p && n != s && n != ns.parent[p]
    requires RightRotatable(Painted(Painted(ns, p, Red), s, Black), p)
    ensures var ns1 := RightRotated(Painted(Painted(ns, p, Red), s, Black), p);
      ns1.color == ns.color[p := Red][s := Black] &&
      ns1.right[p] == n && ns1.left[p] == ns.right[s] && ns1.right[s] == p && ns1.left[s] == ns.left[s] &&
      Stand(ns1, d, n) == Stand(ns, d, n)
  {
    var ns2 := Painted(Painted(ns, p, Red), s, Black);
    RightRotatedAround(ns2, p);
    RightRotatedAway(ns2, p, d);
    RightRotatedAway(ns2, p, n);
  }

  /** Case 2 at p and s, n a right child, from the facts it needs. */
  lemma LiftRightAbove(ns: Nodes, bh: seq<nat>, d: int, n: int, p: int, s: int)
    requires LiftRightAt(ns, bh, d, n, p, s)
    ensures var ns2 := Painted(Painted(ns, p, Red), s, Black);
      var ns1, bh1 := RightRotated(ns2, p), RightRotatedHeights(ns2, bh, p);
      Height(ns1, bh1, s) == Height(ns, bh, p) && BalancedAt(ns1, bh1, d, s) && RedOkAt(ns1, d, n, p) && RedOkAt(ns1, d, n, s) &&
      Height(ns1, bh1, Stand(ns1, d, n)) + 1 == bh1[p] && ns1.right[p] == n &&
      ns1.left[p] != n && Height(ns1, bh1, ns1.left[p]) == bh1[p] &&
      NodeColor(ns1, ns1.left[p]) == Black
  {
    var ns2 := Painted(Painted(ns, p, Red), s, Black);
    LiftRightShape(ns, d, n, p, s);
    LiftRightNear(ns, bh, RightRotated(ns2, p), d, n, p, s, Stand(ns, d, n));
  }

  /** Case 2 at p's parent gg, n a right child: the slot that held the black p now holds s, black
      with as many black nodes below it, so the rules at gg hold as before. */
  lemma LiftRightTop(ns: Nodes, bh: seq<nat>, d: int, n: int, p: int, s: int, gg: int)
    requires GrandAt(ns, bh, d, n, p, s, gg)
    requires 0 <= s < ns.Size() && ns.left[p] == s && ns.color[p] == Black && d != p && d != s && n != p
    requires RightRotatable(Painted(Painted(ns, p, Red), s, Black), p)
    requires var ns2 := Painted(Painted(ns, p, Red), s, Black);
      Height(RightRotated(ns2, p), RightRotatedHeights(ns2, bh, p), s) == Height(ns, bh, p)
    ensures var ns2 := Painted(Painted(ns, p, Red), s, Black);
      var ns1, bh1 := RightRotated(ns2, p), RightRotatedHeights(ns2, bh, p);
      BalancedAt(ns1, bh1, d, gg) && RedOkAt(ns1, d, n, gg)
  {
    var ns2 := Painted(Painted(ns, p, Red), s, Black);
    RightRotatedAround(ns2, p);
    SlotTaken(ns, bh, RightRotated(ns2, p), RightRotatedHeights(ns2, bh, p), d, n, n, gg, p, s);
  }

  /** Case 2 at a node k other than p, s and p's parent, n a right child: recolouring p and s
      and rotating p right keeps the rules at k. */
  lemma LiftRightKept(ns: Nodes, bh: seq<nat>, d: int, n: int, p: int, s: int, k: int)
    requires ns.Sized() && |bh| == ns.Size() && 0 <= p < ns.Size() && 0 <= s < ns.Size()
    requires RightRotatable(Painted(Painted(ns, p, Red), s, Black), p) && ns.left[p] == s
    requires ns.parent[s] == p && 0 <= n < ns.Size() && ns.parent[n] == p && p != s
    requires 0 <= k < ns.Size() && k != p && k != s && k != ns.parent[p] && k != d
    requires ns.right[k] == NIL || (0 <= ns.right[k] < ns.Size() && ns.parent[ns.right[k]] == k)
    requires ns.left[k] == NIL || (0 <= ns.left[k] < ns.Size() && ns.parent[ns.left[k]] == k)
    requires 0 <= d < ns.Size() && d != p && d != s && d != ns.parent[p]
    requires Child(ns, d) != p && Child(ns, d) != s
    ensures var ns2 := Painted(Painted(ns, p, Red), s, Black);
      var ns1, bh1 := RightRotated(ns2, p), RightRotatedHeights(ns2, bh, p);
      (BalancedAt(ns, bh, d, k) ==> BalancedAt(ns1, bh1, d, k)) &&
      (RedOkAt(ns, d, n, k) ==> RedOkAt(ns1, d, n, k))
  {
    var ns2 := Painted(Painted(ns, p, Red), s, Black);
    RightRotatedAround(ns2, p);
    RightRotatedAway(ns2, p, k);
    RightRotatedAway(ns2, p, d);
    var ns1, bh1 := RightRotated(ns2, p), RightRotatedHeights(ns2, bh, p);
    assert ns1.color == ns.color[p := Red][s := Black];
    assert forall x | 0 <= x < ns.Size() && x !in {p, s} :: ns1.color[x] == ns.color[x] && bh1[x] == bh[x];
    RulesKept(ns, bh, ns1, bh1, {p, s}, d, n, n, k);
  }

  /** Case 2 away from p, s and p's parent, n a right child: the rules hold at k as before. */
  lemma LiftRightFar(t: Tree, n: int, d: int, k: int)
    requires LiftRightCase(t, n, d) && k in Sub(t.sub, t.root) && k != d
    requires k != t.ns.parent[n] && k != t.ns.left[t.ns.parent[n]] && k != t.ns.parent[t.ns.parent[n]]
    ensures var ns, p := t.ns, t.ns.parent[n];
      var ns2 := Painted(Painted(ns, p, Red), ns.left[p], Black);
      RightRotatable(ns2, p) &&
      var ns1, bh1 := RightRotated(ns2, p), RightRotatedHeights(ns2, t.bh, p);
      0 <= k < ns.Size() && BalancedAt(ns1, bh1, d, k) && RedOkAt(ns1, d, n, k)
  {
    var ns, bh, p := t.ns, t.bh, t.ns.parent[n];
    var s := ns.left[p];
    Around(ns, t.sub, t.root, n);
    DeepBelow(t, n, d);
    Kin(ns, t.sub, t.root, k);
    RightRotatableLinked(ns, t.root, t.sub, p);
    assert RightRotatable(Painted(Painted(ns, p, Red), s, Black), p);
    assert BalancedAt(ns, bh, d, k) && RedOkAt(ns, d, n, k);
    LiftRightKept(ns, bh, d, n, p, s, k);
  }

  /** Case 2 with n a right child: the facts it needs about n, p and s hold. */
  lemma LiftRightLocal(t: Tree, n: int, d: int)
    requires LiftRightCase(t, n, d)
    ensures var ns, p := t.ns, t.ns.parent[n];
      LiftRightAt(ns, t.bh, d, n, p, ns.left[p])
  {
    var ns, p := t.ns, t.ns.parent[n];
    SiblingLocal(t, n, d);
    RightRotatableLinked(ns, t.root, t.sub, p);
    Repainted(ns, Painted(Painted(ns, p, Red), ns.left[p], Black), p);
  }

  /** Case 2 with n a right child: after the recolouring and the rotation about p, n's side is
      still one black node short below p, and n's new sibling is black. */
  lemma LiftRightShort(t: Tree, n: int, d: int)
    requires LiftRightCase(t, n, d)
    ensures var ns, p := t.ns, t.ns.parent[n];
      var ns2 := Painted(Painted(ns, p, Red), ns.left[p], Black);
      RightRotatable(ns2, p) &&
      var ns1, bh1 := RightRotated(ns2, p), RightRotatedHeights(ns2, t.bh, p);
      ShortBelow(ns1, Sub(t.sub, t.root), bh1, d, n, p) && NodeColor(ns1, ns1.left[p]) == Black
  {
    var ns, p := t.ns, t.ns.parent[n];
    LiftRightLocal(t, n, d);
    LiftRightAbove(ns, t.bh, d, n, p, ns.left[p]);
    LiftRightRest(t, n, d);
  }

  /** Case 2 with n a right child, everywhere but at p: the rules hold, with n's colour
      excepted. */
  lemma LiftRightRest(t: Tree, n: int, d: int)
    requires LiftRightCase(t, n, d)
    ensures var ns, p := t.ns, t.ns.parent[n];
      var ns2 := Painted(Painted(ns, p, Red), ns.left[p], Black);
      RightRotatable(ns2, p) &&
      var ns1, bh1 := RightRotated(ns2, p), RightRotatedHeights(ns2, t.bh, p);
      Balanced(ns1, Sub(t.sub, t.root), bh1, d, p) && RedsApart(ns1, Sub(t.sub, t.root), d, n)
  {
    var ns, L, p := t.ns, Sub(t.sub, t.root), t.ns.parent[n];
    var s, gg := ns.left[p], ns.parent[p];
    LiftRightLocal(t, n, d);
    LiftRightAbove(ns, t.bh, d, n, p, s);
    GrandLocal(t, n, d);
    if gg != NIL {
      LiftRightTop(ns, t.bh, d, n, p, s, gg);
    }
    var ns2 := Painted(Painted(ns, p, Red), s, Black);
    var ns1, bh1 := RightRotated(ns2, p), RightRotatedHeights(ns2, t.bh, p);
    forall k | k in L && 0 <= k < ns.Size() && k != d
      ensures (k != p ==> BalancedAt(ns1, bh1, d, k)) && RedOkAt(ns1, d, n, k)
    {
      if k != p && k != s && k != gg {
        LiftRightFar(t, n, d, k);
      }
    }
  }

  // ---------------------------------------------------------------------------------------
  // Cases 3 and 4: a black sibling with black children
  // ---------------------------------------------------------------------------------------

  /** bh with one black node fewer below p. */
  function Lowered(bh: seq<nat>, p: int): (r: seq<nat>)
    requires 0 <= p < |bh| && bh[p] >= 1
    ensures |r| == |bh| && r[p] + 1 == bh[p] && forall i | 0 <= i < |bh| && i != p :: r[i] == bh[i]
  {
    bh[p := bh[p] - 1]
  }

  /** Cases 3 and 4: n's sibling and both its children are black. */
  ghost predicate ClimbCase(t: Tree, n: int, d: int) {
    Deficit(t, n, d) && 0 <= t.ns.parent[n] < t.ns.Size() &&
    var s := Sibling(t.ns, n);
    0 <= s < t.ns.Size() && t.ns.color[s] == Black &&
    NodeColor(t.ns, t.ns.left[s]) == Black && NodeColor(t.ns, t.ns.right[s]) == Black
  }

  /** The facts about n, its parent p and its black sibling s that cases 3 and 4 need. */
  ghost predicate ClimbAt(ns: Nodes, bh: seq<nat>, d: int, n: int, p: int, s: int) {
    var at :=
      SiblingAt(ns, bh, d, n, p, s) &&
      ns.color[s] == Black && NodeColor(ns, ns.left[s]) == Black && NodeColor(ns, ns.right[s]) == Black;
    at
  }

  /** Cases 3 and 4: the facts they need about n, p and s hold. */
  lemma ClimbLocal(t: Tree, n: int, d: int)
    requires ClimbCase(t, n, d)
    ensures var ns, p := t.ns, t.ns.parent[n];
      ClimbAt(ns, t.bh, d, n, p, Sibling(ns, n))
  {
    SiblingLocal(t, n, d);
  }

  /** Case 3 at p and s: with s red, both sides of the black p have one black node fewer, as
      many as the side of n had; p itself is now one black node short. */
  lemma ClimbNear(ns: Nodes, bh: seq<nat>, d: int, n: int, p: int, s: int)
    requires ClimbAt(ns, bh, d, n, p, s) && ns.color[p] == Black
    ensures bh[p] >= 1
    ensures var ns3, bh3 := Painted(ns, s, Red), Lowered(bh, p);
      BalancedAt(ns3, bh3, d, p) && BalancedAt(ns3, bh3, d, s) &&
      RedOkAt(ns3, d, p, p) && RedOkAt(ns3, d, p, s)
  {
  }

  /** Case 3 at p's parent gg: the side of p now has one black node fewer than bh[gg], and the
      other side is untouched. */
  lemma ClimbTop(ns: Nodes, bh: seq<nat>, d: int, n: int, p: int, s: int, gg: int)
    requires ClimbAt(ns, bh, d, n, p, s) && ns.color[p] == Black
    requires 0 <= gg < ns.Size() && ns.parent[p] == gg && gg != p && gg != s && gg != n
    requires (ns.left[gg] == p || ns.right[gg] == p) && ns.left[gg] != ns.right[gg]
    requires ns.left[gg] != s && ns.right[gg] != s && ns.left[gg] != n && ns.right[gg] != n
    requires ns.left[gg] != d && ns.right[gg] != d
    requires BalancedAt(ns, bh, d, gg) && RedOkAt(ns, d, n, gg)
    ensures bh[p] >= 1
    ensures var ns3, bh3 := Painted(ns, s, Red), Lowered(bh, p);
      RedOkAt(ns3, d, p, gg) && Height(ns3, bh3, Stand(ns3, d, p)) + 1 == bh3[gg] &&
      Height(ns3, bh3, if ns3.right[gg] == p then ns3.left[gg] else ns3.right[gg]) == bh3[gg]
  {
  }

  /** Cases 3 and 4 at a node k other than p, s and p's parent: the rules hold at k as before,
      with the red exception passed from n to p. */
  lemma ClimbKept(ns: Nodes, bh: seq<nat>, ns1: Nodes, bh1: seq<nat>, d: int, n: int, p: int, s: int,
                  e: int, k: int)
    requires ns.Sized() && |bh| == ns.Size() && 0 <= p < ns.Size() && 0 <= s < ns.Size()
    requires ns1 == ns.(color := ns1.color) && |ns1.color| == |ns.color| && |bh1| == |bh|
    requires forall x | 0 <= x < ns.Size() && x != p && x != s :: ns1.color[x] == ns.color[x] && bh1[x] == bh[x]
    requires ns.parent[s] == p && 0 <= n < ns.Size() && ns.parent[n] == p && (e == p || e == NIL)
    requires 0 <= k < ns.Size() && k != p && k != s && k != ns.parent[p] && k != d
    requires ns.left[k] == NIL || (0 <= ns.left[k] < ns.Size() && ns.parent[ns.left[k]] == k)
    requires ns.right[k] == NIL || (0 <= ns.right[k] < ns.Size() && ns.parent[ns.right[k]] == k)
    requires 0 <= d < ns.Size() && Child(ns, d) != p && Child(ns, d) != s
    ensures (BalancedAt(ns, bh, d, k) ==> BalancedAt(ns1, bh1, d, k)) &&
      (RedOkAt(ns, d, n, k) ==> RedOkAt(ns1, d, e, k))
  {
    RulesKept(ns, bh, ns1, bh1, {p, s}, d, n, e, k);
  }

  /** Cases 3 and 4 away from p, s and p's parent. */
  lemma ClimbFar(t: Tree, n: int, d: int, ns1: Nodes, bh1: seq<nat>, e: int, k: int)
    requires ClimbCase(t, n, d) && k in Sub(t.sub, t.root) && k != d
    requires var ns, p := t.ns, t.ns.parent[n];
      k != p && k != Sibling(ns, n) && k != ns.parent[p] && (e == p || e == NIL) &&
      ns1 == ns.(color := ns1.color) && |ns1.color| == |ns.color| && |bh1| == |t.bh| &&
      forall x | 0 <= x < ns.Size() && x != p && x != Sibling(ns, n) ::
        ns1.color[x] == ns.color[x] && bh1[x] == t.bh[x]
    ensures 0 <= k < t.ns.Size() && BalancedAt(ns1, bh1, d, k) && RedOkAt(ns1, d, e, k)
  {
    var ns, bh, p := t.ns, t.bh, t.ns.parent[n];
    Around(ns, t.sub, t.root, n);
    DeepBelow(t, n, d);
    Kin(ns, t.sub, t.root, k);
    assert BalancedAt(ns, bh, d, k) && RedOkAt(ns, d, n, k);
    ClimbKept(ns, bh, ns1, bh1, d, n, p, Sibling(ns, n), e, k);
  }

  /** Case 3 at p's parent, if any. */
  lemma ClimbUp(t: Tree, n: int, d: int)
    requires ClimbCase(t, n, d) && NodeColor(t.ns, t.ns.parent[n]) == Black
    requires t.ns.parent[t.ns.parent[n]] != NIL
    ensures var ns, p := t.ns, t.ns.parent[n];
      var gg := ns.parent[p];
      0 <= gg < ns.Size() && t.bh[p] >= 1 &&
      var ns3, bh3 := Painted(ns, Sibling(ns, n), Red), Lowered(t.bh, p);
      RedOkAt(ns3, d, p, gg) && Height(ns3, bh3, Stand(ns3, d, p)) + 1 == bh3[gg] &&
      Height(ns3, bh3, if ns3.right[gg] == p then ns3.left[gg] else ns3.right[gg]) == bh3[gg]
  {
    var ns, bh, p := t.ns, t.bh, t.ns.parent[n];
    var s, gg := Sibling(ns, n), ns.parent[p];
    ClimbLocal(t, n, d);
    Around(ns, t.sub, t.root, n);
    DeepBelow(t, n, d);
    assert BalancedAt(ns, bh, d, gg) && RedOkAt(ns, d, n, gg);
    ClimbTop(ns, bh, d, n, p, s, gg);
  }

  /** Case 3: with the sibling painted red, the deficit moves up to p: p's side is one black
      node short below p's parent. */
  lemma ClimbShort(t: Tree, n: int, d: int)
    requires ClimbCase(t, n, d) && NodeColor(t.ns, t.ns.parent[n]) == Black
    ensures var ns, p := t.ns, t.ns.parent[n];
      t.bh[p] >= 1 &&
      ShortBelow(Painted(ns, Sibling(ns, n), Red), Sub(t.sub, t.root), Lowered(t.bh, p), d, p, ns.parent[p])
  {
    var ns, L, p := t.ns, Sub(t.sub, t.root), t.ns.parent[n];
    var s, gg := Sibling(ns, n), ns.parent[p];
    ClimbLocal(t, n, d);
    ClimbNear(ns, t.bh, d, n, p, s);
    if gg != NIL {
      ClimbUp(t, n, d);
    }
    var ns3, bh3 := Painted(ns, s, Red), Lowered(t.bh, p);
    forall k | k in L && 0 <= k < ns.Size() && k != d
      ensures (k != gg ==> BalancedAt(ns3, bh3, d, k)) && RedOkAt(ns3, d, p, k)
    {
      if k != p && k != s && k != gg {
        ClimbFar(t, n, d, ns3, bh3, p, k);
      }
    }
  }

  /** Case 4 at p and s: p turns black and s red, and both sides of p have one black node
      fewer, as many as the side of n had. */
  lemma RecolorNear(ns: Nodes, bh: seq<nat>, d: int, n: int, p: int, s: int)
    requires ClimbAt(ns, bh, d, n, p, s) && ns.color[p] == Red
    ensures bh[p] >= 1
    ensures var ns4, bh4 := Painted(Painted(ns, s, Red), p, Black), Lowered(bh, p);
      BalancedAt(ns4, bh4, d, p) && BalancedAt(ns4, bh4, d, s) &&
      RedOkAt(ns4, d, NIL, p) && RedOkAt(ns4, d, NIL, s)
  {
  }

  /** Case 4 at p's parent gg: the side of p, now black, has as many black nodes as before. */
  lemma RecolorTop(ns: Nodes, bh: seq<nat>, d: int, n: int, p: int, s: int, gg: int)
    requires ClimbAt(ns, bh, d, n, p, s) && ns.color[p] == Red
    requires 0 <= gg < ns.Size() && ns.parent[p] == gg && gg != p && gg != s && gg != n
    requires (ns.left[gg] == p || ns.right[gg] == p) && ns.left[gg] != ns.right[gg]
    requires ns.left[gg] != s && ns.right[gg] != s && ns.left[gg] != n && ns.right[gg] != n
    requires ns.left[gg] != d && ns.right[gg] != d
    requires BalancedAt(ns, bh, d, gg) && RedOkAt(ns, d, n, gg)
    ensures bh[p] >= 1
    ensures var ns4, bh4 := Painted(Painted(ns, s, Red), p, Black), Lowered(bh, p);
      BalancedAt(ns4, bh4, d, gg) && RedOkAt(ns4, d, NIL, gg)
  {
  }

  /** Case 4 at p's parent, if any. */
  lemma RecolorUpper(t: Tree, n: int, d: int)
    requires ClimbCase(t, n, d) && NodeColor(t.ns, t.ns.parent[n]) == Red
    requires t.ns.parent[t.ns.parent[n]] != NIL
    ensures var ns, p := t.ns, t.ns.parent[n];
      var gg := ns.parent[p];
      0 <= gg < ns.Size() && t.bh[p] >= 1 &&
      var ns4, bh4 := Painted(Painted(ns, Sibling(ns, n), Red), p, Black), Lowered(t.bh, p);
      BalancedAt(ns4, bh4, d, gg) && RedOkAt(ns4, d, NIL, gg)
  {
    var ns, bh, p := t.ns, t.bh, t.ns.parent[n];
    var s, gg := Sibling(ns, n), ns.parent[p];
    ClimbLocal(t, n, d);
    Around(ns, t.sub, t.root, n);
    DeepBelow(t, n, d);
    assert BalancedAt(ns, bh, d, gg) && RedOkAt(ns, d, n, gg);
    RecolorTop(ns, bh, d, n, p, s, gg);
  }

  /** Case 4: painting the sibling red and the red parent black removes the deficit and leaves
      a red-black tree. */
  lemma RecolorBlack(t: Tree, n: int, d: int)
    requires ClimbCase(t, n, d) && NodeColor(t.ns, t.ns.parent[n]) == Red
    ensures var ns, p := t.ns, t.ns.parent[n];
      t.bh[p] >= 1 &&
      RedBlack(Painted(Painted(ns, Sibling(ns, n), Red), p, Black), Sub(t.sub, t.root), Lowered(t.bh, p), d)
  {
    var ns, L, p := t.ns, Sub(t.sub, t.root), t.ns.parent[n];
    var s, gg := Sibling(ns, n), ns.parent[p];
    ClimbLocal(t, n, d);
    RecolorNear(ns, t.bh, d, n, p, s);
    if gg != NIL {
      RecolorUpper(t, n, d);
    }
    var ns4, bh4 := Painted(Painted(ns, s, Red), p, Black), Lowered(t.bh, p);
    forall k | k in L && 0 <= k < ns.Size() && k != d
      ensures BalancedAt(ns4, bh4, d, k) && RedOkAt(ns4, d, NIL, k)
    {
      if k != p && k != s && k != gg {
        ClimbFar(t, n, d, ns4, bh4, NIL, k);
      }
    }
  }

  // ---------------------------------------------------------------------------------------
  // Case 5: a black sibling whose near child is red and far child black
  // ---------------------------------------------------------------------------------------

  /** Case 5 with n a left child. */
  ghost predicate NephewLeftCase(t: Tree, n: int, d: int) {
    Deficit(t, n, d) && 0 <= t.ns.parent[n] < t.ns.Size() &&
    var p := t.ns.parent[n];
    var s := t.ns.right[p];
    n == t.ns.left[p] && 0 <= s < t.ns.Size() && t.ns.color[s] == Black &&
    NodeColor(t.ns, t.ns.left[s]) == Red && NodeColor(t.ns, t.ns.right[s]) == Black
  }

  /** The facts about n, p, its black sibling s and s's red left child that case 5 needs, with
      n a left child. */
  ghost predicate NephewLeftAt(ns: Nodes, bh: seq<nat>, d: int, n: int, p: int, s: int) {
    var at :=
      SiblingAt(ns, bh, d, n, p, s) && ns.left[p] == n && ns.color[s] == Black &&
      var sn, sf := ns.left[s], ns.right[s];
      0 <= sn < ns.Size() && ns.color[sn] == Red && NodeColor(ns, sf) == Black && Stand(ns, d, n) != sn &&
      BalancedAt(ns, bh, d, sn) && RedOkAt(ns, d, n, sn) &&
      RightRotatable(Painted(Painted(ns, s, Red), sn, Black), s) &&
      var a, b := ns.left[sn], ns.right[sn];
      a != d && b != d && a != p && b != p && a != n && b != n && a != s && b != s && a != sn && b != sn &&
      (a == NIL || 0 <= a < ns.Size()) && (b == NIL || 0 <= b < ns.Size());
    at
  }

  /** Case 5 at p, s and s's left child sn, n a left child: s turns red and sn black, and the
      right rotation about s puts sn above s as n's new, black, sibling, whose right child s is
      red; the black heights below p do not change. */
  lemma NephewLeftNear(ns: Nodes, bh: seq<nat>, ns1: Nodes, d: int, n: int, p: int, s: int, sn: int, cn: int)
    requires ns.Sized() && |bh| == ns.Size() && ns1.Sized() && ns1.Size() == ns.Size()
    requires 0 <= n < ns.Size() && 0 <= p < ns.Size() && 0 <= s < ns.Size() && 0 <= sn < ns.Size()
    requires n != p && s != p && s != n && sn != p && sn != s && sn != n
    requires ns.left[p] == n && ns.right[p] == s && ns.left[s] == sn
    requires var sf, a, b := ns.right[s], ns.left[sn], ns.right[sn];
      sf != p && sf != s && sf != sn && sf != n && (sf == NIL || 0 <= sf < ns.Size()) &&
      a != d && b != d && a != p && b != p && a != n && b != n && a != s && b != s && a != sn && b != sn &&
      (a == NIL || 0 <= a < ns.Size()) && (b == NIL || 0 <= b < ns.Size()) &&
      d != p && d != s && d != sn && d != sf &&
      cn == Stand(ns, d, n) && cn == Stand(ns1, d, n) && cn != p && cn != s && cn != sn &&
      (cn == NIL || 0 <= cn < ns.Size()) &&
      ns1.color == ns.color[s := Red][sn := Black] &&
      ns1.left[p] == n && ns1.right[p] == sn && ns1.left[sn] == a && ns1.right[sn] == s &&
      ns1.left[s] == b && ns1.right[s] == sf
    requires ns.color[s] == Black && ns.color[sn] == Red && NodeColor(ns, ns.right[s]) == Black
    requires BalancedAt(ns, bh, d, s) && BalancedAt(ns, bh, d, sn) && RedOkAt(ns, d, n, sn)
    requires Height(ns, bh, cn) + 1 == bh[p] && Height(ns, bh, s) == bh[p]
    ensures var bh1 := TurnedHeights(Painted(Painted(ns, s, Red), sn, Black), bh, s, sn, ns.right[sn]);
      BalancedAt(ns1, bh1, d, s) && BalancedAt(ns1, bh1, d, sn) &&
      RedOkAt(ns1, d, n, p) && RedOkAt(ns1, d, n, s) && RedOkAt(ns1, d, n, sn) &&
      Height(ns1, bh1, Stand(ns1, d, n)) + 1 == bh1[p] && ns1.left[p] == n &&
      ns1.right[p] != n && Height(ns1, bh1, ns1.right[p]) == bh1[p] &&
      NodeColor(ns1, ns1.right[p]) == Black && ns1.right[ns1.right[p]] == s && ns1.color[s] == Red
  {
  }

  /** Case 5, n a left child: how the recolouring and the rotation about s relink p, s and sn. */
  lemma NephewLeftShape(ns: Nodes, d: int, n: int, p: int, s: int)
    requires ns.Sized() && 0 <= n < ns.Size() && 0 <= p < ns.Size() && 0 <= s < ns.Size() && 0 <= d < ns.Size()
    requires 0 <= ns.left[s] < ns.Size() && ns.parent[s] == p && ns.left[p] == n && ns.right[p] == s && n != s
    requires d != p && d != s && d != ns.left[s] && n != p && n != ns.left[s]
    requires RightRotatable(Painted(Painted(ns, s, Red), ns.left[s], Black), s)
    ensures var sn := ns.left[s];
      var ns1 := RightRotated(Painted(Painted(ns, s, Red), sn, Black), s);
      ns1.color == ns.color[s := Red][sn := Black] &&
      ns1.left[p] == n && ns1.right[p] == sn && ns1.left[sn] == ns.left[sn] && ns1.right[sn] == s &&
      ns1.left[s] == ns.right[sn] && ns1.right[s] == ns.right[s] && Stand(ns1, d, n) == Stand(ns, d, n)
  {
    var sn := ns.left[s];
    var ns2 := Painted(Painted(ns, s, Red), sn, Black);
    RightRotatedAround(ns2, s);
    RightRotatedAway(ns2, s, d);
    RightRotatedAway(ns2, s, n);
  }

  /** Case 5 at p, s and sn, n a left child, from the facts it needs. */
  lemma NephewLeftAbove(ns: Nodes, bh: seq<nat>, d: int, n: int, p: int, s: int)
    requires NephewLeftAt(ns, bh, d, n, p, s)
    ensures var ns2 := Painted(Painted(ns, s, Red), ns.left[s], Black);
      var ns1, bh1 := RightRotated(ns2, s), RightRotatedHeights(ns2, bh, s);
      BalancedAt(ns1, bh1, d, s) && BalancedAt(ns1, bh1, d, ns.left[s]) &&
      RedOkAt(ns1, d, n, p) && RedOkAt(ns1, d, n, s) && RedOkAt(ns1, d, n, ns.left[s]) &&
      Height(ns1, bh1, Stand(ns1, d, n)) + 1 == bh1[p] && ns1.left[p] == n &&
      ns1.right[p] != n && Height(ns1, bh1, ns1.right[p]) == bh1[p] && ns1.right[p] == ns.left[s] &&
      NodeColor(ns1, ns1.right[p]) == Black && ns1.right[ns1.right[p]] == s && ns1.color[s] == Red
  {
    var sn := ns.left[s];
    var ns2 := Painted(Painted(ns, s, Red), sn, Black);
    NephewLeftShape(ns, d, n, p, s);
    NephewLeftNear(ns, bh, RightRotated(ns2, s), d, n, p, s, sn, Stand(ns, d, n));
  }

  /** Case 5 at a node k other than p, s and s's left child, n a left child: recolouring s and
      its left child and rotating s right keeps the rules at k. */
  lemma NephewLeftKept(ns: Nodes, bh: seq<nat>, d: int, n: int, p: int, s: int, k: int)
    requires ns.Sized() && |bh| == ns.Size() && 0 <= p < ns.Size() && 0 <= s < ns.Size()
    requires 0 <= ns.left[s] < ns.Size() && RightRotatable(Painted(Painted(ns, s, Red), ns.left[s], Black), s)
    requires ns.parent[s] == p && ns.parent[ns.left[s]] == s && p != s
    requires 0 <= k < ns.Size() && k != p && k != s && k != ns.left[s] && k != d
    requires ns.left[k] == NIL || (0 <= ns.left[k] < ns.Size() && ns.parent[ns.left[k]] == k)
    requires ns.right[k] == NIL || (0 <= ns.right[k] < ns.Size() && ns.parent[ns.right[k]] == k)
    requires 0 <= d < ns.Size() && d != p && d != s && d != ns.left[s]
    requires Child(ns, d) != s && Child(ns, d) != ns.left[s]
    ensures var ns2 := Painted(Painted(ns, s, Red), ns.left[s], Black);
      var ns1, bh1 := RightRotated(ns2, s), RightRotatedHeights(ns2, bh, s);
      (BalancedAt(ns, bh, d, k) ==> BalancedAt(ns1, bh1, d, k)) &&
      (RedOkAt(ns, d, n, k) ==> RedOkAt(ns1, d, n, k))
  {
    var sn := ns.left[s];
    var ns2 := Painted(Painted(ns, s, Red), sn, Black);
    RightRotatedAround(ns2, s);
    RightRotatedAway(ns2, s, k);
    RightRotatedAway(ns2, s, d);
    var ns1, bh1 := RightRotated(ns2, s), RightRotatedHeights(ns2, bh, s);
    assert forall x | 0 <= x < ns.Size() && x !in {s, sn} :: ns1.color[x] == ns.color[x] && bh1[x] == bh[x];
    RulesKept(ns, bh, ns1, bh1, {s, sn}, d, n, n, k);
  }

  /** Case 5 with n a left child: the facts it needs about n, p, s and s's left child hold. */
  lemma NephewLeftLocal(t: Tree, n: int, d: int)
    requires NephewLeftCase(t, n, d)
    ensures var ns, p := t.ns, t.ns.parent[n];
      NephewLeftAt(ns, t.bh, d, n, p, ns.right[p])
  {
    var ns, bh, p := t.ns, t.bh, t.ns.parent[n];
    var s := ns.right[p];
    var sn := ns.left[s];
    SiblingLocal(t, n, d);
    Cousins(t, n, d, sn);
    RightRotatableLinked(ns, t.root, t.sub, s);
    Repainted(ns, Painted(Painted(ns, s, Red), sn, Black), s);
    assert BalancedAt(ns, bh, d, sn) && RedOkAt(ns, d, n, sn);
  }

  /** Case 5 away from p, s and s's left child, n a left child: the rules hold at k as before. */
  lemma NephewLeftFar(t: Tree, n: int, d: int, k: int)
    requires NephewLeftCase(t, n, d) && k in Sub(t.sub, t.root) && k != d
    requires var p := t.ns.parent[n];
      k != p && k != t.ns.right[p] && k != t.ns.left[t.ns.right[p]]
    ensures var ns, p := t.ns, t.ns.parent[n];
      var s := ns.right[p];
      var ns2 := Painted(Painted(ns, s, Red), ns.left[s], Black);
      RightRotatable(ns2, s) &&
      var ns1, bh1 := RightRotated(ns2, s), RightRotatedHeights(ns2, t.bh, s);
      0 <= k < ns.Size() && BalancedAt(ns1, bh1, d, k) && RedOkAt(ns1, d, n, k)
  {
    var ns, bh, p := t.ns, t.bh, t.ns.parent[n];
    var s := ns.right[p];
    NephewLeftLocal(t, n, d);
    DeepBelow(t, n, d);
    Kin(ns, t.sub, t.root, k);
    assert BalancedAt(ns, bh, d, k) && RedOkAt(ns, d, n, k);
    NephewLeftKept(ns, bh, d, n, p, s, k);
  }

  /** Case 5 with n a left child: after the recolouring and the rotation about s, n's side is
      still one black node short below p, n's new sibling is black and its far child red. */
  lemma NephewLeftShort(t: Tree, n: int, d: int)
    requires NephewLeftCase(t, n, d)
    ensures var ns, p := t.ns, t.ns.parent[n];
      var s := ns.right[p];
      var ns2 := Painted(Painted(ns, s, Red), ns.left[s], Black);
      RightRotatable(ns2, s) &&
      var ns1, bh1 := RightRotated(ns2, s), RightRotatedHeights(ns2, t.bh, s);
      ShortBelow(ns1, Sub(t.sub, t.root), bh1, d, n, p) && 0 <= ns1.right[p] < ns.Size() &&
      NodeColor(ns1, ns1.right[p]) == Black && NodeColor(ns1, ns1.right[ns1.right[p]]) == Red
  {
    var ns, L, p := t.ns, Sub(t.sub, t.root), t.ns.parent[n];
    var s := ns.right[p];
    var sn := ns.left[s];
    NephewLeftLocal(t, n, d);
    NephewLeftAbove(ns, t.bh, d, n, p, s);
    var ns2 := Painted(Painted(ns, s, Red), sn, Black);
    var ns1, bh1 := RightRotated(ns2, s), RightRotatedHeights(ns2, t.bh, s);
    forall k | k in L && 0 <= k < ns.Size() && k != d
      ensures (k != p ==> BalancedAt(ns1, bh1, d, k)) && RedOkAt(ns1, d, n, k)
    {
      if k != p && k != s && k != sn {
        NephewLeftFar(t, n, d, k);
      }
    }
  }

  /** Case 5 with n a right child. */
  ghost predicate NephewRightCase(t: Tree, n: int, d: int) {
    Deficit(t, n, d) && 0 <= t.ns.parent[n] < t.ns.Size() &&
    var p := t.ns.parent[n];
    var s := t.ns.left[p];
    n == t.ns.right[p] && 0 <= s < t.ns.Size() && t.ns.color[s] == Black &&
    NodeColor(t.ns, t.ns.right[s]) == Red && NodeColor(t.ns, t.ns.left[s]) == Black
  }

  /** The facts about n, p, its black sibling s and s's red right child that case 5 needs, with
      n a right child. */
  ghost predicate NephewRightAt(ns: Nodes, bh: seq<nat>, d: int, n: int, p: int, s: int) {
    var at :=
      SiblingAt(ns, bh, d, n, p, s) && ns.right[p] == n && ns.color[s] == Black &&
      var sn, sf := ns.right[s], ns.left[s];
      0 <= sn < ns.Size() && ns.color[sn] == Red && NodeColor(ns, sf) == Black && Stand(ns, d, n) != sn &&
      BalancedAt(ns, bh, d, sn) && RedOkAt(ns, d, n, sn) &&
      LeftRotatable(Painted(Painted(ns, s, Red), sn, Black), s) &&
      var a, b := ns.right[sn], ns.left[sn];
      a != d && b != d && a != p && b != p && a != n && b != n && a != s && b != s && a != sn && b != sn &&
      (a == NIL || 0 <= a < ns.Size()) && (b == NIL || 0 <= b < ns.Size());
    at
  }

  /** Case 5 at p, s and s's right child sn, n a right child: s turns red and sn black, and the
      left rotation about s puts sn above s as n's new, black, sibling, whose left child s is
      red; the black heights below p do not change. */
  lemma NephewRightNear(ns: Nodes, bh: seq<nat>, ns1: Nodes, d: int, n: int, p: int, s: int, sn: int, cn: int)
    requires ns.Sized() && |bh| == ns.Size() && ns1.Sized() && ns1.Size() == ns.Size()
    requires 0 <= n < ns.Size() && 0 <= p < ns.Size() && 0 <= s < ns.Size() && 0 <= sn < ns.Size()
    requires n != p && s != p && s != n && sn != p && sn != s && sn != n
    requires ns.right[p] == n && ns.left[p] == s && ns.right[s] == sn
    requires var sf, a, b := ns.left[s], ns.right[sn], ns.left[sn];
      sf != p && sf != s && sf != sn && sf != n && (sf == NIL || 0 <= sf < ns.Size()) &&
      a != d && b != d && a != p && b != p && a != n && b != n && a != s && b != s && a != sn && b != sn &&
      (a == NIL || 0 <= a < ns.Size()) && (b == NIL || 0 <= b < ns.Size()) &&
      d != p && d != s && d != sn && d != sf &&
      cn == Stand(ns, d, n) && cn == Stand(ns1, d, n) && cn != p && cn != s && cn != sn &&
      (cn == NIL || 0 <= cn < ns.Size()) &&
      ns1.color == ns.color[s := Red][sn := Black] &&
      ns1.right[p] == n && ns1.left[p] == sn && ns1.right[sn] == a && ns1.left[sn] == s &&
      ns1.right[s] == b && ns1.left[s] == sf
    requires ns.color[s] == Black && ns.color[sn] == Red && NodeColor(ns, ns.left[s]) == Black
    requires BalancedAt(ns, bh, d, s) && BalancedAt(ns, bh, d, sn) && RedOkAt(ns, d, n, sn)
    requires Height(ns, bh, cn) + 1 == bh[p] && Height(ns, bh, s) == bh[p]
    ensures var bh1 := TurnedHeights(Painted(Painted(ns, s, Red), sn, Black), bh, s, sn, ns.left[sn]);
      BalancedAt(ns1, bh1, d, s) && BalancedAt(ns1, bh1, d, sn) &&
      RedOkAt(ns1, d, n, p) && RedOkAt(ns1, d, n, s) && RedOkAt(ns1, d, n, sn) &&
      Height(ns1, bh1, Stand(ns1, d, n)) + 1 == bh1[p] && ns1.right[p] == n &&
      ns1.left[p] != n && Height(ns1, bh1, ns1.left[p]) == bh1[p] &&
      NodeColor(ns1, ns1.left[p]) == Black && ns1.left[ns1.left[p]] == s && ns1.color[s] == Red
  {
  }

  /** Case 5, n a right child: how the recolouring and the rotation about s relink p, s and sn. */
  lemma NephewRightShape(ns: Nodes, d: int, n: int, p: int, s: int)
    requires ns.Sized() && 0 <= n < ns.Size() && 0 <= p < ns.Size() && 0 <= s < ns.Size() && 0 <= d < ns.Size()
    requires 0 <= ns.right[s] < ns.Size() && ns.parent[s] == p && ns.right[p] == n && ns.left[p] == s && n != s
    requires d != p && d != s && d != ns.right[s] && n != p && n != ns.right[s]
    requires LeftRotatable(Painted(Painted(ns, s, Red), ns.right[s], Black), s)
    ensures var sn := ns.right[s];
      var ns1 := LeftRotated(Painted(Painted(ns, s, Red), sn, Black), s);
      ns1.color == ns.color[s := Red][sn := Black] &&
      ns1.right[p] == n && ns1.left[p] == sn && ns1.right[sn] == ns.right[sn] && ns1.left[sn] == s &&
      ns1.right[s] == ns.left[sn] && ns1.left[s] == ns.left[s] && Stand(ns1, d, n) == Stand(ns, d, n)
  {
    var sn := ns.right[s];
    var ns2 := Painted(Painted(ns, s, Red), sn, Black);
    LeftRotatedAround(ns2, s);
    LeftRotatedAway(ns2, s, d);
    LeftRotatedAway(ns2, s, n);
  }

  /** Case 5 at p, s and sn, n a right child, from the facts it needs. */
  lemma NephewRightAbove(ns: Nodes, bh: seq<nat>, d: int, n: int, p: int, s: int)
    requires NephewRightAt(ns, bh, d, n, p, s)
    ensures var ns2 := Painted(Painted(ns, s, Red), ns.right[s], Black);
      var ns1, bh1 := LeftRotated(ns2, s), LeftRotatedHeights(ns2, bh, s);
      BalancedAt(ns1, bh1, d, s) && BalancedAt(ns1, bh1, d, ns.right[s]) &&
      RedOkAt(ns1, d, n, p) && RedOkAt(ns1, d, n, s) && RedOkAt(ns1, d, n, ns.right[s]) &&
      Height(ns1, bh1, Stand(ns1, d, n)) + 1 == bh1[p] && ns1.right[p] == n &&
      ns1.left[p] != n && Height(ns1, bh1, ns1.left[p]) == bh1[p] && ns1.left[p] == ns.right[s] &&
      NodeColor(ns1, ns1.left[p]) == Black && ns1.left[ns1.left[p]] == s && ns1.color[s] == Red
  {
    var sn := ns.right[s];
    var ns2 := Painted(Painted(ns, s, Red), sn, Black);
    NephewRightShape(ns, d, n, p, s);
    NephewRightNear(ns, bh, LeftRotated(ns2, s), d, n, p, s, sn, Stand(ns, d, n));
  }

  /** Case 5 at a node k other than p, s and s's right child, n a right child: recolouring s and
      its right child and rotating s left keeps the rules at k. */
  lemma NephewRightKept(ns: Nodes, bh: seq<nat>, d: int, n: int, p: int, s: int, k: int)
    requires ns.Sized() && |bh| == ns.Size() && 0 <= p < ns.Size() && 0 <= s < ns.Size()
    requires 0 <= ns.right[s] < ns.Size() && LeftRotatable(Painted(Painted(ns, s, Red), ns.right[s], Black), s)
    requires ns.parent[s] == p && ns.parent[ns.right[s]] == s && p != s
    requires 0 <= k < ns.Size() && k != p && k != s && k != ns.right[s] && k != d
    requires ns.right[k] == NIL || (0 <= ns.right[k] < ns.Size() && ns.parent[ns.right[k]] == k)
    requires ns.left[k] == NIL || (0 <= ns.left[k] < ns.Size() && ns.parent[ns.left[k]] == k)
    requires 0 <= d < ns.Size() && d != p && d != s && d != ns.right[s]
    requires Child(ns, d) != s && Child(ns, d) != ns.right[s]
    ensures var ns2 := Painted(Painted(ns, s, Red), ns.right[s], Black);
      var ns1, bh1 := LeftRotated(ns2, s), LeftRotatedHeights(ns2, bh, s);
      (BalancedAt(ns, bh, d, k) ==> BalancedAt(ns1, bh1, d, k)) &&
      (RedOkAt(ns, d, n, k) ==> RedOkAt(ns1, d, n, k))
  {
    var sn := ns.right[s];
    var ns2 := Painted(Painted(ns, s, Red), sn, Black);
    LeftRotatedAround(ns2, s);
    LeftRotatedAway(ns2, s, k);
    LeftRotatedAway(ns2, s, d);
    var ns1, bh1 := LeftRotated(ns2, s), LeftRotatedHeights(ns2, bh, s);
    assert forall x | 0 <= x < ns.Size() && x !in {s, sn} :: ns1.color[x] == ns.color[x] && bh1[x] == bh[x];
    RulesKept(ns, bh, ns1, bh1, {s, sn}, d, n, n, k);
  }

  /** Case 5 with n a right child: the facts it needs about n, p, s and s's right child hold. */
  lemma NephewRightLocal(t: Tree, n: int, d: int)
    requires NephewRightCase(t, n, d)
    ensures var ns, p := t.ns, t.ns.parent[n];
      NephewRightAt(ns, t.bh, d, n, p, ns.left[p])
  {
    var ns, bh, p := t.ns, t.bh, t.ns.parent[n];
    var s := ns.left[p];
    var sn := ns.right[s];
    SiblingLocal(t, n, d);
    Cousins(t, n, d, sn);
    LeftRotatableLinked(ns, t.root, t.sub, s);
    Repainted(ns, Painted(Painted(ns, s, Red), sn, Black), s);
    assert BalancedAt(ns, bh, d, sn) && RedOkAt(ns, d, n, sn);
  }

  /** Case 5 away from p, s and s's right child, n a right child: the rules hold at k as before. */
  lemma NephewRightFar(t: Tree, n: int, d: int, k: int)
    requires NephewRightCase(t, n, d) && k in Sub(t.sub, t.root) && k != d
    requires var p := t.ns.parent[n];
      k != p && k != t.ns.left[p] && k != t.ns.right[t.ns.left[p]]
    ensures var ns, p := t.ns, t.ns.parent[n];
      var s := ns.left[p];
      var ns2 := Painted(Painted(ns, s, Red), ns.right[s], Black);
      LeftRotatable(ns2, s) &&
      var ns1, bh1 := LeftRotated(ns2, s), LeftRotatedHeights(ns2, t.bh, s);
      0 <= k < ns.Size() && BalancedAt(ns1, bh1, d, k) && RedOkAt(ns1, d, n, k)
  {
    var ns, bh, p := t.ns, t.bh, t.ns.parent[n];
    var s := ns.left[p];
    NephewRightLocal(t, n, d);
    DeepBelow(t, n, d);
    Kin(ns, t.sub, t.root, k);
    assert BalancedAt(ns, bh, d, k) && RedOkAt(ns, d, n, k);
    NephewRightKept(ns, bh, d, n, p, s, k);
  }

  /** Case 5 with n a right child: after the recolouring and the rotation about s, n's side is
      still one black node short below p, n's new sibling is black and its far child red. */
  lemma NephewRightShort(t: Tree, n: int, d: int)
    requires NephewRightCase(t, n, d)
    ensures var ns, p := t.ns, t.ns.parent[n];
      var s := ns.left[p];
      var ns2 := Painted(Painted(ns, s, Red), ns.right[s], Black);
      LeftRotatable(ns2, s) &&
      var ns1, bh1 := LeftRotated(ns2, s), LeftRotatedHeights(ns2, t.bh, s);
      ShortBelow(ns1, Sub(t.sub, t.root), bh1, d, n, p) && 0 <= ns1.left[p] < ns.Size() &&
      NodeColor(ns1, ns1.left[p]) == Black && NodeColor(ns1, ns1.left[ns1.left[p]]) == Red
  {
    var ns, L, p := t.ns, Sub(t.sub, t.root), t.ns.parent[n];
    var s := ns.left[p];
    var sn := ns.right[s];
    NephewRightLocal(t, n, d);
    NephewRightAbove(ns, t.bh, d, n, p, s);
    var ns2 := Painted(Painted(ns, s, Red), sn, Black);
    var ns1, bh1 := LeftRotated(ns2, s), LeftRotatedHeights(ns2, t.bh, s);
    forall k | k in L && 0 <= k < ns.Size() && k != d
      ensures (k != p ==> BalancedAt(ns1, bh1, d, k)) && RedOkAt(ns1, d, n, k)
    {
      if k != p && k != s && k != sn {
        NephewRightFar(t, n, d, k);
      }
    }
  }

  // ---------------------------------------------------------------------------------------
  // Case 6: a black sibling whose far child is red
  // ---------------------------------------------------------------------------------------

  /** Case 6 with n a left child. */
  ghost predicate SwapLeftCase(t: Tree, n: int, d: int) {
    Deficit(t, n, d) && 0 <= t.ns.parent[n] < t.ns.Size() &&
    var p := t.ns.parent[n];
    var s := t.ns.right[p];
    n == t.ns.left[p] && 0 <= s < t.ns.Size() && t.ns.color[s] == Black &&
    NodeColor(t.ns, t.ns.right[s]) == Red
  }

  /** The recolouring of case 6 with n a left child: s takes p's colour, and p and s's right
      child turn black. */
  function SwapLeftPainted(ns: Nodes, p: int, s: int): (r: Nodes)
    requires ns.Sized() && 0 <= p < ns.Size() && 0 <= s < ns.Size() && 0 <= ns.right[s] < ns.Size()
    ensures r.Sized() && r.Size() == ns.Size() && r == ns.(color := r.color)
  {
    Painted(Swapped(ns, p, s), ns.right[s], Black)
  }

  /** The facts about n, p, its black sibling s and s's red right child that case 6 needs, with
      n a left child. */
  ghost predicate SwapLeftAt(ns: Nodes, bh: seq<nat>, d: int, n: int, p: int, s: int) {
    var at :=
      SiblingAt(ns, bh, d, n, p, s) && ns.left[p] == n && ns.color[s] == Black &&
      var sn, sf, g := ns.left[s], ns.right[s], ns.parent[p];
      0 <= sf < ns.Size() && ns.color[sf] == Red && BalancedAt(ns, bh, d, sf) && Stand(ns, d, n) != sf &&
      sf != g && (0 <= g < ns.Size() ==> ns.left[g] != sf && ns.right[g] != sf) &&
      LeftRotatable(SwapLeftPainted(ns, p, s), p) &&
      var a, b := ns.left[sf], ns.right[sf];
      a != d && b != d && a != p && b != p && a != s && b != s && a != sf && b != sf &&
      (a == NIL || 0 <= a < ns.Size()) && (b == NIL || 0 <= b < ns.Size());
    at
  }

  /** Case 6, n a left child: how the recolouring and the rotation about p relink p, s and s's
      right child sf. */
  lemma SwapLeftShape(ns: Nodes, d: int, n: int, p: int, s: int)
    requires ns.Sized() && 0 <= n < ns.Size() && 0 <= p < ns.Size() && 0 <= s < ns.Size() && 0 <= d < ns.Size()
    requires 0 <= ns.right[s] < ns.Size() && ns.right[p] == s && ns.left[p] == n
    requires var sf := ns.right[s];
      d != p && d != s && d != ns.parent[p] && n != p && n != s && n != ns.parent[p] &&
      sf != p && sf != s && sf != ns.parent[p]
    requires LeftRotatable(SwapLeftPainted(ns, p, s), p)
    ensures var sf := ns.right[s];
      var ns1 := LeftRotated(SwapLeftPainted(ns, p, s), p);
      ns1.color == ns.color[s := NodeColor(ns, p)][p := Black][sf := Black] &&
      ns1.left[p] == n && ns1.right[p] == ns.left[s] && ns1.left[s] == p && ns1.right[s] == sf &&
      ns1.left[sf] == ns.left[sf] && ns1.right[sf] == ns.right[sf] && Stand(ns1, d, n) == Stand(ns, d, n)
  {
    var ns2 := SwapLeftPainted(ns, p, s);
    LeftRotatedAround(ns2, p);
    LeftRotatedAway(ns2, p, d);
    LeftRotatedAway(ns2, p, n);
    LeftRotatedAway(ns2, p, ns.right[s]);
  }

  /** Case 6 at p, s and s's right child sf, n a left child: s takes p's colour, p and sf turn
      black, and the left rotation about p puts s above p. p keeps n, whose side gains the black
      node it lacked, and takes s's left child; every path through s's old place keeps its black
      nodes. */
  lemma SwapLeftNear(ns: Nodes, bh: seq<nat>, ns1: Nodes, d: int, n: int, p: int, s: int, sf: int, cn: int)
    requires ns.Sized() && |bh| == ns.Size() && ns1.Sized() && ns1.Size() == ns.Size()
    requires 0 <= n < ns.Size() && 0 <= p < ns.Size() && 0 <= s < ns.Size() && 0 <= sf < ns.Size()
    requires n != p && s != p && s != n && sf != p && sf != s && sf != n
    requires ns.left[p] == n && ns.right[p] == s && ns.right[s] == sf
    requires var sn, a, b := ns.left[s], ns.left[sf], ns.right[sf];
      sn != p && sn != s && sn != sf && sn != n && (sn == NIL || 0 <= sn < ns.Size()) &&
      a != d && b != d && a != p && b != p && a != s && b != s && a != sf && b != sf &&
      (a == NIL || 0 <= a < ns.Size()) && (b == NIL || 0 <= b < ns.Size()) &&
      d != p && d != s && d != sn && d != sf &&
      cn == Stand(ns, d, n) && cn == Stand(ns1, d, n) && cn != p && cn != s && cn != sf &&
      (cn == NIL || 0 <= cn < ns.Size()) &&
      ns1.color == ns.color[s := NodeColor(ns, p)][p := Black][sf := Black] &&
      ns1.left[p] == n && ns1.right[p] == sn && ns1.left[s] == p && ns1.right[s] == sf &&
      ns1.left[sf] == a && ns1.right[sf] == b
    requires ns.color[s] == Black && ns.color[sf] == Red
    requires BalancedAt(ns, bh, d, s) && BalancedAt(ns, bh, d, sf)
    requires Height(ns, bh, cn) + 1 == bh[p] && Height(ns, bh, s) == bh[p]
    ensures var bh1 := TurnedHeights(SwapLeftPainted(ns, p, s), bh, p, s, ns.left[s]);
      BalancedAt(ns1, bh1, d, p) && BalancedAt(ns1, bh1, d, s) && BalancedAt(ns1, bh1, d, sf) &&
      RedOkAt(ns1, d, NIL, p) && RedOkAt(ns1, d, NIL, s) && RedOkAt(ns1, d, NIL, sf) &&
      Height(ns1, bh1, s) == Height(ns, bh, p) && NodeColor(ns1, s) == NodeColor(ns, p)
  {
  }

  /** Case 6 at p, s and sf, n a left child, from the facts it needs. */
  lemma SwapLeftAbove(ns: Nodes, bh: seq<nat>, d: int, n: int, p: int, s: int)
    requires SwapLeftAt(ns, bh, d, n, p, s)
    ensures var ns2 := SwapLeftPainted(ns, p, s);
      var ns1, bh1 := LeftRotated(ns2, p), LeftRotatedHeights(ns2, bh, p);
      BalancedAt(ns1, bh1, d, p) && BalancedAt(ns1, bh1, d, s) && BalancedAt(ns1, bh1, d, ns.right[s]) &&
      RedOkAt(ns1, d, NIL, p) && RedOkAt(ns1, d, NIL, s) && RedOkAt(ns1, d, NIL, ns.right[s]) &&
      Height(ns1, bh1, s) == Height(ns, bh, p) && NodeColor(ns1, s) == NodeColor(ns, p)
  {
    SwapLeftShape(ns, d, n, p, s);
    SwapLeftNear(ns, bh, LeftRotated(SwapLeftPainted(ns, p, s), p), d, n, p, s, ns.right[s], Stand(ns, d, n));
  }

  /** Case 6 at p's parent gg, n a left child: the slot that held p now holds s, with p's colour
      and as many black nodes below it, so the rules at gg hold, with no red node excepted. */
  lemma SwapLeftTop(ns: Nodes, bh: seq<nat>, d: int, n: int, p: int, s: int, gg: int)
    requires GrandAt(ns, bh, d, n, p, s, gg)
    requires 0 <= s < ns.Size() && ns.right[p] == s && d != p && d != s && n != p
    requires 0 <= ns.right[s] < ns.Size() && ns.right[s] != gg
    requires ns.left[gg] != ns.right[s] && ns.right[gg] != ns.right[s]
    requires LeftRotatable(SwapLeftPainted(ns, p, s), p)
    requires var ns2 := SwapLeftPainted(ns, p, s);
      var ns1 := LeftRotated(ns2, p);
      Height(ns1, LeftRotatedHeights(ns2, bh, p), s) == Height(ns, bh, p) && NodeColor(ns1, s) == NodeColor(ns, p)
    ensures var ns2 := SwapLeftPainted(ns, p, s);
      var ns1, bh1 := LeftRotated(ns2, p), LeftRotatedHeights(ns2, bh, p);
      BalancedAt(ns1, bh1, d, gg) && RedOkAt(ns1, d, NIL, gg)
  {
    var ns2 := SwapLeftPainted(ns, p, s);
    LeftRotatedAround(ns2, p);
    SlotTaken(ns, bh, LeftRotated(ns2, p), LeftRotatedHeights(ns2, bh, p), d, n, NIL, gg, p, s);
  }

  /** Case 6 at a node k other than p, s, s's right child and p's parent, n a left child: the
      recolouring and the rotation keep the rules at k, and n's red exception is no longer
      needed. */
  lemma SwapLeftKept(ns: Nodes, bh: seq<nat>, d: int, n: int, p: int, s: int, k: int)
    requires ns.Sized() && |bh| == ns.Size() && 0 <= p < ns.Size() && 0 <= s < ns.Size()
    requires 0 <= ns.right[s] < ns.Size() && LeftRotatable(SwapLeftPainted(ns, p, s), p)
    requires ns.right[p] == s && ns.parent[s] == p && ns.parent[ns.right[s]] == s && p != s
    requires 0 <= n < ns.Size() && ns.parent[n] == p
    requires 0 <= k < ns.Size() && k != p && k != s && k != ns.right[s] && k != ns.parent[p] && k != d
    requires ns.left[k] == NIL || (0 <= ns.left[k] < ns.Size() && ns.parent[ns.left[k]] == k)
    requires ns.right[k] == NIL || (0 <= ns.right[k] < ns.Size() && ns.parent[ns.right[k]] == k)
    requires 0 <= d < ns.Size() && d != p && d != s && d != ns.parent[p]
    requires Child(ns, d) != p && Child(ns, d) != s && Child(ns, d) != ns.right[s]
    ensures var ns2 := SwapLeftPainted(ns, p, s);
      var ns1, bh1 := LeftRotated(ns2, p), LeftRotatedHeights(ns2, bh, p);
      (BalancedAt(ns, bh, d, k) ==> BalancedAt(ns1, bh1, d, k)) &&
      (RedOkAt(ns, d, n, k) ==> RedOkAt(ns1, d, NIL, k))
  {
    var ns2 := SwapLeftPainted(ns, p, s);
    LeftRotatedAround(ns2, p);
    LeftRotatedAway(ns2, p, k);
    LeftRotatedAway(ns2, p, d);
    var ns1, bh1 := LeftRotated(ns2, p), LeftRotatedHeights(ns2, bh, p);
    assert forall x | 0 <= x < ns.Size() && x !in {p, s, ns.right[s]} :: ns1.color[x] == ns.color[x] && bh1[x] == bh[x];
    RulesKept(ns, bh, ns1, bh1, {p, s, ns.right[s]}, d, n, NIL, k);
  }

  /** Case 6 with n a left child: the facts it needs about n, p, s and s's right child hold. */
  lemma SwapLeftLocal(t: Tree, n: int, d: int)
    requires SwapLeftCase(t, n, d)
    ensures var ns, p := t.ns, t.ns.parent[n];
      SwapLeftAt(ns, t.bh, d, n, p, ns.right[p])
  {
    var ns, bh, p := t.ns, t.bh, t.ns.parent[n];
    var s := ns.right[p];
    var sf := ns.right[s];
    SiblingLocal(t, n, d);
    Around(ns, t.sub, t.root, n);
    Cousins(t, n, d, sf);
    Turnable(t, p, SwapLeftPainted(ns, p, s));
    assert BalancedAt(ns, bh, d, sf);
  }

  /** Case 6 away from p, s, s's right child and p's parent, n a left child. */
  lemma SwapLeftFar(t: Tree, n: int, d: int, k: int)
    requires SwapLeftCase(t, n, d) && k in Sub(t.sub, t.root) && k != d
    requires var p := t.ns.parent[n];
      k != p && k != t.ns.right[p] && k != t.ns.right[t.ns.right[p]] && k != t.ns.parent[p]
    ensures var ns, p := t.ns, t.ns.parent[n];
      var ns2 := SwapLeftPainted(ns, p, ns.right[p]);
      LeftRotatable(ns2, p) &&
      var ns1, bh1 := LeftRotated(ns2, p), LeftRotatedHeights(ns2, t.bh, p);
      0 <= k < ns.Size() && BalancedAt(ns1, bh1, d, k) && RedOkAt(ns1, d, NIL, k)
  {
    var ns, bh, p := t.ns, t.bh, t.ns.parent[n];
    SwapLeftLocal(t, n, d);
    DeepBelow(t, n, d);
    Kin(ns, t.sub, t.root, k);
    assert BalancedAt(ns, bh, d, k) && RedOkAt(ns, d, n, k);
    SwapLeftKept(ns, bh, d, n, p, ns.right[p], k);
  }

  /** Case 6 with n a left child: after the recolouring and the rotation about p the deficit is
      gone, and the tree, read with d replaced by its child, is a red-black tree. */
  lemma SwapLeftBlack(t: Tree, n: int, d: int)
    requires SwapLeftCase(t, n, d)
    ensures var ns, p := t.ns, t.ns.parent[n];
      var ns2 := SwapLeftPainted(ns, p, ns.right[p]);
      LeftRotatable(ns2, p) &&
      RedBlack(LeftRotated(ns2, p), Sub(t.sub, t.root), LeftRotatedHeights(ns2, t.bh, p), d)
  {
    var ns, L, p := t.ns, Sub(t.sub, t.root), t.ns.parent[n];
    var s, gg := ns.right[p], ns.parent[p];
    SwapLeftLocal(t, n, d);
    SwapLeftAbove(ns, t.bh, d, n, p, s);
    GrandLocal(t, n, d);
    if gg != NIL {
      SwapLeftTop(ns, t.bh, d, n, p, s, gg);
    }
    var ns2 := SwapLeftPainted(ns, p, s);
    var ns1, bh1 := LeftRotated(ns2, p), LeftRotatedHeights(ns2, t.bh, p);
    forall k | k in L && 0 <= k < ns.Size() && k != d
      ensures BalancedAt(ns1, bh1, d, k) && RedOkAt(ns1, d, NIL, k)
    {
      if k != p && k != s && k != ns.right[s] && k != gg {
        SwapLeftFar(t, n, d, k);
      }
    }
  }

  /** Case 6 with n a right child. */
  ghost predicate SwapRightCase(t: Tree, n: int, d: int) {
    Deficit(t, n, d) && 0 <= t.ns.parent[n] < t.ns.Size() &&
    var p := t.ns.parent[n];
    var s := t.ns.left[p];
    n == t.ns.right[p] && 0 <= s < t.ns.Size() && t.ns.color[s] == Black &&
    NodeColor(t.ns, t.ns.left[s]) == Red
  }

  /** The recolouring of case 6 with n a right child: s takes p's colour, and p and s's left
      child turn black. */
  function SwapRightPainted(ns: Nodes, p: int, s: int): (r: Nodes)
    requires ns.Sized() && 0 <= p < ns.Size() && 0 <= s < ns.Size() && 0 <= ns.left[s] < ns.Size()
    ensures r.Sized() && r.Size() == ns.Size() && r == ns.(color := r.color)
  {
    Painted(Swapped(ns, p, s), ns.left[s], Black)
  }

  /** The facts about n, p, its black sibling s and s's red left child that case 6 needs, with
      n a right child. */
  ghost predicate SwapRightAt(ns: Nodes, bh: seq<nat>, d: int, n: int, p: int, s: int) {
    var at :=
      SiblingAt(ns, bh, d, n, p, s) && ns.right[p] == n && ns.color[s] == Black &&
      var sn, sf, g := ns.right[s], ns.left[s], ns.parent[p];
      0 <= sf < ns.Size() && ns.color[sf] == Red && BalancedAt(ns, bh, d, sf) && Stand(ns, d, n) != sf &&
      sf != g && (0 <= g < ns.Size() ==> ns.right[g] != sf && ns.left[g] != sf) &&
      RightRotatable(SwapRightPainted(ns, p, s), p) &&
      var a, b := ns.right[sf], ns.left[sf];
      a != d && b != d && a != p && b != p && a != s && b != s && a != sf && b != sf &&
      (a == NIL || 0 <= a < ns.Size()) && (b == NIL || 0 <= b < ns.Size());
    at
  }

  /** Case 6, n a right child: how the recolouring and the rotation about p relink p, s and s's
      left child sf. */
  lemma SwapRightShape(ns: Nodes, d: int, n: int, p: int, s: int)
    requires ns.Sized() && 0 <= n < ns.Size() && 0 <= p < ns.Size() && 0 <= s < ns.Size() && 0 <= d < ns.Size()
    requires 0 <= ns.left[s] < ns.Size() && ns.left[p] == s && ns.right[p] == n
    requires var sf := ns.left[s];
      d != p && d != s && d != ns.parent[p] && n != p && n != s && n != ns.parent[p] &&
      sf != p && sf != s && sf != ns.parent[p]
    requires RightRotatable(SwapRightPainted(ns, p, s), p)
    ensures var sf := ns.left[s];
      var ns1 := RightRotated(SwapRightPainted(ns, p, s), p);
      ns1.color == ns.color[s := NodeColor(ns, p)][p := Black][sf := Black] &&
      ns1.right[p] == n && ns1.left[p] == ns.right[s] && ns1.right[s] == p && ns1.left[s] == sf &&
      ns1.right[sf] == ns.right[sf] && ns1.left[sf] == ns.left[sf] && Stand(ns1, d, n) == Stand(ns, d, n)
  {
    var ns2 := SwapRightPainted(ns, p, s);
    RightRotatedAround(ns2, p);
    RightRotatedAway(ns2, p, d);
    RightRotatedAway(ns2, p, n);
    RightRotatedAway(ns2, p, ns.left[s]);
  }

  /** Case 6 at p, s and s's left child sf, n a right child: s takes p's colour, p and sf turn
      black, and the right rotation about p puts s above p. p keeps n, whose side gains the black
      node it lacked, and takes s's right child; every path through s's old place keeps its black
      nodes. */
  lemma SwapRightNear(ns: Nodes, bh: seq<nat>, ns1: Nodes, d: int, n: int, p: int, s: int, sf: int, cn: int)
    requires ns.Sized() && |bh| == ns.Size() && ns1.Sized() && ns1.Size() == ns.Size()
    requires 0 <= n < ns.Size() && 0 <= p < ns.Size() && 0 <= s < ns.Size() && 0 <= sf < ns.Size()
    requires n != p && s != p && s != n && sf != p && sf != s && sf != n
    requires ns.right[p] == n && ns.left[p] == s && ns.left[s] == sf
    requires var sn, a, b := ns.right[s], ns.right[sf], ns.left[sf];
      sn != p && sn != s && sn != sf && sn != n && (sn == NIL || 0 <= sn < ns.Size()) &&
      a != d && b != d && a != p && b != p && a != s && b != s && a != sf && b != sf &&
      (a == NIL || 0 <= a < ns.Size()) && (b == NIL || 0 <= b < ns.Size()) &&
      d != p && d != s && d != sn && d != sf &&
      cn == Stand(ns, d, n) && cn == Stand(ns1, d, n) && cn != p && cn != s && cn != sf &&
      (cn == NIL || 0 <= cn < ns.Size()) &&
      ns1.color == ns.color[s := NodeColor(ns, p)][p := Black][sf := Black] &&
      ns1.right[p] == n && ns1.left[p] == sn && ns1.right[s] == p && ns1.left[s] == sf &&
      ns1.right[sf] == a && ns1.left[sf] == b
    requires ns.color[s] == Black && ns.color[sf] == Red
    requires BalancedAt(ns, bh, d, s) && BalancedAt(ns, bh, d, sf)
    requires Height(ns, bh, cn) + 1 == bh[p] && Height(ns, bh, s) == bh[p]
    ensures var bh1 := TurnedHeights(SwapRightPainted(ns, p, s), bh, p, s, ns.right[s]);
      BalancedAt(ns1, bh1, d, p) && BalancedAt(ns1, bh1, d, s) && BalancedAt(ns1, bh1, d, sf) &&
      RedOkAt(ns1, d, NIL, p) && RedOkAt(ns1, d, NIL, s) && RedOkAt(ns1, d, NIL, sf) &&
      Height(ns1, bh1, s) == Height(ns, bh, p) && NodeColor(ns1, s) == NodeColor(ns, p)
  {
  }

  /** Case 6 at p, s and sf, n a right child, from the facts it needs. */
  lemma SwapRightAbove(ns: Nodes, bh: seq<nat>, d: int, n: int, p: int, s: int)
    requires SwapRightAt(ns, bh, d, n, p, s)
    ensures var ns2 := SwapRightPainted(ns, p, s);
      var ns1, bh1 := RightRotated(ns2, p), RightRotatedHeights(ns2, bh, p);
      BalancedAt(ns1, bh1, d, p) && BalancedAt(ns1, bh1, d, s) && BalancedAt(ns1, bh1, d, ns.left[s]) &&
      RedOkAt(ns1, d, NIL, p) && RedOkAt(ns1, d, NIL, s) && RedOkAt(ns1, d, NIL, ns.left[s]) &&
      Height(ns1, bh1, s) == Height(ns, bh, p) && NodeColor(ns1, s) == NodeColor(ns, p)
  {
    SwapRightShape(ns, d, n, p, s);
    SwapRightNear(ns, bh, RightRotated(SwapRightPainted(ns, p, s), p), d, n, p, s, ns.left[s], Stand(ns, d, n));
  }

  /** Case 6 at p's parent gg, n a right child: the slot that held p now holds s, with p's colour
      and as many black nodes below it, so the rules at gg hold, with no red node excepted. */
  lemma SwapRightTop(ns: Nodes, bh: seq<nat>, d: int, n: int, p: int, s: int, gg: int)
    requires GrandAt(ns, bh, d, n, p, s, gg)
    requires 0 <= s < ns.Size() && ns.left[p] == s && d != p && d != s && n != p
    requires 0 <= ns.left[s] < ns.Size() && ns.left[s] != gg
    requires ns.right[gg] != ns.left[s] && ns.left[gg] != ns.left[s]
    requires RightRotatable(SwapRightPainted(ns, p, s), p)
    requires var ns2 := SwapRightPainted(ns, p, s);
      var ns1 := RightRotated(ns2, p);
      Height(ns1, RightRotatedHeights(ns2, bh, p), s) == Height(ns, bh, p) && NodeColor(ns1, s) == NodeColor(ns, p)
    ensures var ns2 := SwapRightPainted(ns, p, s);
      var ns1, bh1 := RightRotated(ns2, p), RightRotatedHeights(ns2, bh, p);
      BalancedAt(ns1, bh1, d, gg) && RedOkAt(ns1, d, NIL, gg)
  {
    var ns2 := SwapRightPainted(ns, p, s);
    RightRotatedAround(ns2, p);
    SlotTaken(ns, bh, RightRotated(ns2, p), RightRotatedHeights(ns2, bh, p), d, n, NIL, gg, p, s);
  }

  /** Case 6 at a node k other than p, s, s's left child and p's parent, n a right child: the
      recolouring and the rotation keep the rules at k, and n's red exception is no longer
      needed. */
  lemma SwapRightKept(ns: Nodes, bh: seq<nat>, d: int, n: int, p: int, s: int, k: int)
    requires ns.Sized() && |bh| == ns.Size() && 0 <= p < ns.Size() && 0 <= s < ns.Size()
    requires 0 <= ns.left[s] < ns.Size() && RightRotatable(SwapRightPainted(ns, p, s), p)
    requires ns.left[p] == s && ns.parent[s] == p && ns.parent[ns.left[s]] == s && p != s
    requires 0 <= n < ns.Size() && ns.parent[n] == p
    requires 0 <= k < ns.Size() && k != p && k != s && k != ns.left[s] && k != ns.parent[p] && k != d
    requires ns.right[k] == NIL || (0 <= ns.right[k] < ns.Size() && ns.parent[ns.right[k]] == k)
    requires ns.left[k] == NIL || (0 <= ns.left[k] < ns.Size() && ns.parent[ns.left[k]] == k)
    requires 0 <= d < ns.Size() && d != p && d != s && d != ns.parent[p]
    requires Child(ns, d) != p && Child(ns, d) != s && Child(ns, d) != ns.left[s]
    ensures var ns2 := SwapRightPainted(ns, p, s);
      var ns1, bh1 := RightRotated(ns2, p), RightRotatedHeights(ns2, bh, p);
      (BalancedAt(ns, bh, d, k) ==> BalancedAt(ns1, bh1, d, k)) &&
      (RedOkAt(ns, d, n, k) ==> RedOkAt(ns1, d, NIL, k))
  {
    var ns2 := SwapRightPainted(ns, p, s);
    RightRotatedAround(ns2, p);
    RightRotatedAway(ns2, p, k);
    RightRotatedAway(ns2, p, d);
    var ns1, bh1 := RightRotated(ns2, p), RightRotatedHeights(ns2, bh, p);
    assert forall x | 0 <= x < ns.Size() && x !in {p, s, ns.left[s]} :: ns1.color[x] == ns.color[x] && bh1[x] == bh[x];
    RulesKept(ns, bh, ns1, bh1, {p, s, ns.left[s]}, d, n, NIL, k);
  }

  /** Case 6 with n a right child: the facts it needs about n, p, s and s's left child hold. */
  lemma SwapRightLocal(t: Tree, n: int, d: int)
    requires SwapRightCase(t, n, d)
    ensures var ns, p := t.ns, t.ns.parent[n];
      SwapRightAt(ns, t.bh, d, n, p, ns.left[p])
  {
    var ns, bh, p := t.ns, t.bh, t.ns.parent[n];
    var s := ns.left[p];
    var sf := ns.left[s];
    SiblingLocal(t, n, d);
    Around(ns, t.sub, t.root, n);
    Cousins(t, n, d, sf);
    Turnable(t, p, SwapRightPainted(ns, p, s));
    assert BalancedAt(ns, bh, d, sf);
  }

  /** Case 6 away from p, s, s's left child and p's parent, n a right child. */
  lemma SwapRightFar(t: Tree, n: int, d: int, k: int)
    requires SwapRightCase(t, n, d) && k in Sub(t.sub, t.root) && k != d
    requires var p := t.ns.parent[n];
      k != p && k != t.ns.left[p] && k != t.ns.left[t.ns.left[p]] && k != t.ns.parent[p]
    ensures var ns, p := t.ns, t.ns.parent[n];
      var ns2 := SwapRightPainted(ns, p, ns.left[p]);
      RightRotatable(ns2, p) &&
      var ns1, bh1 := RightRotated(ns2, p), RightRotatedHeights(ns2, t.bh, p);
      0 <= k < ns.Size() && BalancedAt(ns1, bh1, d, k) && RedOkAt(ns1, d, NIL, k)
  {
    var ns, bh, p := t.ns, t.bh, t.ns.parent[n];
    SwapRightLocal(t, n, d);
    DeepBelow(t, n, d);
    Kin(ns, t.sub, t.root, k);
    assert BalancedAt(ns, bh, d, k) && RedOkAt(ns, d, n, k);
    SwapRightKept(ns, bh, d, n, p, ns.left[p], k);
  }

  /** Case 6 with n a right child: after the recolouring and the rotation about p the deficit is
      gone, and the tree, read with d replaced by its child, is a red-black tree. */
  lemma SwapRightBlack(t: Tree, n: int, d: int)
    requires SwapRightCase(t, n, d)
    ensures var ns, p := t.ns, t.ns.parent[n];
      var ns2 := SwapRightPainted(ns, p, ns.left[p]);
      RightRotatable(ns2, p) &&
      RedBlack(RightRotated(ns2, p), Sub(t.sub, t.root), RightRotatedHeights(ns2, t.bh, p), d)
  {
    var ns, L, p := t.ns, Sub(t.sub, t.root), t.ns.parent[n];
    var s, gg := ns.left[p], ns.parent[p];
    SwapRightLocal(t, n, d);
    SwapRightAbove(ns, t.bh, d, n, p, s);
    GrandLocal(t, n, d);
    if gg != NIL {
      SwapRightTop(ns, t.bh, d, n, p, s, gg);
    }
    var ns2 := SwapRightPainted(ns, p, s);
    var ns1, bh1 := RightRotated(ns2, p), RightRotatedHeights(ns2, t.bh, p);
    forall k | k in L && 0 <= k < ns.Size() && k != d
      ensures BalancedAt(ns1, bh1, d, k) && RedOkAt(ns1, d, NIL, k)
    {
      if k != p && k != s && k != ns.left[s] && k != gg {
        SwapRightFar(t, n, d, k);
      }
    }
  }

  // ---------------------------------------------------------------------------------------
  // The repair as a whole
  // ---------------------------------------------------------------------------------------

  /** Case 1: n is the root; painted black, it leaves a red-black tree, and the repair is
      done. */
  lemma RootMended(t: Tree, n: int, d: int)
    requires Mendable(t, n, d) && t.ns.parent[n] == NIL
    ensures 0 <= n < t.ns.Size() && Mended(t, Tree(Painted(t.ns, n, Black), t.root, t.sub, t.bh), d)
  {
    var ns, L := t.ns, Sub(t.sub, t.root);
    Orphan(ns, t.sub, t.root, n);
    assert LinkedAt(ns, t.sub, t.root, d);
    PaintedKept(t, n, Black, d, t.bh);
    var ns1 := Painted(ns, n, Black);
    forall k | k in L && 0 <= k < ns.Size() && k != d
      ensures BalancedAt(ns1, t.bh, d, k) && RedOkAt(ns1, d, NIL, k)
    {
      Kin(ns, t.sub, t.root, k);
      assert BalancedAt(ns, t.bh, d, k) && RedOkAt(ns, d, n, k);
      var c := Child(ns, d);
      if c != NIL {
        assert LinkedAt(ns, t.sub, t.root, c);
      }
      RulesKept(ns, t.bh, ns1, t.bh, {n}, d, n, NIL, k);
    }
  }

  /** A step that keeps what fixTreeForDeletion promises can be followed by the rest of the
      repair. */
  lemma MendedAfter(t: Tree, t1: Tree, r: Tree, d: int)
    requires Follows(t, t1, d) && Mended(t1, r, d)
    ensures Mended(t, r, d)
  {
  }

  /** Case 2 on the way: the repair stays mendable at n, and afterwards n's sibling is
      black. */
  lemma LiftStep(t: Tree, n: int, d: int)
    requires Mendable(t, n, d) && t.ns.parent[n] != NIL
    ensures LiftReady(t, n) && Follows(t, SiblingLifted(t, n), d)
    ensures var t1 := SiblingLifted(t, n);
      Deficit(t1, n, d) && Framed(t1, n, d) && t1.ns.parent[n] == t.ns.parent[n] &&
      0 <= t1.ns.parent[n] < t1.ns.Size() &&
      Sub(t1.sub, t1.root) - Sub(t1.sub, n) == Sub(t.sub, t.root) - Sub(t.sub, n) &&
      NodeColor(t1.ns, Sibling(t1.ns, n)) == Black
  {
    var ns := t.ns;
    Orphan(ns, t.sub, t.root, n);
    LiftFacts(t, n, d);
    var p, t1 := ns.parent[n], SiblingLifted(t, n);
    TreeNodes.Family(ns, t.sub, t.root, n);
    if NodeColor(ns, Sibling(ns, n)) == Red {
      if n == ns.left[p] {
        LiftLeftShort(t, n, d);
      } else {
        LiftRightShort(t, n, d);
      }
    }
  }

  /** Case 3 on the way: with p black, painting s red leaves the repair mendable at p, nearer
      the root. */
  lemma CarryStep(t: Tree, n: int, d: int)
    requires ClimbCase(t, n, d) && Framed(t, n, d) && NodeColor(t.ns, t.ns.parent[n]) == Black
    ensures var ns, p := t.ns, t.ns.parent[n];
      t.bh[p] >= 1 &&
      var t3 := Tree(Painted(ns, Sibling(ns, n), Red), t.root, t.sub, Lowered(t.bh, p));
      Mendable(t3, p, d) && Follows(t, t3, d) &&
      Sub(t3.sub, t3.root) - Sub(t3.sub, p) < Sub(t.sub, t.root) - Sub(t.sub, n)
  {
    ClimbShort(t, n, d);
    ClimbFacts(t, n, d, Lowered(t.bh, t.ns.parent[n]));
  }

  /** Case 4 on the way: with p red, painting s red and p black ends the repair. */
  lemma RecolorStep(t: Tree, n: int, d: int)
    requires ClimbCase(t, n, d) && Framed(t, n, d) && NodeColor(t.ns, t.ns.parent[n]) == Red
    ensures var ns, p := t.ns, t.ns.parent[n];
      t.bh[p] >= 1 &&
      Mended(t, Tree(Painted(Painted(ns, Sibling(ns, n), Red), p, Black), t.root, t.sub, Lowered(t.bh, p)), d)
  {
    RecolorBlack(t, n, d);
    RecolorFacts(t, n, d, Lowered(t.bh, t.ns.parent[n]));
  }

  /** The black sibling of n, once cases 3 and 4 have not applied: one of its children is
      red. */
  ghost predicate RedNephew(t: Tree, n: int, d: int) {
    Deficit(t, n, d) && Framed(t, n, d) && 0 <= t.ns.parent[n] < t.ns.Size() &&
    var s := Sibling(t.ns, n);
    0 <= s < t.ns.Size() && t.ns.color[s] == Black &&
    (NodeColor(t.ns, t.ns.left[s]) == Red || NodeColor(t.ns, t.ns.right[s]) == Red)
  }

  /** n's black sibling has a red far child: case 6 applies. */
  ghost predicate RedFar(t: Tree, n: int, d: int) {
    Deficit(t, n, d) && Framed(t, n, d) && 0 <= t.ns.parent[n] < t.ns.Size() &&
    var s := Sibling(t.ns, n);
    0 <= s < t.ns.Size() && t.ns.color[s] == Black && NodeColor(t.ns, FarNephew(t.ns, n)) == Red
  }

  /** The repair pending at n, n's side short, and n's sibling black with a red far child:
      case 6 applies. */
  lemma RedFarFrom(t: Tree, n: int, d: int, p: int, left: bool)
    requires Pending(t, n, d) && Short(t, n, d) && 0 <= p < t.ns.Size() && t.ns.parent[n] == p
    requires left ==>
      t.ns.left[p] == n && NodeColor(t.ns, t.ns.right[p]) == Black &&
      0 <= t.ns.right[p] < t.ns.Size() && NodeColor(t.ns, t.ns.right[t.ns.right[p]]) == Red
    requires !left ==>
      t.ns.right[p] == n && NodeColor(t.ns, t.ns.left[p]) == Black &&
      0 <= t.ns.left[p] < t.ns.Size() && NodeColor(t.ns, t.ns.left[t.ns.left[p]]) == Red
    ensures RedFar(t, n, d)
  {
    TreeNodes.Family(t.ns, t.sub, t.root, n);
  }

  /** Case 5 on the way: whether or not it rotates, the repair stays mendable at n, whose
      black sibling now has a red far child. */
  lemma NephewStep(t: Tree, n: int, d: int)
    requires RedNephew(t, n, d)
    ensures NephewReady(t, n) && Follows(t, NephewRotated(t, n), d) && RedFar(NephewRotated(t, n), n, d)
  {
    var ns := t.ns;
    Orphan(ns, t.sub, t.root, n);
    NephewFacts(t, n, d);
    if NearLeft(ns, n) {
      TreeNodes.Family(ns, t.sub, t.root, n);
      NephewLeftStep(t, n, d);
    } else if NearRight(ns, n) {
      TreeNodes.Family(ns, t.sub, t.root, n);
      NephewRightStep(t, n, d);
    } else {
      TreeNodes.Family(ns, t.sub, t.root, n);
    }
  }

  /** Case 5 with n a left child, as a step on trees: recolour s and its left child, then
      rotate s right. */
  lemma NephewLeftIs(t: Tree, n: int)
    requires NephewReady(t, n) && NearLeft(t.ns, n)
    ensures var ns, p := t.ns, t.ns.parent[n];
      var s := ns.right[p];
      0 <= s < ns.Size() && 0 <= ns.left[s] < ns.Size() &&
      var ns2 := Painted(Painted(ns, s, Red), ns.left[s], Black);
      RightRotatable(ns2, s) && NephewRotated(t, n).ns == RightRotated(ns2, s) &&
      NephewRotated(t, n).bh == RightRotatedHeights(ns2, t.bh, s)
  {
  }

  /** Case 5 with n a left child, on the way. */
  lemma NephewLeftStep(t: Tree, n: int, d: int)
    requires NephewLeftCase(t, n, d) && NearLeft(t.ns, n)
    requires NephewReady(t, n) && StepKept(t, NephewRotated(t, n), n, d)
    ensures RedFar(NephewRotated(t, n), n, d)
  {
    var ns, p := t.ns, t.ns.parent[n];
    NephewLeftShort(t, n, d);
    NephewLeftIs(t, n);
    var t5 := NephewRotated(t, n);
    assert ShortBelow(t5.ns, Sub(t5.sub, t5.root), t5.bh, d, n, p);
    RedFarFrom(t5, n, d, p, true);
  }

  /** Case 5 with n a right child, as a step on trees: recolour s and its right child, then
      rotate s left. */
  lemma NephewRightIs(t: Tree, n: int)
    requires NephewReady(t, n) && NearRight(t.ns, n)
    ensures var ns, p := t.ns, t.ns.parent[n];
      var s := ns.left[p];
      0 <= s < ns.Size() && 0 <= ns.right[s] < ns.Size() &&
      var ns2 := Painted(Painted(ns, s, Red), ns.right[s], Black);
      LeftRotatable(ns2, s) && NephewRotated(t, n).ns == LeftRotated(ns2, s) &&
      NephewRotated(t, n).bh == LeftRotatedHeights(ns2, t.bh, s)
  {
  }

  /** Case 5 with n a right child, on the way. */
  lemma NephewRightStep(t: Tree, n: int, d: int)
    requires NephewRightCase(t, n, d) && NearRight(t.ns, n)
    requires NephewReady(t, n) && StepKept(t, NephewRotated(t, n), n, d)
    ensures RedFar(NephewRotated(t, n), n, d)
  {
    var ns, p := t.ns, t.ns.parent[n];
    NephewRightShort(t, n, d);
    NephewRightIs(t, n);
    var t5 := NephewRotated(t, n);
    assert ShortBelow(t5.ns, Sub(t5.sub, t5.root), t5.bh, d, n, p);
    RedFarFrom(t5, n, d, p, false);
  }

  /** Case 6 on the way: the recolouring and the rotation about p end the repair. */
  lemma FarStep(t: Tree, n: int, d: int)
    requires RedFar(t, n, d)
    ensures FarReady(t, n) && Mended(t, FarRotated(t, n), d)
  {
    var ns, p := t.ns, t.ns.parent[n];
    Orphan(ns, t.sub, t.root, n);
    FarFacts(t, n, d);
    TreeNodes.Family(ns, t.sub, t.root, n);
    if n == ns.left[p] {
      SwapLeftBlack(t, n, d);
    } else {
      SwapRightBlack(t, n, d);
    }
  }

  /** fixTreeForDeletion(n): the colour repair delete runs at the node d it is about to splice
      out when d is black, climbing from n (d itself, or an ancestor in case 3) towards the
      root. The root is painted black (case 1); otherwise a red sibling is first rotated up
      (case 2) and cases 3 to 6 follow in SiblingBlackFixed. The outcome is a settled tree that,
      read with d replaced by its child, is a red-black tree. */
  ghost function DeleteFixedAt(t: Tree, n: int, d: int): (r: Tree)
    requires Mendable(t, n, d)
    ensures Mended(t, r, d)
    decreases Sub(t.sub, t.root) - Sub(t.sub, n), 1
  {
    if t.ns.parent[n] == NIL then
      RootMended(t, n, d);
      Tree(Painted(t.ns, n, Black), t.root, t.sub, t.bh)
    else
      LiftStep(t, n, d);
      var t1 := SiblingLifted(t, n);
      var r := SiblingBlackFixed(t1, n, d);
      MendedAfter(t, t1, r, d);
      r
  }

  /** Cases 3 to 6 of fixTreeForDeletion, below a parent p with a black sibling s, in the order
      of the Java code: with s's children black, s turns red and either the repair climbs to a
      black p (case 3) or a red p turns black (case 4); otherwise cases 5 and 6 rotate. */
  ghost function SiblingBlackFixed(t: Tree, n: int, d: int): (r: Tree)
    requires Deficit(t, n, d) && Framed(t, n, d) && 0 <= t.ns.parent[n] < t.ns.Size()
    requires NodeColor(t.ns, Sibling(t.ns, n)) == Black
    ensures Mended(t, r, d)
    decreases Sub(t.sub, t.root) - Sub(t.sub, n), 0
  {
    SiblingExists(t, n, d);
    var ns, p := t.ns, t.ns.parent[n];
    var s := Sibling(ns, n);
    if NodeColor(ns, p) == Black && NodeColor(ns, s) == Black &&
       NodeColor(ns, ns.left[s]) == Black && NodeColor(ns, ns.right[s]) == Black then
      CarryStep(t, n, d);
      var t3 := Tree(Painted(ns, s, Red), t.root, t.sub, Lowered(t.bh, p));
      var r := DeleteFixedAt(t3, p, d);
      MendedAfter(t, t3, r, d);
      r
    else if NodeColor(ns, p) == Red && NodeColor(ns, s) == Black &&
            NodeColor(ns, ns.left[s]) == Black && NodeColor(ns, ns.right[s]) == Black then
      RecolorStep(t, n, d);
      Tree(Painted(Painted(ns, s, Red), p, Black), t.root, t.sub, Lowered(t.bh, p))
    else
      NephewStep(t, n, d);
      var t5 := NephewRotated(t, n);
      FarStep(t5, n, d);
      var r := FarRotated(t5, n);
      MendedAfter(t, t5, r, d);
      r
  }
}
