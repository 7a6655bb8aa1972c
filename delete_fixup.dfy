/** fixTreeForDeletion of IntervalTree.java, the colour repair delete runs before it splices out a
    black node, described by its effect on the arena, and the proof that it keeps the search-tree
    part of the invariant, leaves a black root and does not touch the children of the node about
    to be spliced out. The colour rules it restores are proved in DeleteColors. */
module DeleteFixups {
  import opened Intervals
  import opened TreeNodes
  import opened LeftRotations
  import opened RightRotations
  import opened BlackHeights
  import opened InsertFixups

  /** One colour assignment `i.color = c`. */
  function Painted(ns: Nodes, i: int, c: Color): (r: Nodes)
    requires ns.Sized() && 0 <= i < ns.Size()
    ensures r.Sized() && r.Size() == ns.Size()
  {
    ns.(color := ns.color[i := c])
  }

  /** fixTreeForDeletion(n) may start: the tree is sound except at d, the node delete is about to
      splice out, which lies in n's subtree; the root is black unless it is n itself. */
  ghost predicate Framed(t: Tree, n: int, d: int) {
    var framed :=
      Sound(t.ns, t.sub, t.root, d) && n in Sub(t.sub, t.root) && d in Sub(t.sub, n) &&
      (NodeColor(t.ns, t.root) == Black || t.root == n) && |t.bh| == t.ns.Size();
    framed
  }

  /** Below n, the repair climbs on: n is not the root, so the root is black. */
  ghost predicate Pending(t: Tree, n: int, d: int) {
    Framed(t, n, d) && n != t.root
  }

  /** d keeps its children. */
  ghost predicate Untouched(t0: Tree, t: Tree, d: int) {
    var untouched :=
      t0.ns.Sized() && t.ns.Sized() && 0 <= d < t0.ns.Size() && 0 <= d < t.ns.Size() &&
      t.ns.left[d] == t0.ns.left[d] && t.ns.right[d] == t0.ns.right[d];
    untouched
  }

  /** t follows from t0 by steps of the repair: the same nodes, keys and values, and d keeps its
      children. */
  ghost predicate Follows(t0: Tree, t: Tree, d: int) {
    var follows := Kept(t0, t) && Untouched(t0, t, d);
    follows
  }

  /** What fixTreeForDeletion promises delete: a tree that is still sound except at d, over the
      same nodes with the same keys and values, with a black root, and with d's children where
      they were, so that d can still be spliced out. */
  ghost predicate Settled(t0: Tree, t: Tree, d: int) {
    var settled :=
      Sound(t.ns, t.sub, t.root, d) && NodeColor(t.ns, t.root) == Black && Follows(t0, t, d) &&
      |t.bh| == t.ns.Size();
    settled
  }

  /** Among the live nodes, exactly the root has no parent. */
  lemma Orphan(ns: Nodes, sub: seq<set<int>>, root: int, i: int)
    requires Linked(ns, sub, root) && i in Sub(sub, root)
    ensures 0 <= i < ns.Size() && (ns.parent[i] == NIL <==> i == root)
  {
    assert LinkedAt(ns, sub, root, i);
  }

  /** Recolouring keeps everything fixTreeForDeletion promises except the colour of the root. */
  lemma PaintedKept(t: Tree, i: int, c: Color, d: int, hs: seq<nat>)
    requires Sound(t.ns, t.sub, t.root, d) && 0 <= i < t.ns.Size() && 0 <= d < t.ns.Size()
    ensures var t1 := Tree(Painted(t.ns, i, c), t.root, t.sub, hs);
      Sound(t1.ns, t1.sub, t1.root, d) && Follows(t, t1, d)
  {
    SoundIgnoresColor(t.ns, Painted(t.ns, i, c).color, t.sub, t.root, d);
  }

  // ---------------------------------------------------------------------------------------
  // Case 2: a red sibling
  // ---------------------------------------------------------------------------------------

  /** The pointers case 2 follows exist, and so does the rotation it performs. */
  ghost predicate LiftReady(t: Tree, n: int) {
    var ns := t.ns;
    var ready :=
      ns.Sized() && |t.sub| == ns.Size() && |t.bh| == ns.Size() && 0 <= n < ns.Size() &&
      var p := ns.parent[n];
      0 <= p < ns.Size() &&
      var s := Sibling(ns, n);
      (NodeColor(ns, s) == Red ==>
         0 <= s < ns.Size() &&
         var ns2 := Painted(Painted(ns, p, Red), s, Black);
         (n == ns.left[p] ==> LeftRotatable(ns2, p)) && (n != ns.left[p] ==> RightRotatable(ns2, p)));
    ready
  }

  /** Case 2 of fixTreeForDeletion: when n's sibling s is red, the parent p turns red, s black,
      and the rotation about p (left when n is p's left child, right otherwise) brings s up. */
  ghost function SiblingLifted(t: Tree, n: int): Tree
    requires LiftReady(t, n)
  {
    var ns, p := t.ns, t.ns.parent[n];
    var s := Sibling(ns, n);
    if NodeColor(ns, s) != Red then t
    else
      var ns2 := Painted(Painted(ns, p, Red), s, Black);
      if n == ns.left[p] then TurnedLeft(Tree(ns2, t.root, t.sub, t.bh), p)
      else TurnedRight(Tree(ns2, t.root, t.sub, t.bh), p)
  }

  /** What a step of the repair below n keeps: the repair is still pending at n with the same
      parent and the same subtree, and nothing that fixTreeForDeletion promises has been lost. */
  ghost predicate StepKept(t: Tree, t1: Tree, n: int, d: int) {
    var kept :=
      Pending(t1, n, d) && Follows(t, t1, d) && Sub(t1.sub, n) == Sub(t.sub, n) &&
      t.ns.Sized() && 0 <= n < t.ns.Size() && t1.ns.Sized() && t1.ns.Size() == t.ns.Size() &&
      t1.ns.parent[n] == t.ns.parent[n] &&
      0 <= t.ns.parent[n] < t.ns.Size() &&
      (t1.ns.left[t.ns.parent[n]] == n <==> t.ns.left[t.ns.parent[n]] == n);
    kept
  }

  /** What a rotation that leaves n in place, below p, does: the tree is still sound except at
      d, with the same nodes, keys, values and colours; d keeps its children; and n stays p's
      child on the same side, with the same subtree. */
  ghost predicate Moved(t: Tree, t1: Tree, p: int, n: int, d: int) {
    var moved :=
      Sound(t1.ns, t1.sub, t1.root, d) && Follows(t, t1, d) &&
      t1.ns.color == t.ns.color && 0 <= p < t.ns.Size() && 0 <= n < t.ns.Size() &&
      |t1.bh| == t1.ns.Size() &&
      t1.ns.parent[n] == p && (t1.ns.left[p] == n <==> t.ns.left[p] == n) &&
      Sub(t1.sub, n) == Sub(t.sub, n);
    moved
  }

  /** A rotation about n's parent p: n is moved as above, and the root is either unchanged or c,
      the child the rotation brought up. */
  ghost predicate LiftedBeside(t: Tree, t1: Tree, p: int, n: int, c: int, d: int) {
    var lifted := Moved(t, t1, p, n, d) && (t1.root == t.root || t1.root == c);
    lifted
  }

  /** The left-rotation relinking about p leaves p's left child n where it was, with its subtree
      and with the children of every node below it. */
  lemma LeftRelinkedBeside(ns0: Nodes, root0: int, sub0: seq<set<int>>,
                            ns: Nodes, root: int, sub: seq<set<int>>, p: int, n: int, d: int)
    requires Linked(ns0, sub0, root0) && p in Sub(sub0, root0) && 0 <= p < ns0.Size()
    requires ns0.right[p] != NIL && n == ns0.left[p] && n != NIL && d in Sub(sub0, n)
    requires LeftRelinked(ns0, root0, sub0, ns, root, sub, p)
    ensures 0 <= n < ns.Size() && 0 <= d < ns.Size() &&
      ns0.right[p] != d && ns.parent[n] == p && ns.left[p] == n && ns.right[p] != n && sub[n] == sub0[n] &&
      ns.left[d] == ns0.left[d] && ns.right[d] == ns0.right[d] &&
      (root == root0 || root == ns0.right[p])
  {
    var c := ns0.right[p];
    RotationNeighbours(ns0, sub0, root0, p, c);
    RotationParent(ns0, sub0, root0, p, c);
    assert LinkedAt(ns0, sub0, root0, p);
    assert LinkedAt(ns0, sub0, root0, n);
    SubNested(ns0, sub0, root0, n, d);
    SubNested(ns0, sub0, root0, p, n);
    assert d in sub0[p] && d !in sub0[c];
  }

  /** rotateLeft(p) as a step on trees. */
  ghost function TurnedLeft(t: Tree, p: int): Tree
    requires LeftRotatable(t.ns, p) && |t.sub| == t.ns.Size() && |t.bh| == t.ns.Size()
  {
    Tree(LeftRotated(t.ns, p), ReplacedRoot(t.ns, t.root, p, t.ns.right[p]), LeftRotatedSub(t.ns, t.sub, p),
         LeftRotatedHeights(t.ns, t.bh, p))
  }

  /** rotateLeft(p), on a tree sound except at a node d below p's left child n, keeps it sound except
      at d and keeps n below p with its subtree. */
  lemma LeftLifted(t: Tree, p: int, n: int, d: int)
    requires Sound(t.ns, t.sub, t.root, d) && p in Sub(t.sub, t.root) && 0 <= p < t.ns.Size() && |t.bh| == t.ns.Size()
    requires t.ns.right[p] != NIL && n == t.ns.left[p] && n != NIL && d in Sub(t.sub, n)
    ensures LeftRotatable(t.ns, p) && LiftedBeside(t, TurnedLeft(t, p), p, n, t.ns.right[p], d)
  {
    LeftRotatedIsLeftRotation(t.ns, t.root, t.sub, p);
    var t1 := TurnedLeft(t, p);
    LeftRelinkedBeside(t.ns, t.root, t.sub, t1.ns, t1.root, t1.sub, p, n, d);
    LeftRotatedSound(t.ns, t.root, t.sub, p, d);
  }

  /** The right-rotation relinking about p leaves p's right child n where it was, with its subtree
      and with the children of every node below it. */
  lemma RightRelinkedBeside(ns0: Nodes, root0: int, sub0: seq<set<int>>,
                            ns: Nodes, root: int, sub: seq<set<int>>, p: int, n: int, d: int)
    requires Linked(ns0, sub0, root0) && p in Sub(sub0, root0) && 0 <= p < ns0.Size()
    requires ns0.left[p] != NIL && n == ns0.right[p] && n != NIL && d in Sub(sub0, n)
    requires RightRelinked(ns0, root0, sub0, ns, root, sub, p)
    ensures 0 <= n < ns.Size() && 0 <= d < ns.Size() &&
      ns0.left[p] != d && ns.parent[n] == p && ns.right[p] == n && ns.left[p] != n && sub[n] == sub0[n] &&
      ns.left[d] == ns0.left[d] && ns.right[d] == ns0.right[d] &&
      (root == root0 || root == ns0.left[p])
  {
    var c := ns0.left[p];
    RotationNeighbours(ns0, sub0, root0, p, c);
    RotationParent(ns0, sub0, root0, p, c);
    assert LinkedAt(ns0, sub0, root0, p);
    assert LinkedAt(ns0, sub0, root0, n);
    SubNested(ns0, sub0, root0, n, d);
    SubNested(ns0, sub0, root0, p, n);
    assert d in sub0[p] && d !in sub0[c];
  }

  /** rotateRight(p) as a step on trees. */
  ghost function TurnedRight(t: Tree, p: int): Tree
    requires RightRotatable(t.ns, p) && |t.sub| == t.ns.Size() && |t.bh| == t.ns.Size()
  {
    Tree(RightRotated(t.ns, p), ReplacedRoot(t.ns, t.root, p, t.ns.left[p]), RightRotatedSub(t.ns, t.sub, p),
         RightRotatedHeights(t.ns, t.bh, p))
  }

  /** rotateRight(p), on a tree sound except at a node d below p's right child n, keeps it sound except
      at d and keeps n below p with its subtree. */
  lemma RightLifted(t: Tree, p: int, n: int, d: int)
    requires Sound(t.ns, t.sub, t.root, d) && p in Sub(t.sub, t.root) && 0 <= p < t.ns.Size() && |t.bh| == t.ns.Size()
    requires t.ns.left[p] != NIL && n == t.ns.right[p] && n != NIL && d in Sub(t.sub, n)
    ensures RightRotatable(t.ns, p) && LiftedBeside(t, TurnedRight(t, p), p, n, t.ns.left[p], d)
  {
    RightRotatedIsRightRotation(t.ns, t.root, t.sub, p);
    var t1 := TurnedRight(t, p);
    RightRelinkedBeside(t.ns, t.root, t.sub, t1.ns, t1.root, t1.sub, p, n, d);
    RightRotatedSound(t.ns, t.root, t.sub, p, d);
  }

  /** A recolouring of t followed by a rotation that leaves n in place, ending with a black root,
      keeps the repair pending at n. */
  lemma RecoloredStep(t: Tree, t2: Tree, t1: Tree, p: int, n: int, d: int)
    requires Pending(t, n, d) && 0 <= n < t.ns.Size() && p == t.ns.parent[n]
    requires t2.root == t.root && t2.sub == t.sub && t2.ns == t.ns.(color := t2.ns.color)
    requires Moved(t2, t1, p, n, d) && t1.root != n && NodeColor(t1.ns, t1.root) == Black
    ensures StepKept(t, t1, n, d)
  {
  }

  /** A recolouring of t followed by a rotation that leaves n in place, ending with a black root,
      completes the repair. */
  lemma RecoloredEnd(t: Tree, t2: Tree, t1: Tree, p: int, n: int, d: int)
    requires t.ns.Sized() && t2.root == t.root && t2.sub == t.sub && t2.ns == t.ns.(color := t2.ns.color)
    requires Moved(t2, t1, p, n, d) && NodeColor(t1.ns, t1.root) == Black
    ensures Settled(t, t1, d)
  {
  }

  /** Case 2 when n is a left child: rotating the recoloured parent left keeps the repair
      pending at n. */
  lemma LiftLeft(t: Tree, n: int, d: int)
    requires Pending(t, n, d) && LiftReady(t, n)
    requires n == t.ns.left[t.ns.parent[n]] && NodeColor(t.ns, Sibling(t.ns, n)) == Red
    ensures StepKept(t, SiblingLifted(t, n), n, d)
  {
    var ns, p, s := t.ns, t.ns.parent[n], Sibling(t.ns, n);
    var t2 := Tree(Painted(Painted(ns, p, Red), s, Black), t.root, t.sub, t.bh);
    LiftLeftMoved(t, n, d);
    assert SiblingLifted(t, n) == TurnedLeft(t2, p);
    RecoloredStep(t, t2, SiblingLifted(t, n), p, n, d);
  }

  /** The rotation of LiftLeft on the recoloured tree moves n as a step of the repair may, and
      the root it leaves is black. */
  lemma LiftLeftMoved(t: Tree, n: int, d: int)
    requires Pending(t, n, d) && LiftReady(t, n)
    requires n == t.ns.left[t.ns.parent[n]] && NodeColor(t.ns, Sibling(t.ns, n)) == Red
    ensures var ns, p, s := t.ns, t.ns.parent[n], Sibling(t.ns, n);
      var t2 := Tree(Painted(Painted(ns, p, Red), s, Black), t.root, t.sub, t.bh);
      LeftRotatable(t2.ns, p) &&
      var t1 := TurnedLeft(t2, p);
      Moved(t2, t1, p, n, d) && t1.root != n && NodeColor(t1.ns, t1.root) == Black
  {
    var ns, p, s := t.ns, t.ns.parent[n], Sibling(t.ns, n);
    TreeNodes.Family(ns, t.sub, t.root, n);
    var t2 := Tree(Painted(Painted(ns, p, Red), s, Black), t.root, t.sub, t.bh);
    SoundIgnoresColor(ns, t2.ns.color, t.sub, t.root, d);
    LeftLifted(t2, p, n, d);
    var t1 := TurnedLeft(t2, p);
    if p == t.root {
      assert t1.root == s;
    } else {
      assert t1.root == t.root;
    }
  }

  /** Case 2 when n is a right child: the mirror image of LiftLeft. */
  lemma LiftRight(t: Tree, n: int, d: int)
    requires Pending(t, n, d) && LiftReady(t, n)
    requires n != t.ns.left[t.ns.parent[n]] && NodeColor(t.ns, Sibling(t.ns, n)) == Red
    ensures StepKept(t, SiblingLifted(t, n), n, d)
  {
    var ns, p, s := t.ns, t.ns.parent[n], Sibling(t.ns, n);
    var t2 := Tree(Painted(Painted(ns, p, Red), s, Black), t.root, t.sub, t.bh);
    LiftRightMoved(t, n, d);
    assert SiblingLifted(t, n) == TurnedRight(t2, p);
    RecoloredStep(t, t2, SiblingLifted(t, n), p, n, d);
  }

  /** The rotation of LiftRight on the recoloured tree moves n as a step of the repair may, and
      the root it leaves is black. */
  lemma LiftRightMoved(t: Tree, n: int, d: int)
    requires Pending(t, n, d) && LiftReady(t, n)
    requires n != t.ns.left[t.ns.parent[n]] && NodeColor(t.ns, Sibling(t.ns, n)) == Red
    ensures var ns, p, s := t.ns, t.ns.parent[n], Sibling(t.ns, n);
      var t2 := Tree(Painted(Painted(ns, p, Red), s, Black), t.root, t.sub, t.bh);
      RightRotatable(t2.ns, p) &&
      var t1 := TurnedRight(t2, p);
      Moved(t2, t1, p, n, d) && t1.root != n && NodeColor(t1.ns, t1.root) == Black
  {
    var ns, p, s := t.ns, t.ns.parent[n], Sibling(t.ns, n);
    TreeNodes.Family(ns, t.sub, t.root, n);
    var t2 := Tree(Painted(Painted(ns, p, Red), s, Black), t.root, t.sub, t.bh);
    SoundIgnoresColor(ns, t2.ns.color, t.sub, t.root, d);
    RightLifted(t2, p, n, d);
    var t1 := TurnedRight(t2, p);
    if p == t.root {
      assert t1.root == s;
    } else {
      assert t1.root == t.root;
    }
  }

  /** The rotation of case 2 is possible wherever the repair is pending. */
  lemma LiftApplies(t: Tree, n: int, d: int)
    requires Pending(t, n, d)
    ensures LiftReady(t, n)
  {
    var ns, p := t.ns, t.ns.parent[n];
    TreeNodes.Family(ns, t.sub, t.root, n);
    var s := Sibling(ns, n);
    if NodeColor(ns, s) == Red {
      var ns2 := Painted(Painted(ns, p, Red), s, Black);
      SoundIgnoresColor(ns, ns2.color, t.sub, t.root, d);
      LeftRotatableLinked(ns2, t.root, t.sub, p);
      RightRotatableLinked(ns2, t.root, t.sub, p);
    }
  }

  /** Case 2 as a whole: it applies wherever the repair is pending, and keeps it pending at n. */
  lemma LiftFacts(t: Tree, n: int, d: int)
    requires Pending(t, n, d)
    ensures LiftReady(t, n) && StepKept(t, SiblingLifted(t, n), n, d)
  {
    LiftApplies(t, n, d);
    TreeNodes.Family(t.ns, t.sub, t.root, n);
    var ns, p := t.ns, t.ns.parent[n];
    if NodeColor(ns, Sibling(ns, n)) == Red {
      if n == ns.left[p] {
        LiftLeft(t, n, d);
      } else {
        LiftRight(t, n, d);
      }
    } else {
      assert LinkedAt(ns, t.sub, t.root, n);
      SubNested(ns, t.sub, t.root, n, d);
    }
  }

  /** While the repair is pending at n, n has a parent, and its sibling, if any, is a node. */
  lemma SiblingInRange(t: Tree, n: int, d: int)
    requires Pending(t, n, d)
    ensures 0 <= n < t.ns.Size() && 0 <= t.ns.parent[n] < t.ns.Size()
    ensures Sibling(t.ns, n) == NIL || 0 <= Sibling(t.ns, n) < t.ns.Size()
  {
    TreeNodes.Family(t.ns, t.sub, t.root, n);
  }

  // ---------------------------------------------------------------------------------------
  // Cases 3 and 4: a black sibling with black children
  // ---------------------------------------------------------------------------------------

  /** Case 3 of fixTreeForDeletion, structurally: the black sibling s turns red and the repair
      climbs to the parent p, which lies strictly above n. DeleteColors.CarryStep proves the
      colour rules. */
  lemma ClimbFacts(t: Tree, n: int, d: int, hs: seq<nat>)
    requires Pending(t, n, d) && 0 <= n < t.ns.Size() && 0 <= t.ns.parent[n] < t.ns.Size()
    requires Sibling(t.ns, n) != NIL && |hs| == t.ns.Size()
    ensures var ns, p, s := t.ns, t.ns.parent[n], Sibling(t.ns, n);
      0 <= s < ns.Size() &&
      var t3 := Tree(Painted(ns, s, Red), t.root, t.sub, hs);
      Framed(t3, p, d) && Follows(t, t3, d) &&
      Sub(t.sub, t.root) - Sub(t.sub, p) < Sub(t.sub, t.root) - Sub(t.sub, n)
  {
    var ns, p, s := t.ns, t.ns.parent[n], Sibling(t.ns, n);
    TreeNodes.Family(ns, t.sub, t.root, n);
    assert LinkedAt(ns, t.sub, t.root, s);
    SubNested(ns, t.sub, t.root, n, d);
    PaintedKept(t, s, Red, d, hs);
    SubNested(ns, t.sub, t.root, p, n);
    SubNested(ns, t.sub, t.root, t.root, p);
    assert s != t.root;
    assert LinkedAt(ns, t.sub, t.root, p);
  }

  /** Case 4 of fixTreeForDeletion, structurally: the black sibling s turns red and p black,
      and the tree is settled. DeleteColors.RecolorStep proves the colour rules. */
  lemma RecolorFacts(t: Tree, n: int, d: int, hs: seq<nat>)
    requires Pending(t, n, d) && 0 <= n < t.ns.Size() && 0 <= t.ns.parent[n] < t.ns.Size()
    requires Sibling(t.ns, n) != NIL && |hs| == t.ns.Size()
    ensures var ns, p, s := t.ns, t.ns.parent[n], Sibling(t.ns, n);
      0 <= s < ns.Size() &&
      Settled(t, Tree(Painted(Painted(ns, s, Red), p, Black), t.root, t.sub, hs), d)
  {
    var ns, p, s := t.ns, t.ns.parent[n], Sibling(t.ns, n);
    TreeNodes.Family(ns, t.sub, t.root, n);
    assert LinkedAt(ns, t.sub, t.root, s);
    SubNested(ns, t.sub, t.root, n, d);
    PaintedKept(t, s, Red, d, t.bh);
    PaintedKept(Tree(Painted(ns, s, Red), t.root, t.sub, t.bh), p, Black, d, hs);
  }

  // ---------------------------------------------------------------------------------------
  // Case 5: the near nephew is red, the far one black
  // ---------------------------------------------------------------------------------------

  /** The right-rotation relinking about n's sibling s: n, its subtree, its parent p and the
      children of the nodes below n stay; s's left child c becomes n's sibling. */
  lemma RightRelinkedUnder(ns0: Nodes, root0: int, sub0: seq<set<int>>,
                           ns: Nodes, root: int, sub: seq<set<int>>, s: int, n: int, d: int)
    requires Linked(ns0, sub0, root0) && s in Sub(sub0, root0) && 0 <= s < ns0.Size()
    requires ns0.left[s] != NIL && 0 <= ns0.parent[s] < ns0.Size()
    requires RightRelinked(ns0, root0, sub0, ns, root, sub, s)
    requires n != NIL && n != s && (n == ns0.left[ns0.parent[s]] || n == ns0.right[ns0.parent[s]])
    requires d in Sub(sub0, n)
    ensures ns0.left[s] != d
    ensures var p := ns0.parent[s];
      0 <= n < ns.Size() && 0 <= d < ns.Size() && root == root0 &&
      ns.parent[n] == p && (ns.left[p] == n <==> ns0.left[p] == n) && (ns.left[p] == n || ns.right[p] == n) &&
      (ns.left[p] == ns0.left[s] || ns.right[p] == ns0.left[s]) && ns0.left[s] != n &&
      sub[n] == sub0[n] && ns.left[d] == ns0.left[d] && ns.right[d] == ns0.right[d]
  {
    var c, p := ns0.left[s], ns0.parent[s];
    RotationNeighbours(ns0, sub0, root0, s, c);
    RotationParent(ns0, sub0, root0, s, c);
    assert LinkedAt(ns0, sub0, root0, p);
    assert LinkedAt(ns0, sub0, root0, n);
    SubNested(ns0, sub0, root0, n, d);
    SubNested(ns0, sub0, root0, p, n);
    assert d !in sub0[s] && p !in sub0[n];
    assert n != c && n != ns0.right[c] && d != c && d != p;
  }

  /** rotateRight(s) on n's sibling s, on a tree sound except at a node d below n: the tree stays
      sound except at d, n is moved as in Moved, the root stays, and s's left child becomes n's
      sibling. */
  lemma RightLowered(t: Tree, s: int, n: int, d: int)
    requires Sound(t.ns, t.sub, t.root, d) && s in Sub(t.sub, t.root) && 0 <= s < t.ns.Size() && |t.bh| == t.ns.Size()
    requires t.ns.left[s] != NIL && 0 <= t.ns.parent[s] < t.ns.Size()
    requires n != NIL && n != s && (n == t.ns.left[t.ns.parent[s]] || n == t.ns.right[t.ns.parent[s]])
    requires d in Sub(t.sub, n)
    ensures RightRotatable(t.ns, s)
    ensures var t1, p := TurnedRight(t, s), t.ns.parent[s];
      Moved(t, t1, p, n, d) && t1.root == t.root && 0 <= p < t1.ns.Size() && t1.ns.Sized() &&
      Sibling(t1.ns, n) == t.ns.left[s]
  {
    RightRotatedIsRightRotation(t.ns, t.root, t.sub, s);
    var t1 := TurnedRight(t, s);
    RightRelinkedUnder(t.ns, t.root, t.sub, t1.ns, t1.root, t1.sub, s, n, d);
    RightRotatedSound(t.ns, t.root, t.sub, s, d);
  }

  /** The left-rotation relinking about n's sibling s: n, its subtree, its parent p and the
      children of the nodes below n stay; s's right child c becomes n's sibling. */
  lemma LeftRelinkedUnder(ns0: Nodes, root0: int, sub0: seq<set<int>>,
                           ns: Nodes, root: int, sub: seq<set<int>>, s: int, n: int, d: int)
    requires Linked(ns0, sub0, root0) && s in Sub(sub0, root0) && 0 <= s < ns0.Size()
    requires ns0.right[s] != NIL && 0 <= ns0.parent[s] < ns0.Size()
    requires LeftRelinked(ns0, root0, sub0, ns, root, sub, s)
    requires n != NIL && n != s && (n == ns0.left[ns0.parent[s]] || n == ns0.right[ns0.parent[s]])
    requires d in Sub(sub0, n)
    ensures ns0.right[s] != d
    ensures var p := ns0.parent[s];
      0 <= n < ns.Size() && 0 <= d < ns.Size() && root == root0 &&
      ns.parent[n] == p && (ns.left[p] == n <==> ns0.left[p] == n) && (ns.left[p] == n || ns.right[p] == n) &&
      (ns.left[p] == ns0.right[s] || ns.right[p] == ns0.right[s]) && ns0.right[s] != n &&
      sub[n] == sub0[n] && ns.left[d] == ns0.left[d] && ns.right[d] == ns0.right[d]
  {
    var c, p := ns0.right[s], ns0.parent[s];
    RotationNeighbours(ns0, sub0, root0, s, c);
    RotationParent(ns0, sub0, root0, s, c);
    assert LinkedAt(ns0, sub0, root0, p);
    assert LinkedAt(ns0, sub0, root0, n);
    SubNested(ns0, sub0, root0, n, d);
    SubNested(ns0, sub0, root0, p, n);
    assert d !in sub0[s] && p !in sub0[n];
    assert n != c && n != ns0.left[c] && d != c && d != p;
  }

  /** rotateLeft(s) on n's sibling s, the mirror image: on a tree sound except at a node d below n: the tree stays
      sound except at d, n is moved as in Moved, the root stays, and s's right child becomes n's
      sibling. */
  lemma LeftLowered(t: Tree, s: int, n: int, d: int)
    requires Sound(t.ns, t.sub, t.root, d) && s in Sub(t.sub, t.root) && 0 <= s < t.ns.Size() && |t.bh| == t.ns.Size()
    requires t.ns.right[s] != NIL && 0 <= t.ns.parent[s] < t.ns.Size()
    requires n != NIL && n != s && (n == t.ns.left[t.ns.parent[s]] || n == t.ns.right[t.ns.parent[s]])
    requires d in Sub(t.sub, n)
    ensures LeftRotatable(t.ns, s)
    ensures var t1, p := TurnedLeft(t, s), t.ns.parent[s];
      Moved(t, t1, p, n, d) && t1.root == t.root && 0 <= p < t1.ns.Size() && t1.ns.Sized() &&
      Sibling(t1.ns, n) == t.ns.right[s]
  {
    LeftRotatedIsLeftRotation(t.ns, t.root, t.sub, s);
    var t1 := TurnedLeft(t, s);
    LeftRelinkedUnder(t.ns, t.root, t.sub, t1.ns, t1.root, t1.sub, s, n, d);
    LeftRotatedSound(t.ns, t.root, t.sub, s, d);
  }

  /** Case 5 applies when n is a left child whose black sibling has a red left and a black right
      child. */
  ghost predicate NearLeft(ns: Nodes, n: int)
    requires ns.Sized() && 0 <= n < ns.Size() && 0 <= ns.parent[n] < ns.Size()
  {
    var p, s := ns.parent[n], Sibling(ns, n);
    n == ns.left[p] && NodeColor(ns, s) == Black && 0 <= s < ns.Size() &&
    NodeColor(ns, ns.left[s]) == Red && NodeColor(ns, ns.right[s]) == Black
  }

  /** Case 5 applies when n is a right child whose black sibling has a red right and a black left
      child. */
  ghost predicate NearRight(ns: Nodes, n: int)
    requires ns.Sized() && 0 <= n < ns.Size() && 0 <= ns.parent[n] < ns.Size()
  {
    var p, s := ns.parent[n], Sibling(ns, n);
    n == ns.right[p] && NodeColor(ns, s) == Black && 0 <= s < ns.Size() &&
    NodeColor(ns, ns.right[s]) == Red && NodeColor(ns, ns.left[s]) == Black
  }

  /** The pointers case 5 follows exist, and so does the rotation it performs. */
  ghost predicate NephewReady(t: Tree, n: int) {
    var ns := t.ns;
    var ready :=
      ns.Sized() && |t.sub| == ns.Size() && |t.bh| == ns.Size() && 0 <= n < ns.Size() &&
      0 <= ns.parent[n] < ns.Size() &&
      var s := Sibling(ns, n);
      (NearLeft(ns, n) ==>
         0 <= ns.left[s] < ns.Size() && RightRotatable(Painted(Painted(ns, s, Red), ns.left[s], Black), s)) &&
      (NearRight(ns, n) ==>
         0 <= ns.right[s] < ns.Size() && LeftRotatable(Painted(Painted(ns, s, Red), ns.right[s], Black), s));
    ready
  }

  /** Case 5 of fixTreeForDeletion: the sibling s turns red and its red near child black, and the
      rotation about s brings that child up as n's new sibling. */
  ghost function NephewRotated(t: Tree, n: int): Tree
    requires NephewReady(t, n)
  {
    var ns := t.ns;
    var s := Sibling(ns, n);
    if NearLeft(ns, n) then
      TurnedRight(Tree(Painted(Painted(ns, s, Red), ns.left[s], Black), t.root, t.sub, t.bh), s)
    else if NearRight(ns, n) then
      TurnedLeft(Tree(Painted(Painted(ns, s, Red), ns.right[s], Black), t.root, t.sub, t.bh), s)
    else
      t
  }

  /** The rotation of case 5 is possible wherever the repair is pending with a sibling. */
  lemma NephewApplies(t: Tree, n: int, d: int)
    requires Pending(t, n, d) && 0 <= n < t.ns.Size() && 0 <= t.ns.parent[n] < t.ns.Size()
    requires Sibling(t.ns, n) != NIL
    ensures NephewReady(t, n)
  {
    var ns, s := t.ns, Sibling(t.ns, n);
    TreeNodes.Family(ns, t.sub, t.root, n);
    assert LinkedAt(ns, t.sub, t.root, s);
    if NearLeft(ns, n) {
      var ns5 := Painted(Painted(ns, s, Red), ns.left[s], Black);
      SoundIgnoresColor(ns, ns5.color, t.sub, t.root, d);
      RightRotatableLinked(ns5, t.root, t.sub, s);
    }
    if NearRight(ns, n) {
      var ns5 := Painted(Painted(ns, s, Red), ns.right[s], Black);
      SoundIgnoresColor(ns, ns5.color, t.sub, t.root, d);
      LeftRotatableLinked(ns5, t.root, t.sub, s);
    }
  }

  /** Case 5 when n is a left child: the repair stays pending at n, which has a sibling again. */
  lemma NephewLeft(t: Tree, n: int, d: int)
    requires Pending(t, n, d) && NephewReady(t, n) && NearLeft(t.ns, n)
    ensures StepKept(t, NephewRotated(t, n), n, d)
    ensures var t5 := NephewRotated(t, n); Sibling(t5.ns, n) != NIL
  {
    var ns, p, s := t.ns, t.ns.parent[n], Sibling(t.ns, n);
    TreeNodes.Family(ns, t.sub, t.root, n);
    assert LinkedAt(ns, t.sub, t.root, s);
    Orphan(ns, t.sub, t.root, s);
    Orphan(ns, t.sub, t.root, ns.left[s]);
    var t2 := Tree(Painted(Painted(ns, s, Red), ns.left[s], Black), t.root, t.sub, t.bh);
    SoundIgnoresColor(ns, t2.ns.color, t.sub, t.root, d);
    SubNested(ns, t.sub, t.root, n, d);
    RightLowered(t2, s, n, d);
    var t5 := NephewRotated(t, n);
    assert t5 == TurnedRight(t2, s);
    assert t5.root != n && NodeColor(t5.ns, t5.root) == Black;
    RecoloredStep(t, t2, t5, p, n, d);
  }

  /** Case 5 when n is a right child: the mirror image of NephewLeft. */
  lemma NephewRight(t: Tree, n: int, d: int)
    requires Pending(t, n, d) && NephewReady(t, n) && NearRight(t.ns, n)
    ensures StepKept(t, NephewRotated(t, n), n, d)
    ensures var t5 := NephewRotated(t, n); Sibling(t5.ns, n) != NIL
  {
    var ns, p, s := t.ns, t.ns.parent[n], Sibling(t.ns, n);
    TreeNodes.Family(ns, t.sub, t.root, n);
    assert LinkedAt(ns, t.sub, t.root, s);
    Orphan(ns, t.sub, t.root, s);
    Orphan(ns, t.sub, t.root, ns.right[s]);
    var t2 := Tree(Painted(Painted(ns, s, Red), ns.right[s], Black), t.root, t.sub, t.bh);
    SoundIgnoresColor(ns, t2.ns.color, t.sub, t.root, d);
    SubNested(ns, t.sub, t.root, n, d);
    LeftLowered(t2, s, n, d);
    var t5 := NephewRotated(t, n);
    assert t5 == TurnedLeft(t2, s);
    assert t5.root != n && NodeColor(t5.ns, t5.root) == Black;
    RecoloredStep(t, t2, t5, p, n, d);
  }

  /** Case 5 as a whole: whether or not it rotates, the repair stays pending at n, which has a
      sibling. */
  lemma NephewFacts(t: Tree, n: int, d: int)
    requires Pending(t, n, d) && 0 <= n < t.ns.Size() && 0 <= t.ns.parent[n] < t.ns.Size()
    requires Sibling(t.ns, n) != NIL
    ensures NephewReady(t, n) && StepKept(t, NephewRotated(t, n), n, d)
    ensures var t5 := NephewRotated(t, n); Sibling(t5.ns, n) != NIL
  {
    NephewApplies(t, n, d);
    if NearLeft(t.ns, n) {
      NephewLeft(t, n, d);
    } else if NearRight(t.ns, n) {
      NephewRight(t, n, d);
    } else {
      assert LinkedAt(t.ns, t.sub, t.root, n);
      SubNested(t.ns, t.sub, t.root, n, d);
    }
  }

  // ---------------------------------------------------------------------------------------
  // Case 6: the far nephew is red
  // ---------------------------------------------------------------------------------------

  /** The colours case 6 assigns before it rotates: s takes p's colour and p turns black. */
  function Swapped(ns: Nodes, p: int, s: int): (r: Nodes)
    requires ns.Sized() && 0 <= p < ns.Size() && 0 <= s < ns.Size()
    ensures r.Sized() && r.Size() == ns.Size()
  {
    Painted(Painted(ns, s, NodeColor(ns, p)), p, Black)
  }

  /** n's far nephew: the child of its sibling on the side away from n. */
  function FarNephew(ns: Nodes, n: int): int
    requires ns.Sized() && 0 <= n < ns.Size() && 0 <= ns.parent[n] < ns.Size()
    requires 0 <= Sibling(ns, n) < ns.Size()
  {
    var s := Sibling(ns, n);
    if n == ns.left[ns.parent[n]] then ns.right[s] else ns.left[s]
  }

  /** The pointers case 6 follows exist, and so does the rotation it performs. */
  ghost predicate FarReady(t: Tree, n: int) {
    var ns := t.ns;
    var ready :=
      ns.Sized() && |t.sub| == ns.Size() && |t.bh| == ns.Size() && 0 <= n < ns.Size() &&
      0 <= ns.parent[n] < ns.Size() &&
      var p, s := ns.parent[n], Sibling(ns, n);
      0 <= s < ns.Size() && 0 <= FarNephew(ns, n) < ns.Size() &&
      var ns7 := Painted(Swapped(ns, p, s), FarNephew(ns, n), Black);
      (n == ns.left[p] ==> LeftRotatable(ns7, p)) && (n != ns.left[p] ==> RightRotatable(ns7, p));
    ready
  }

  /** Case 6 of fixTreeForDeletion: s takes p's colour, p and s's far child turn black, and the
      rotation about p brings s up. */
  ghost function FarRotated(t: Tree, n: int): Tree
    requires FarReady(t, n)
  {
    var ns, p := t.ns, t.ns.parent[n];
    var s := Sibling(ns, n);
    var t7 := Tree(Painted(Swapped(ns, p, s), FarNephew(ns, n), Black), t.root, t.sub, t.bh);
    if n == ns.left[p] then TurnedLeft(t7, p) else TurnedRight(t7, p)
  }

  /** The rotation of case 6 is possible wherever the repair is pending with a far nephew. */
  lemma FarApplies(t: Tree, n: int, d: int)
    requires Pending(t, n, d) && 0 <= n < t.ns.Size() && 0 <= t.ns.parent[n] < t.ns.Size()
    requires 0 <= Sibling(t.ns, n) < t.ns.Size() && FarNephew(t.ns, n) != NIL
    ensures FarReady(t, n)
  {
    var ns, p, s := t.ns, t.ns.parent[n], Sibling(t.ns, n);
    TreeNodes.Family(ns, t.sub, t.root, n);
    assert LinkedAt(ns, t.sub, t.root, s);
    var ns7 := Painted(Swapped(ns, p, s), FarNephew(ns, n), Black);
    SoundIgnoresColor(ns, ns7.color, t.sub, t.root, d);
    if n == ns.left[p] {
      LeftRotatableLinked(ns7, t.root, t.sub, p);
    } else {
      RightRotatableLinked(ns7, t.root, t.sub, p);
    }
  }

  /** Case 6 when n is a left child, structurally: the tree is settled. */
  lemma FarLeft(t: Tree, n: int, d: int)
    requires Pending(t, n, d) && FarReady(t, n) && n == t.ns.left[t.ns.parent[n]]
    ensures Settled(t, FarRotated(t, n), d)
  {
    var ns, p, s := t.ns, t.ns.parent[n], Sibling(t.ns, n);
    var t7 := Tree(Painted(Swapped(ns, p, s), ns.right[s], Black), t.root, t.sub, t.bh);
    FarLeftMoved(t, n, d);
    assert FarRotated(t, n) == TurnedLeft(t7, p);
    RecoloredEnd(t, t7, FarRotated(t, n), p, n, d);
  }

  /** The rotation of FarLeft on the recoloured tree moves n as a step of the repair may, and
      the root it leaves is black. */
  lemma FarLeftMoved(t: Tree, n: int, d: int)
    requires Pending(t, n, d) && FarReady(t, n) && n == t.ns.left[t.ns.parent[n]]
    ensures var ns, p, s := t.ns, t.ns.parent[n], Sibling(t.ns, n);
      0 <= s < ns.Size() && 0 <= ns.right[s] < ns.Size() &&
      var t7 := Tree(Painted(Swapped(ns, p, s), ns.right[s], Black), t.root, t.sub, t.bh);
      LeftRotatable(t7.ns, p) &&
      var t6 := TurnedLeft(t7, p);
      Moved(t7, t6, p, n, d) && NodeColor(t6.ns, t6.root) == Black
  {
    var ns, p, s := t.ns, t.ns.parent[n], Sibling(t.ns, n);
    TreeNodes.Family(ns, t.sub, t.root, n);
    assert LinkedAt(ns, t.sub, t.root, s);
    Orphan(ns, t.sub, t.root, ns.right[s]);
    var t7 := Tree(Painted(Swapped(ns, p, s), ns.right[s], Black), t.root, t.sub, t.bh);
    SoundIgnoresColor(ns, t7.ns.color, t.sub, t.root, d);
    LeftLifted(t7, p, n, d);
    var t6 := TurnedLeft(t7, p);
    if p == t.root {
      assert t6.root == s;
    } else {
      assert t6.root == t.root;
    }
  }

  /** Case 6 when n is a right child: the mirror image of FarLeft. */
  lemma FarRight(t: Tree, n: int, d: int)
    requires Pending(t, n, d) && FarReady(t, n) && n != t.ns.left[t.ns.parent[n]]
    ensures Settled(t, FarRotated(t, n), d)
  {
    var ns, p, s := t.ns, t.ns.parent[n], Sibling(t.ns, n);
    var t7 := Tree(Painted(Swapped(ns, p, s), ns.left[s], Black), t.root, t.sub, t.bh);
    FarRightMoved(t, n, d);
    assert FarRotated(t, n) == TurnedRight(t7, p);
    RecoloredEnd(t, t7, FarRotated(t, n), p, n, d);
  }

  /** The rotation of FarRight on the recoloured tree moves n as a step of the repair may, and
      the root it leaves is black. */
  lemma FarRightMoved(t: Tree, n: int, d: int)
    requires Pending(t, n, d) && FarReady(t, n) && n != t.ns.left[t.ns.parent[n]]
    ensures var ns, p, s := t.ns, t.ns.parent[n], Sibling(t.ns, n);
      0 <= s < ns.Size() && 0 <= ns.left[s] < ns.Size() &&
      var t7 := Tree(Painted(Swapped(ns, p, s), ns.left[s], Black), t.root, t.sub, t.bh);
      RightRotatable(t7.ns, p) &&
      var t6 := TurnedRight(t7, p);
      Moved(t7, t6, p, n, d) && NodeColor(t6.ns, t6.root) == Black
  {
    var ns, p, s := t.ns, t.ns.parent[n], Sibling(t.ns, n);
    TreeNodes.Family(ns, t.sub, t.root, n);
    assert LinkedAt(ns, t.sub, t.root, s);
    Orphan(ns, t.sub, t.root, ns.left[s]);
    var t7 := Tree(Painted(Swapped(ns, p, s), ns.left[s], Black), t.root, t.sub, t.bh);
    SoundIgnoresColor(ns, t7.ns.color, t.sub, t.root, d);
    RightLifted(t7, p, n, d);
    var t6 := TurnedRight(t7, p);
    if p == t.root {
      assert t6.root == s;
    } else {
      assert t6.root == t.root;
    }
  }

  /** Case 6 as a whole, structurally: with a far nephew, the rotation applies and the tree is
      settled. DeleteColors.FarStep proves the colour rules. */
  lemma FarFacts(t: Tree, n: int, d: int)
    requires Pending(t, n, d) && 0 <= n < t.ns.Size() && 0 <= t.ns.parent[n] < t.ns.Size()
    requires 0 <= Sibling(t.ns, n) < t.ns.Size() && FarNephew(t.ns, n) != NIL
    ensures FarReady(t, n) && Settled(t, FarRotated(t, n), d)
  {
    FarApplies(t, n, d);
    if n == t.ns.left[t.ns.parent[n]] {
      FarLeft(t, n, d);
    } else {
      FarRight(t, n, d);
    }
  }
}
