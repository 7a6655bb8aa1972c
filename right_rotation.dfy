/** rotateRight of IntervalTree.java described by its effect on the arena, and the proof that it
    keeps the search-tree part of the invariant. */
module RightRotations {
  import opened Intervals
  import opened TreeNodes
  import opened Rotations

  /** The links after rotateRight(n), started in (ns0, root0, sub0): n's left child c takes n's
      place under n's parent p, n becomes c's right child and takes c's former right subtree ci as
      its new left subtree; nothing else is relinked, and no key, value set or colour changes.
      The ghost subtrees of n and c are recomputed, all others stay. */
  ghost predicate RightRelinked(ns0: Nodes, root0: int, sub0: seq<set<int>>,
                               ns: Nodes, root: int, sub: seq<set<int>>, n: int)
    requires ns0.Sized() && |sub0| == ns0.Size() && 0 <= n < ns0.Size()
  {
    var c, p, a := ns0.left[n], ns0.parent[n], ns0.right[n];
    0 <= c < ns0.Size() &&
    var ci, co := ns0.right[c], ns0.left[c];
    ns.Sized() && ns.Size() == ns0.Size() && |sub| == |sub0| &&
    ns.interval == ns0.interval && ns.values == ns0.values && ns.color == ns0.color &&
    ns.right[n] == a && ns.left[n] == ci && ns.parent[n] == c &&
    ns.right[c] == n && ns.left[c] == co && ns.parent[c] == p &&
    (ci != NIL ==> 0 <= ci < ns.Size() && ns.parent[ci] == n) &&
    (p == NIL ==> root == c) &&
    (p != NIL ==>
       root == root0 && 0 <= p < ns.Size() &&
       (if ns0.left[p] != n then ns.right[p] == c && ns.left[p] == ns0.left[p]
        else ns.right[p] == ns0.right[p] && ns.left[p] == c)) &&
    (forall k | 0 <= k < ns.Size() && k != n && k != c && k != p ::
       ns.right[k] == ns0.right[k] && ns.left[k] == ns0.left[k]) &&
    (forall k | 0 <= k < ns.Size() && k != n && k != c && k != ci ::
       ns.parent[k] == ns0.parent[k]) &&
    sub == sub0[n := {n} + Sub(sub0, a) + Sub(sub0, ci)][c := sub0[n]]
  }

  /** (ns, root, sub) is what rotateRight(n) leaves behind: the links of RightRelinked, and
      updateMax applied to n, its former left child c and c's new parent. */
  ghost predicate RightRotation(ns0: Nodes, root0: int, sub0: seq<set<int>>,
                               ns: Nodes, root: int, sub: seq<set<int>>, n: int)
    requires ns0.Sized() && |sub0| == ns0.Size() && 0 <= n < ns0.Size()
  {
    RightRelinked(ns0, root0, sub0, ns, root, sub, n) &&
    Refreshed(ns0.max, ns, n, ns0.left[n], ns0.parent[n])
  }

  /** The pointer assignments of rotateRight(n), replaceNode included, as one update of the
      arena. */
  lemma RightRotationRelink(ns0: Nodes, root0: int, sub0: seq<set<int>>, n: int,
                           s1: Nodes, links: Nodes)
    requires Linked(ns0, sub0, root0) && n in Sub(sub0, root0)
    requires 0 <= n < ns0.Size() && 0 <= ns0.left[n] < ns0.Size()
    requires ns0.parent[n] == NIL || 0 <= ns0.parent[n] < ns0.Size()
    requires ns0.right[ns0.left[n]] == NIL || 0 <= ns0.right[ns0.left[n]] < ns0.Size()
    requires var c, p := ns0.left[n], ns0.parent[n];
      s1 == ns0.(
        right := if p != NIL && ns0.left[p] != n then ns0.right[p := c] else ns0.right,
        left := if p != NIL && ns0.left[p] == n then ns0.left[p := c] else ns0.left,
        parent := if c == NIL then ns0.parent else ns0.parent[c := p])
    requires s1.Sized() && s1.Size() == ns0.Size()
    requires var c := ns0.left[n];
      var t1 := s1.(left := s1.left[n := s1.right[c]]);
      var t2 := if t1.right[c] != NIL && 0 <= t1.right[c] < t1.Size()
                then t1.(parent := t1.parent[t1.right[c] := n]) else t1;
      var t3 := t2.(right := t2.right[c := n]);
      links == t3.(parent := t3.parent[n := c])
    ensures var c, p := ns0.left[n], ns0.parent[n];
      var ci := ns0.right[c];
      links.interval == ns0.interval && links.values == ns0.values &&
      links.color == ns0.color && links.max == ns0.max &&
      links.right == (if p != NIL && ns0.left[p] != n then ns0.right[p := c] else ns0.right)[c := n] &&
      links.left == (if p != NIL && ns0.left[p] == n then ns0.left[p := c] else ns0.left)[n := ci] &&
      links.parent == (if ci != NIL then ns0.parent[c := p][ci := n] else ns0.parent[c := p])[n := c]
  {
    RotationNeighbours(ns0, sub0, root0, n, ns0.left[n]);
    RotationParent(ns0, sub0, root0, n, ns0.left[n]);
  }

  /** The arena after the pointer assignments of rotateRight(n) is relinked as RightRelinked says. */
  lemma RightRotationByLinks(ns0: Nodes, root0: int, sub0: seq<set<int>>,
                            links: Nodes, root: int, n: int)
    requires Linked(ns0, sub0, root0) && n in Sub(sub0, root0) && ns0.left[n] != NIL
    requires 0 <= n < ns0.Size() && 0 <= ns0.left[n] < ns0.Size()
    requires ns0.parent[n] == NIL || 0 <= ns0.parent[n] < ns0.Size()
    requires ns0.right[ns0.left[n]] == NIL || 0 <= ns0.right[ns0.left[n]] < ns0.Size()
    requires var c, p := ns0.left[n], ns0.parent[n];
      var ci := ns0.right[c];
      links.interval == ns0.interval && links.values == ns0.values &&
      links.color == ns0.color && links.max == ns0.max &&
      links.right == (if p != NIL && ns0.left[p] != n then ns0.right[p := c] else ns0.right)[c := n] &&
      links.left == (if p != NIL && ns0.left[p] == n then ns0.left[p := c] else ns0.left)[n := ci] &&
      links.parent == (if ci != NIL then ns0.parent[c := p][ci := n] else ns0.parent[c := p])[n := c] &&
      root == (if p == NIL then c else root0)
    ensures var c := ns0.left[n];
      RightRelinked(ns0, root0, sub0, links, root,
                   sub0[n := {n} + Sub(sub0, ns0.right[n]) + Sub(sub0, ns0.right[c])][c := sub0[n]], n)
  {
    RotationNeighbours(ns0, sub0, root0, n, ns0.left[n]);
    RotationParent(ns0, sub0, root0, n, ns0.left[n]);
  }

  /** Relinked states that differ only in their maxes are relinked alike. */
  lemma RightRelinkedMaxFree(ns0: Nodes, root0: int, sub0: seq<set<int>>,
                            links: Nodes, ns: Nodes, root: int, sub: seq<set<int>>, n: int)
    requires ns0.Sized() && |sub0| == ns0.Size() && 0 <= n < ns0.Size()
    requires RightRelinked(ns0, root0, sub0, links, root, sub, n)
    requires ns == links.(max := ns.max) && |ns.max| == links.Size()
    ensures RightRelinked(ns0, root0, sub0, ns, root, sub, n)
  {
  }

  /** What the three updateMax calls of rotateRight(n) rely on: after the relinking, n, c and c's
      new parent p each have children that point back to them. */
  lemma RightRelinkedFacts(ns0: Nodes, root0: int, sub0: seq<set<int>>,
                          ns: Nodes, root: int, sub: seq<set<int>>, n: int)
    requires Linked(ns0, sub0, root0) && n in Sub(sub0, root0)
    requires RightRelinked(ns0, root0, sub0, ns, root, sub, n)
    ensures var c, p, a := ns0.left[n], ns0.parent[n], ns0.right[n];
      var ci, co := ns0.right[c], ns0.left[c];
      ns.Sized() && 0 <= n < ns.Size() && 0 <= c < ns.Size() && n != c &&
      (p == NIL || 0 <= p < ns.Size()) && p != n && p != c &&
      ns.parent[c] == p && ns.parent[n] == c &&
      ns.right[n] == a && ns.left[n] == ci && ns.right[c] == n && ns.left[c] == co &&
      (a == NIL || (0 <= a < ns.Size() && ns.parent[a] == n && a != c && a != p && a != n)) &&
      (ci == NIL || (0 <= ci < ns.Size() && ns.parent[ci] == n && ci != c && ci != p && ci != n)) &&
      (co == NIL || (0 <= co < ns.Size() && ns.parent[co] == c && co != p && co != c))
    ensures var p := ns0.parent[n];
      p != NIL ==> (ns.right[p] != p && ns.left[p] != p &&
        (ns.right[p] == NIL || (0 <= ns.right[p] < ns.Size() && ns.parent[ns.right[p]] == p)) &&
        (ns.left[p] == NIL || (0 <= ns.left[p] < ns.Size() && ns.parent[ns.left[p]] == p)))
  {
    RotationNeighbours(ns0, sub0, root0, n, ns0.left[n]);
    RotationParent(ns0, sub0, root0, n, ns0.left[n]);
  }

  /** What rotateRight(n) dereferences exists: n, its left child c, c's children, n's right child
      and n's parent p with its children, none of them NIL unless the code checks for NIL. */
  ghost predicate RightRotatable(ns: Nodes, n: int) {
    var rotatable :=
      ns.Sized() && 0 <= n < ns.Size() &&
      var c, p, a := ns.left[n], ns.parent[n], ns.right[n];
      0 <= c < ns.Size() && c != n && (p == NIL || 0 <= p < ns.Size()) && p != c && p != n &&
      var ci, co := ns.right[c], ns.left[c];
      (a == NIL || 0 <= a < ns.Size()) && (ci == NIL || 0 <= ci < ns.Size()) &&
      (co == NIL || 0 <= co < ns.Size()) && a != c && ci != c && co != c && ci != n &&
      (p != NIL ==> ((ns.right[p] == NIL || 0 <= ns.right[p] < ns.Size()) &&
                     (ns.left[p] == NIL || 0 <= ns.left[p] < ns.Size())));
    rotatable
  }

  /** In a linked tree, every live node with a left child can be rotated right. */
  lemma RightRotatableLinked(ns0: Nodes, root0: int, sub0: seq<set<int>>, n: int)
    requires Linked(ns0, sub0, root0) && n in Sub(sub0, root0)
    ensures 0 <= n < ns0.Size()
    ensures ns0.left[n] != NIL ==> RightRotatable(ns0, n)
  {
    assert LinkedAt(ns0, sub0, root0, n);
    if ns0.left[n] != NIL {
      RotationNeighbours(ns0, sub0, root0, n, ns0.left[n]);
      RotationParent(ns0, sub0, root0, n, ns0.left[n]);
    }
  }

  /** The pointers after the statements of rotateRight(n) that precede its updateMax calls. */
  function RightLinked(ns: Nodes, n: int): (r: Nodes)
    requires RightRotatable(ns, n)
    ensures r.Sized() && r.Size() == ns.Size()
  {
    var c := ns.left[n];
    var s1 := Replaced(ns, n, c);
    var t1 := s1.(left := s1.left[n := s1.right[c]]);
    var t2 := if t1.right[c] != NIL then t1.(parent := t1.parent[t1.right[c] := n]) else t1;
    var t3 := t2.(right := t2.right[c := n]);
    t3.(parent := t3.parent[n := c])
  }

  /** The links of n, c and p after the pointer assignments of rotateRight(n), which the
      updateMax calls that follow read. */
  lemma RightLinkedAround(ns: Nodes, n: int)
    requires RightRotatable(ns, n)
    ensures var r, c, p := RightLinked(ns, n), ns.left[n], ns.parent[n];
      var a, ci, co := ns.right[n], ns.right[c], ns.left[c];
      r.right[n] == a && r.left[n] == ci && r.right[c] == n && r.left[c] == co &&
      r.parent[c] == p && MaxUpdated(MaxUpdated(r, n), c).parent[c] == p &&
      (p != NIL ==> ((r.right[p] == NIL || 0 <= r.right[p] < r.Size()) &&
                     (r.left[p] == NIL || 0 <= r.left[p] < r.Size())))
  {
  }

  /** The arena rotateRight(n) leaves: RightLinked, then updateMax on n, on n's former left child
      c and, when there is one, on c's new parent. */
  function RightRotated(ns: Nodes, n: int): (r: Nodes)
    requires RightRotatable(ns, n)
    ensures r.Sized() && r.Size() == ns.Size()
  {
    var c, p := ns.left[n], ns.parent[n];
    var s3 := MaxUpdated(MaxUpdated(RightLinked(ns, n), n), c);
    if p != NIL then MaxUpdated(s3, p) else s3
  }

  /** The ghost subtrees after rotateRight(n): n keeps its right subtree and gains c's former right
      subtree, c takes over n's former subtree. */
  ghost function RightRotatedSub(ns: Nodes, sub: seq<set<int>>, n: int): (r: seq<set<int>>)
    requires RightRotatable(ns, n) && |sub| == ns.Size()
    ensures |r| == |sub|
  {
    var c := ns.left[n];
    sub[n := {n} + Sub(sub, ns.right[n]) + Sub(sub, ns.right[c])][c := sub[n]]
  }

  /** The pointer assignments of rotateRight(n), replaceNode included, relink the arena as
      RightRelinked says, and leave n, c and p with children that point back to them. */
  lemma RightRotationLinksPhase(ns0: Nodes, root0: int, sub0: seq<set<int>>, n: int,
                               s1: Nodes, links: Nodes, root: int)
    requires Linked(ns0, sub0, root0) && n in Sub(sub0, root0)
    requires 0 <= n < ns0.Size() && 0 <= ns0.left[n] < ns0.Size()
    requires ns0.parent[n] == NIL || 0 <= ns0.parent[n] < ns0.Size()
    requires ns0.right[ns0.left[n]] == NIL || 0 <= ns0.right[ns0.left[n]] < ns0.Size()
    requires var c, p := ns0.left[n], ns0.parent[n];
      root == (if p == NIL then c else root0) &&
      s1 == ns0.(
        right := if p != NIL && ns0.left[p] != n then ns0.right[p := c] else ns0.right,
        left := if p != NIL && ns0.left[p] == n then ns0.left[p := c] else ns0.left,
        parent := if c == NIL then ns0.parent else ns0.parent[c := p])
    requires s1.Sized() && s1.Size() == ns0.Size()
    requires var c := ns0.left[n];
      var t1 := s1.(left := s1.left[n := s1.right[c]]);
      var t2 := if t1.right[c] != NIL && 0 <= t1.right[c] < t1.Size()
                then t1.(parent := t1.parent[t1.right[c] := n]) else t1;
      var t3 := t2.(right := t2.right[c := n]);
      links == t3.(parent := t3.parent[n := c])
    ensures var c := ns0.left[n];
      RightRelinked(ns0, root0, sub0, links, root,
                   sub0[n := {n} + Sub(sub0, ns0.right[n]) + Sub(sub0, ns0.right[c])][c := sub0[n]], n)
    ensures var c, p, a := ns0.left[n], ns0.parent[n], ns0.right[n];
      var ci, co := ns0.right[c], ns0.left[c];
      links.Sized() && links.Size() == ns0.Size() && links.max == ns0.max &&
      links.right[n] == a && links.left[n] == ci && links.right[c] == n && links.left[c] == co &&
      a != c && ci != c && co != c && links.right[c] != c &&
      (a == NIL || 0 <= a < links.Size()) && (ci == NIL || 0 <= ci < links.Size()) &&
      (co == NIL || 0 <= co < links.Size()) && links.parent[c] == p &&
      (p != NIL ==> (0 <= p < links.Size() &&
        (links.right[p] == NIL || 0 <= links.right[p] < links.Size()) &&
        (links.left[p] == NIL || 0 <= links.left[p] < links.Size())))
  {
    var c := ns0.left[n];
    var sub := sub0[n := {n} + Sub(sub0, ns0.right[n]) + Sub(sub0, ns0.right[c])][c := sub0[n]];
    RightRotationRelink(ns0, root0, sub0, n, s1, links);
    RightRotationByLinks(ns0, root0, sub0, links, root, n);
    RightRelinkedFacts(ns0, root0, sub0, links, root, sub, n);
  }

  /** The three updateMax calls that end rotateRight(n) complete a RightRotation. */
  lemma RightRotationMaxPhase(ns0: Nodes, root0: int, sub0: seq<set<int>>,
                             links: Nodes, s2: Nodes, s3: Nodes, ns: Nodes,
                             root: int, sub: seq<set<int>>, n: int)
    requires Linked(ns0, sub0, root0) && n in Sub(sub0, root0)
    requires RightRelinked(ns0, root0, sub0, links, root, sub, n) && links.max == ns0.max
    requires s2 == links.(max := links.max[n := UpdatedMax(links, n)], parent := Adopted(links, n))
    requires s2.Sized() && s3 == s2.(max := s2.max[ns0.left[n] := UpdatedMax(s2, ns0.left[n])],
                                     parent := Adopted(s2, ns0.left[n]))
    requires s3.Sized()
    requires var p := ns0.parent[n];
      ns == if p != NIL then s3.(max := s3.max[p := UpdatedMax(s3, p)], parent := Adopted(s3, p))
            else s3
    ensures RightRotation(ns0, root0, sub0, ns, root, sub, n)
  {
    var c, p := ns0.left[n], ns0.parent[n];
    RightRelinkedFacts(ns0, root0, sub0, links, root, sub, n);
    RotationRefresh(links, s2, s3, ns, n, c, p, ns0.right[n], ns0.right[c], ns0.left[c]);
    RightRelinkedMaxFree(ns0, root0, sub0, links, ns, root, sub, n);
  }

  /** The links of n, its former left child c and n's parent p after rotateRight(n); no colour
      changes. */
  lemma RightRotatedAround(ns: Nodes, n: int)
    requires RightRotatable(ns, n)
    ensures var r, c, p := RightRotated(ns, n), ns.left[n], ns.parent[n];
      r.color == ns.color &&
      r.right[n] == ns.right[n] && r.left[n] == ns.right[c] && r.right[c] == n && r.left[c] == ns.left[c] &&
      (p != NIL && ns.left[p] == n ==> r.left[p] == c && r.right[p] == ns.right[p]) &&
      (p != NIL && ns.left[p] != n ==> r.left[p] == ns.left[p] && r.right[p] == c)
  {
    RightLinkedAround(ns, n);
  }

  /** rotateRight(n) relinks no node other than n, its former left child and n's parent. */
  lemma RightRotatedAway(ns: Nodes, n: int, k: int)
    requires RightRotatable(ns, n) && 0 <= k < ns.Size()
    requires k != n && k != ns.left[n] && k != ns.parent[n]
    ensures RightRotated(ns, n).right[k] == ns.right[k] && RightRotated(ns, n).left[k] == ns.left[k]
  {
  }

  /** RightRotated describes a right rotation: rotateRight(n) in a linked tree does what
      RightRotation says. */
  lemma RightRotatedIsRightRotation(ns0: Nodes, root0: int, sub0: seq<set<int>>, n: int)
    requires Linked(ns0, sub0, root0) && n in Sub(sub0, root0) && ns0.left[n] != NIL
    ensures RightRotatable(ns0, n)
    ensures RightRotation(ns0, root0, sub0, RightRotated(ns0, n),
                         ReplacedRoot(ns0, root0, n, ns0.left[n]), RightRotatedSub(ns0, sub0, n), n)
  {
    RightRotatableLinked(ns0, root0, sub0, n);
    var c, p := ns0.left[n], ns0.parent[n];
    var links := RightLinked(ns0, n);
    var s2 := MaxUpdated(links, n);
    var s3 := MaxUpdated(s2, c);
    var root := ReplacedRoot(ns0, root0, n, c);
    var sub := RightRotatedSub(ns0, sub0, n);
    RightRotationLinksPhase(ns0, root0, sub0, n, Replaced(ns0, n, c), links, root);
    RightRotationMaxPhase(ns0, root0, sub0, links, s2, s3, RightRotated(ns0, n), root, sub, n);
  }

  /** The reachable nodes do not change under a right rotation. */
  lemma RightRotationLive(ns0: Nodes, root0: int, sub0: seq<set<int>>,
                         ns: Nodes, root: int, sub: seq<set<int>>, n: int)
    requires Linked(ns0, sub0, root0) && n in Sub(sub0, root0)
    requires RightRelinked(ns0, root0, sub0, ns, root, sub, n)
    ensures Sub(sub, root) == Sub(sub0, root0)
  {
    var c := ns0.left[n];
    assert LinkedAt(ns0, sub0, root0, n);
    assert LinkedAt(ns0, sub0, root0, c);
    if root0 != n {
      assert root != n && root != c;
    }
  }

  /** The lowered node n has its old right subtree a and c's old right subtree ci as children. */
  lemma RightRotationLoweredChildren(ns0: Nodes, root0: int, sub0: seq<set<int>>,
                                  ns: Nodes, root: int, sub: seq<set<int>>, n: int)
    requires Linked(ns0, sub0, root0) && n in Sub(sub0, root0)
    requires RightRelinked(ns0, root0, sub0, ns, root, sub, n)
    requires Sub(sub, root) == Sub(sub0, root0)
    ensures ChildrenAt(ns, sub, root, n)
  {
    var c, a := ns0.left[n], ns0.right[n];
    var ci, co := ns0.right[c], ns0.left[c];
    assert LinkedAt(ns0, sub0, root0, n);
    assert LinkedAt(ns0, sub0, root0, c);
    RotatedSubtrees(sub0[n], Sub(sub0, a), sub0[c], Sub(sub0, ci), Sub(sub0, co), n, c);
    assert a == NIL || (sub[a] == sub0[a] && ns.parent[a] == n);
    assert ci == NIL || sub[ci] == sub0[ci];
  }

  /** The lowered node n now hangs under c. */
  lemma RightRotationLoweredParent(ns0: Nodes, root0: int, sub0: seq<set<int>>,
                                  ns: Nodes, root: int, sub: seq<set<int>>, n: int)
    requires Linked(ns0, sub0, root0) && n in Sub(sub0, root0)
    requires RightRelinked(ns0, root0, sub0, ns, root, sub, n)
    requires Sub(sub, root) == Sub(sub0, root0)
    ensures ParentAt(ns, sub, root, n)
  {
    RotationNeighbours(ns0, sub0, root0, n, ns0.left[n]);
    RotationParent(ns0, sub0, root0, n, ns0.left[n]);
  }

  /** The raised node c has n and its old left subtree co as children after a right rotation. */
  lemma RightRotationRaisedChildren(ns0: Nodes, root0: int, sub0: seq<set<int>>,
                                   ns: Nodes, root: int, sub: seq<set<int>>, n: int)
    requires Linked(ns0, sub0, root0) && n in Sub(sub0, root0)
    requires RightRelinked(ns0, root0, sub0, ns, root, sub, n)
    requires Sub(sub, root) == Sub(sub0, root0)
    ensures ChildrenAt(ns, sub, root, ns0.left[n])
  {
    var c, a := ns0.left[n], ns0.right[n];
    var ci, co := ns0.right[c], ns0.left[c];
    assert LinkedAt(ns0, sub0, root0, n);
    assert LinkedAt(ns0, sub0, root0, c);
    RotatedSubtrees(sub0[n], Sub(sub0, a), sub0[c], Sub(sub0, ci), Sub(sub0, co), n, c);
    if co != NIL {
      assert LinkedAt(ns0, sub0, root0, co);
      assert sub[co] == sub0[co] && ns.parent[co] == c;
    }
    assert sub[c] == sub0[n] && sub[n] == {n} + Sub(sub0, a) + Sub(sub0, ci);
  }

  /** The raised node c hangs where n hung: under n's old parent, or at the root. */
  lemma RightRotationRaisedParent(ns0: Nodes, root0: int, sub0: seq<set<int>>,
                                 ns: Nodes, root: int, sub: seq<set<int>>, n: int)
    requires Linked(ns0, sub0, root0) && n in Sub(sub0, root0)
    requires RightRelinked(ns0, root0, sub0, ns, root, sub, n)
    requires Sub(sub, root) == Sub(sub0, root0)
    ensures ParentAt(ns, sub, root, ns0.left[n])
  {
    var c, p := ns0.left[n], ns0.parent[n];
    RotationNeighbours(ns0, sub0, root0, n, c);
    RotationParent(ns0, sub0, root0, n, c);
    assert LinkedAt(ns0, sub0, root0, c);
  }

  /** The node above the rotation keeps its children (one child pointer now names c, whose new
      subtree is n's old one). */
  lemma RightRotationAboveChildren(ns0: Nodes, root0: int, sub0: seq<set<int>>,
                                  ns: Nodes, root: int, sub: seq<set<int>>, n: int)
    requires Linked(ns0, sub0, root0) && n in Sub(sub0, root0)
    requires RightRelinked(ns0, root0, sub0, ns, root, sub, n)
    requires Sub(sub, root) == Sub(sub0, root0) && ns0.parent[n] != NIL
    ensures 0 <= ns0.parent[n] < ns.Size() && ChildrenAt(ns, sub, root, ns0.parent[n])
  {
    var c, p := ns0.left[n], ns0.parent[n];
    assert LinkedAt(ns0, sub0, root0, n);
    assert LinkedAt(ns0, sub0, root0, c);
    assert LinkedAt(ns0, sub0, root0, p);
    assert sub[p] == sub0[p] && sub[c] == sub0[n];
    if ns0.left[p] != n {
      var o := ns0.left[p];
      if o != NIL {
        assert LinkedAt(ns0, sub0, root0, o);
        assert sub[o] == sub0[o] && ns.parent[o] == p;
      }
      assert ns.right[p] == c && ns.left[p] == o;
    } else {
      var o := ns0.right[p];
      if o != NIL {
        assert LinkedAt(ns0, sub0, root0, o);
        assert sub[o] == sub0[o] && ns.parent[o] == p;
      }
      assert ns.right[p] == o && ns.left[p] == c;
    }
  }

  /** The node above the rotation keeps its own parent link. */
  lemma RightRotationAboveParent(ns0: Nodes, root0: int, sub0: seq<set<int>>,
                                ns: Nodes, root: int, sub: seq<set<int>>, n: int)
    requires Linked(ns0, sub0, root0) && n in Sub(sub0, root0)
    requires RightRelinked(ns0, root0, sub0, ns, root, sub, n)
    requires Sub(sub, root) == Sub(sub0, root0) && ns0.parent[n] != NIL
    ensures 0 <= ns0.parent[n] < ns.Size() && ParentAt(ns, sub, root, ns0.parent[n])
  {
    var c, p := ns0.left[n], ns0.parent[n];
    RotationParent(ns0, sub0, root0, n, c);
    assert LinkedAt(ns0, sub0, root0, p);
    assert root == root0 && ns.parent[p] == ns0.parent[p];
    if p != root0 {
      var q := ns0.parent[p];
      assert LinkedAt(ns0, sub0, root0, q);
      ParentSubProper(ns0, sub0, root0, p);
      assert q != n && q != c;
      assert ns.right[q] == ns0.right[q] && ns.left[q] == ns0.left[q];
    }
  }

  /** The subtree moved from c to n keeps its children. */
  lemma RightRotationMovedChildren(ns0: Nodes, root0: int, sub0: seq<set<int>>,
                                  ns: Nodes, root: int, sub: seq<set<int>>, n: int)
    requires Linked(ns0, sub0, root0) && n in Sub(sub0, root0)
    requires RightRelinked(ns0, root0, sub0, ns, root, sub, n)
    requires Sub(sub, root) == Sub(sub0, root0) && ns0.right[ns0.left[n]] != NIL
    ensures 0 <= ns0.right[ns0.left[n]] < ns.Size() && ChildrenAt(ns, sub, root, ns0.right[ns0.left[n]])
  {
    var c := ns0.left[n];
    var ci := ns0.right[c];
    RotationNeighbours(ns0, sub0, root0, n, c);
    RotationParent(ns0, sub0, root0, n, c);
    assert LinkedAt(ns0, sub0, root0, ci);
    var l, r := ns0.right[ci], ns0.left[ci];
    assert l == NIL || (ns0.parent[l] == ci && l != n && l != c && l != ci && sub[l] == sub0[l]);
    assert r == NIL || (ns0.parent[r] == ci && r != n && r != c && r != ci && sub[r] == sub0[r]);
    assert ns.right[ci] == l && ns.left[ci] == r && sub[ci] == sub0[ci];
  }

  /** The subtree moved from c to n now hangs under n. */
  lemma RightRotationMovedParent(ns0: Nodes, root0: int, sub0: seq<set<int>>,
                                ns: Nodes, root: int, sub: seq<set<int>>, n: int)
    requires Linked(ns0, sub0, root0) && n in Sub(sub0, root0)
    requires RightRelinked(ns0, root0, sub0, ns, root, sub, n)
    requires Sub(sub, root) == Sub(sub0, root0) && ns0.right[ns0.left[n]] != NIL
    ensures 0 <= ns0.right[ns0.left[n]] < ns.Size() && ParentAt(ns, sub, root, ns0.right[ns0.left[n]])
  {
    var c := ns0.left[n];
    var ci := ns0.right[c];
    RotationNeighbours(ns0, sub0, root0, n, c);
    RotationParent(ns0, sub0, root0, n, c);
    assert LinkedAt(ns0, sub0, root0, ci);
  }

  /** Every node away from the rotation keeps its children and their subtrees. */
  lemma RightRotationOtherChildren(ns0: Nodes, root0: int, sub0: seq<set<int>>,
                                  ns: Nodes, root: int, sub: seq<set<int>>, n: int, k: int)
    requires Linked(ns0, sub0, root0) && n in Sub(sub0, root0)
    requires RightRelinked(ns0, root0, sub0, ns, root, sub, n)
    requires Sub(sub, root) == Sub(sub0, root0) && k in Sub(sub0, root0)
    requires k != n && k != ns0.left[n] && k != ns0.parent[n] && k != ns0.right[ns0.left[n]]
    ensures 0 <= k < ns.Size() && ChildrenAt(ns, sub, root, k)
  {
    var c := ns0.left[n];
    RotationNeighbours(ns0, sub0, root0, n, c);
    assert LinkedAt(ns0, sub0, root0, k);
    var kl, kr := ns0.right[k], ns0.left[k];
    assert kl != n && kl != c && kr != n && kr != c;
    assert ns.right[k] == kl && ns.left[k] == kr && sub[k] == sub0[k];
    assert kl == NIL || (ns.parent[kl] == k && sub[kl] == sub0[kl]);
    assert kr == NIL || (ns.parent[kr] == k && sub[kr] == sub0[kr]);
  }

  /** Every node away from the rotation keeps its parent link. */
  lemma RightRotationOtherParent(ns0: Nodes, root0: int, sub0: seq<set<int>>,
                                ns: Nodes, root: int, sub: seq<set<int>>, n: int, k: int)
    requires Linked(ns0, sub0, root0) && n in Sub(sub0, root0)
    requires RightRelinked(ns0, root0, sub0, ns, root, sub, n)
    requires Sub(sub, root) == Sub(sub0, root0) && k in Sub(sub0, root0)
    requires k != n && k != ns0.left[n] && k != ns0.parent[n] && k != ns0.right[ns0.left[n]]
    ensures 0 <= k < ns.Size() && ParentAt(ns, sub, root, k)
  {
    var c := ns0.left[n];
    RotationNeighbours(ns0, sub0, root0, n, c);
    RotationParent(ns0, sub0, root0, n, c);
    assert LinkedAt(ns0, sub0, root0, k);
    assert ns.parent[k] == ns0.parent[k];
    if k != root0 {
      var q := ns0.parent[k];
      assert LinkedAt(ns0, sub0, root0, q);
    }
  }

  /** A right rotation keeps the tree linked. */
  lemma RightRotationLinked(ns0: Nodes, root0: int, sub0: seq<set<int>>,
                           ns: Nodes, root: int, sub: seq<set<int>>, n: int)
    requires Linked(ns0, sub0, root0) && n in Sub(sub0, root0)
    requires RightRelinked(ns0, root0, sub0, ns, root, sub, n)
    ensures Linked(ns, sub, root) && Sub(sub, root) == Sub(sub0, root0)
  {
    RightRotationLive(ns0, root0, sub0, ns, root, sub, n);
    RightRotationLoweredChildren(ns0, root0, sub0, ns, root, sub, n);
    RightRotationLoweredParent(ns0, root0, sub0, ns, root, sub, n);
    RightRotationRaisedChildren(ns0, root0, sub0, ns, root, sub, n);
    RightRotationRaisedParent(ns0, root0, sub0, ns, root, sub, n);
    if ns0.parent[n] != NIL {
      RightRotationAboveChildren(ns0, root0, sub0, ns, root, sub, n);
      RightRotationAboveParent(ns0, root0, sub0, ns, root, sub, n);
    }
    if ns0.right[ns0.left[n]] != NIL {
      RightRotationMovedChildren(ns0, root0, sub0, ns, root, sub, n);
      RightRotationMovedParent(ns0, root0, sub0, ns, root, sub, n);
    }
    forall k | k in Sub(sub, root)
      ensures 0 <= k < ns.Size() && LinkedAt(ns, sub, root, k)
    {
      if k != n && k != ns0.left[n] && k != ns0.parent[n] && k != ns0.right[ns0.left[n]] {
        RightRotationOtherChildren(ns0, root0, sub0, ns, root, sub, n, k);
        RightRotationOtherParent(ns0, root0, sub0, ns, root, sub, n, k);
      }
    }
  }

  /** After a right rotation the raised node c is in order with its new subtrees. */
  lemma RightRotationOrderedRaised(ns0: Nodes, root0: int, sub0: seq<set<int>>,
                                  ns: Nodes, root: int, sub: seq<set<int>>, n: int, d: int)
    requires Linked(ns0, sub0, root0) && Ordered(ns0, sub0, root0, d)
    requires n in Sub(sub0, root0) && ns0.left[n] != d
    requires RightRelinked(ns0, root0, sub0, ns, root, sub, n)
    ensures OrderedAt(ns, sub, ns0.left[n], d)
  {
    var c, a := ns0.left[n], ns0.right[n];
    assert LinkedAt(ns0, sub0, root0, n);
    assert LinkedAt(ns0, sub0, root0, c);
    assert OrderedAt(ns0, sub0, n, d);
    assert OrderedAt(ns0, sub0, c, d);
    assert Sub(sub, ns.left[c]) == Sub(sub0, ns0.left[c]);
    forall j | j in Sub(sub, ns.right[c]) && j != d && 0 <= j < ns.Size()
      ensures Less(ns.interval[c], ns.interval[j])
    {
      if j in Sub(sub0, a) {
        LessIsStrictTotalOrder(ns.interval[c], ns.interval[n], ns.interval[j]);
      }
    }
  }

  /** After a right rotation the lowered node n is in order with its new subtrees. */
  lemma RightRotationOrderedLowered(ns0: Nodes, root0: int, sub0: seq<set<int>>,
                                   ns: Nodes, root: int, sub: seq<set<int>>, n: int, d: int)
    requires Linked(ns0, sub0, root0) && Ordered(ns0, sub0, root0, d)
    requires n in Sub(sub0, root0)
    requires RightRelinked(ns0, root0, sub0, ns, root, sub, n)
    ensures OrderedAt(ns, sub, n, d)
  {
    var c, a := ns0.left[n], ns0.right[n];
    var ci := ns0.right[c];
    assert LinkedAt(ns0, sub0, root0, n);
    assert LinkedAt(ns0, sub0, root0, c);
    assert OrderedAt(ns0, sub0, n, d);
    if a != NIL {
      assert LinkedAt(ns0, sub0, root0, a);
    }
    if ci != NIL {
      assert LinkedAt(ns0, sub0, root0, ci);
    }
    assert Sub(sub, a) == Sub(sub0, a) && Sub(sub, ci) == Sub(sub0, ci);
  }

  /** A right rotation leaves every other node in order: its subtrees hold the same nodes. */
  lemma RightRotationOrderedOther(ns0: Nodes, root0: int, sub0: seq<set<int>>,
                                 ns: Nodes, root: int, sub: seq<set<int>>, n: int, d: int, k: int)
    requires Linked(ns0, sub0, root0) && Ordered(ns0, sub0, root0, d)
    requires n in Sub(sub0, root0)
    requires RightRelinked(ns0, root0, sub0, ns, root, sub, n)
    requires k in Sub(sub0, root0) && k != n && k != ns0.left[n]
    ensures 0 <= k < ns.Size() && OrderedAt(ns, sub, k, d)
  {
    var c := ns0.left[n];
    assert LinkedAt(ns0, sub0, root0, n);
    assert LinkedAt(ns0, sub0, root0, c);
    assert LinkedAt(ns0, sub0, root0, k);
    assert OrderedAt(ns0, sub0, k, d);
    var kl, kr := ns0.right[k], ns0.left[k];
    if k == ns0.parent[n] {
      assert kl != c && kr != c;
      assert sub[c] == sub0[n];
      if kl == n {
        assert ns.right[k] == c && ns.left[k] == kr;
      } else {
        assert ns.right[k] == kl && ns.left[k] == c;
      }
    } else {
      assert kl != n && kl != c && kr != n && kr != c;
      assert ns.right[k] == kl && ns.left[k] == kr;
    }
  }

  /** A right rotation about n keeps the key order, provided n's left child is not the node
      whose key is out of order. */
  lemma RightRotationOrdered(ns0: Nodes, root0: int, sub0: seq<set<int>>,
                            ns: Nodes, root: int, sub: seq<set<int>>, n: int, d: int)
    requires Linked(ns0, sub0, root0) && Ordered(ns0, sub0, root0, d)
    requires n in Sub(sub0, root0) && ns0.left[n] != d
    requires RightRelinked(ns0, root0, sub0, ns, root, sub, n)
    requires Linked(ns, sub, root) && Sub(sub, root) == Sub(sub0, root0)
    ensures Ordered(ns, sub, root, d)
  {
    forall k | k in Sub(sub, root)
      ensures OrderedAt(ns, sub, k, d)
    {
      if k == n {
        RightRotationOrderedLowered(ns0, root0, sub0, ns, root, sub, n, d);
      } else if k == ns0.left[n] {
        RightRotationOrderedRaised(ns0, root0, sub0, ns, root, sub, n, d);
      } else {
        RightRotationOrderedOther(ns0, root0, sub0, ns, root, sub, n, d, k);
      }
    }
  }

  /** The raised node ends up with the max the lowered node had: both cover the same ends. */
  lemma RightRotationMaxMoves(ns0: Nodes, root0: int, sub0: seq<set<int>>,
                             ns: Nodes, root: int, sub: seq<set<int>>, n: int)
    requires Linked(ns0, sub0, root0) && n in Sub(sub0, root0)
    requires RightRelinked(ns0, root0, sub0, ns, root, sub, n)
    requires Refreshed(ns0.max, ns, n, ns0.left[n], ns0.parent[n])
    requires MaxAt(ns0, n) && MaxAt(ns0, ns0.left[n])
    ensures ns.max[ns0.left[n]] == ns0.max[n]
  {
    var c, a := ns0.left[n], ns0.right[n];
    var ci, co := ns0.right[c], ns0.left[c];
    RotationNeighbours(ns0, sub0, root0, n, c);
    RotationParent(ns0, sub0, root0, n, c);
    assert a == NIL || ns.max[a] == ns0.max[a];
    assert ci == NIL || ns.max[ci] == ns0.max[ci];
    assert co == NIL || ns.max[co] == ns0.max[co];
  }

  /** The node above the rotated pair keeps a correct max when the pair's subtree avoids d. */
  lemma RightRotationMaxAbove(ns0: Nodes, root0: int, sub0: seq<set<int>>,
                             ns: Nodes, root: int, sub: seq<set<int>>, n: int, d: int)
    requires Sound(ns0, sub0, root0, d) && n in Sub(sub0, root0)
    requires RightRelinked(ns0, root0, sub0, ns, root, sub, n)
    requires Refreshed(ns0.max, ns, n, ns0.left[n], ns0.parent[n])
    requires ns0.parent[n] != NIL && d !in sub0[ns0.parent[n]]
    ensures ns.max[ns0.parent[n]] == ns0.max[ns0.parent[n]]
  {
    var c, p := ns0.left[n], ns0.parent[n];
    assert LinkedAt(ns0, sub0, root0, n);
    assert LinkedAt(ns0, sub0, root0, c);
    assert LinkedAt(ns0, sub0, root0, p);
    assert MaxAt(ns0, p) && MaxAt(ns0, n) && MaxAt(ns0, c);
    RightRotationMaxMoves(ns0, root0, sub0, ns, root, sub, n);
    var o := if ns0.left[p] != n then ns0.left[p] else ns0.right[p];
    if o != NIL {
      assert LinkedAt(ns0, sub0, root0, o);
      assert ns.max[o] == ns0.max[o];
    }
  }

  /** The max rule after a right rotation: every node whose subtree avoids d is up to date. */
  lemma RightRotationMax(ns0: Nodes, root0: int, sub0: seq<set<int>>,
                        ns: Nodes, root: int, sub: seq<set<int>>, n: int, d: int, k: int)
    requires Sound(ns0, sub0, root0, d) && n in Sub(sub0, root0)
    requires RightRelinked(ns0, root0, sub0, ns, root, sub, n)
    requires Refreshed(ns0.max, ns, n, ns0.left[n], ns0.parent[n])
    requires k in Sub(sub0, root0)
    ensures 0 <= k < ns.Size() && (d in sub[k] || MaxAt(ns, k))
  {
    var c, p := ns0.left[n], ns0.parent[n];
    if k != n && k != c && k != p && d !in sub[k] {
      assert LinkedAt(ns0, sub0, root0, k);
      assert MaxAt(ns0, k);
      var kl, kr := ns0.right[k], ns0.left[k];
      RotationNeighbours(ns0, sub0, root0, n, c);
      assert kl != n && kl != c && kr != n && kr != c;
      assert ns.right[k] == kl && ns.left[k] == kr && ns.max[k] == ns0.max[k];
      if kl != NIL && kl != p {
        assert ns.max[kl] == ns0.max[kl];
      }
      if kr != NIL && kr != p {
        assert ns.max[kr] == ns0.max[kr];
      }
      if p != NIL && (kl == p || kr == p) {
        assert sub[k] == sub0[k];
        assert d !in sub0[p];
        RightRotationMaxAbove(ns0, root0, sub0, ns, root, sub, n, d);
      }
    }
  }

  /** A right rotation keeps the search-tree invariant (with the same exception node d). */
  lemma RightRotationSound(ns0: Nodes, root0: int, sub0: seq<set<int>>,
                          ns: Nodes, root: int, sub: seq<set<int>>, n: int, d: int)
    requires Sound(ns0, sub0, root0, d) && n in Sub(sub0, root0) && ns0.left[n] != d
    requires RightRotation(ns0, root0, sub0, ns, root, sub, n)
    ensures Sound(ns, sub, root, d) && Sub(sub, root) == Sub(sub0, root0)
  {
    RightRotationLinked(ns0, root0, sub0, ns, root, sub, n);
    RightRotationOrdered(ns0, root0, sub0, ns, root, sub, n, d);
    forall k | k in Sub(sub, root)
      ensures d in sub[k] || MaxAt(ns, k)
    {
      RightRotationMax(ns0, root0, sub0, ns, root, sub, n, d, k);
    }
    forall k | k in Sub(sub, root)
      ensures ns.values[k] != {}
    {
      assert ns0.values[k] != {};
    }
  }

  /** rotateRight(n) in a sound tree, in one statement: it applies wherever n has a left child
      c, and leaves a sound tree over the same nodes in which c holds n's place below n's
      parent p, n is c's right child, and no key, value set or colour has changed. */
  lemma RightRotatedSound(ns0: Nodes, root0: int, sub0: seq<set<int>>, n: int, d: int)
    requires Sound(ns0, sub0, root0, d) && n in Sub(sub0, root0)
    requires ns0.left[n] != NIL && ns0.left[n] != d
    ensures RightRotatable(ns0, n)
    ensures var ns, root, sub := RightRotated(ns0, n), ReplacedRoot(ns0, root0, n, ns0.left[n]),
                                 RightRotatedSub(ns0, sub0, n);
      Sound(ns, sub, root, d) && Sub(sub, root) == Sub(sub0, root0) && |sub| == |sub0|
    ensures var ns, c, p := RightRotated(ns0, n), ns0.left[n], ns0.parent[n];
      ns.interval == ns0.interval && ns.values == ns0.values && ns.color == ns0.color &&
      ns.right[c] == n && ns.left[c] == ns0.left[c] && ns.parent[c] == p &&
      ns.right[n] == ns0.right[n] && ns.left[n] == ns0.right[c] && ns.parent[n] == c &&
      (p == NIL <==> root0 == n) &&
      (p != NIL ==> (ns.right[p] == c <==> ns0.left[p] != n) && (ns.right[p] == c || ns.left[p] == c))
  {
    RightRotatedIsRightRotation(ns0, root0, sub0, n);
    var ns, root, sub := RightRotated(ns0, n), ReplacedRoot(ns0, root0, n, ns0.left[n]),
                         RightRotatedSub(ns0, sub0, n);
    RightRotationSound(ns0, root0, sub0, ns, root, sub, n, d);
    RotationParent(ns0, sub0, root0, n, ns0.left[n]);
    RotationNeighbours(ns0, sub0, root0, n, ns0.left[n]);
  }
}
