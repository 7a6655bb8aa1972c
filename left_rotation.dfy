/** rotateLeft of IntervalTree.java described by its effect on the arena, and the proof that it
    keeps the search-tree part of the invariant. */
module LeftRotations {
  import opened Intervals
  import opened TreeNodes
  import opened Rotations

  /** The links after rotateLeft(n), started in (ns0, root0, sub0): n's right child c takes n's
      place under n's parent p, n becomes c's left child and takes c's former left subtree ci as
      its new right subtree; nothing else is relinked, and no key, value set or colour changes.
      The ghost subtrees of n and c are recomputed, all others stay. */
  ghost predicate LeftRelinked(ns0: Nodes, root0: int, sub0: seq<set<int>>,
                               ns: Nodes, root: int, sub: seq<set<int>>, n: int)
    requires ns0.Sized() && |sub0| == ns0.Size() && 0 <= n < ns0.Size()
  {
    var c, p, a := ns0.right[n], ns0.parent[n], ns0.left[n];
    0 <= c < ns0.Size() &&
    var ci, co := ns0.left[c], ns0.right[c];
    ns.Sized() && ns.Size() == ns0.Size() && |sub| == |sub0| &&
    ns.interval == ns0.interval && ns.values == ns0.values && ns.color == ns0.color &&
    ns.left[n] == a && ns.right[n] == ci && ns.parent[n] == c &&
    ns.left[c] == n && ns.right[c] == co && ns.parent[c] == p &&
    (ci != NIL ==> 0 <= ci < ns.Size() && ns.parent[ci] == n) &&
    (p == NIL ==> root == c) &&
    (p != NIL ==>
       root == root0 && 0 <= p < ns.Size() &&
       (if ns0.left[p] == n then ns.left[p] == c && ns.right[p] == ns0.right[p]
        else ns.left[p] == ns0.left[p] && ns.right[p] == c)) &&
    (forall k | 0 <= k < ns.Size() && k != n && k != c && k != p ::
       ns.left[k] == ns0.left[k] && ns.right[k] == ns0.right[k]) &&
    (forall k | 0 <= k < ns.Size() && k != n && k != c && k != ci ::
       ns.parent[k] == ns0.parent[k]) &&
    sub == sub0[n := {n} + Sub(sub0, a) + Sub(sub0, ci)][c := sub0[n]]
  }

  /** (ns, root, sub) is what rotateLeft(n) leaves behind: the links of LeftRelinked, and
      updateMax applied to n, its former right child c and c's new parent. */
  ghost predicate LeftRotation(ns0: Nodes, root0: int, sub0: seq<set<int>>,
                               ns: Nodes, root: int, sub: seq<set<int>>, n: int)
    requires ns0.Sized() && |sub0| == ns0.Size() && 0 <= n < ns0.Size()
  {
    LeftRelinked(ns0, root0, sub0, ns, root, sub, n) &&
    Refreshed(ns0.max, ns, n, ns0.right[n], ns0.parent[n])
  }

  /** The pointer assignments of rotateLeft(n), replaceNode included, as one update of the
      arena. */
  lemma LeftRotationRelink(ns0: Nodes, root0: int, sub0: seq<set<int>>, n: int,
                           s1: Nodes, links: Nodes)
    requires Linked(ns0, sub0, root0) && n in Sub(sub0, root0)
    requires 0 <= n < ns0.Size() && 0 <= ns0.right[n] < ns0.Size()
    requires ns0.parent[n] == NIL || 0 <= ns0.parent[n] < ns0.Size()
    requires ns0.left[ns0.right[n]] == NIL || 0 <= ns0.left[ns0.right[n]] < ns0.Size()
    requires var c, p := ns0.right[n], ns0.parent[n];
      s1 == ns0.(
        left := if p != NIL && ns0.left[p] == n then ns0.left[p := c] else ns0.left,
        right := if p != NIL && ns0.left[p] != n then ns0.right[p := c] else ns0.right,
        parent := if c == NIL then ns0.parent else ns0.parent[c := p])
    requires s1.Sized() && s1.Size() == ns0.Size()
    requires var c := ns0.right[n];
      var t1 := s1.(right := s1.right[n := s1.left[c]]);
      var t2 := if t1.left[c] != NIL && 0 <= t1.left[c] < t1.Size()
                then t1.(parent := t1.parent[t1.left[c] := n]) else t1;
      var t3 := t2.(left := t2.left[c := n]);
      links == t3.(parent := t3.parent[n := c])
    ensures var c, p := ns0.right[n], ns0.parent[n];
      var ci := ns0.left[c];
      links.interval == ns0.interval && links.values == ns0.values &&
      links.color == ns0.color && links.max == ns0.max &&
      links.left == (if p != NIL && ns0.left[p] == n then ns0.left[p := c] else ns0.left)[c := n] &&
      links.right == (if p != NIL && ns0.left[p] != n then ns0.right[p := c] else ns0.right)[n := ci] &&
      links.parent == (if ci != NIL then ns0.parent[c := p][ci := n] else ns0.parent[c := p])[n := c]
  {
    RotationNeighbours(ns0, sub0, root0, n, ns0.right[n]);
    RotationParent(ns0, sub0, root0, n, ns0.right[n]);
  }

  /** The arena after the pointer assignments of rotateLeft(n) is relinked as LeftRelinked says. */
  lemma LeftRotationByLinks(ns0: Nodes, root0: int, sub0: seq<set<int>>,
                            links: Nodes, root: int, n: int)
    requires Linked(ns0, sub0, root0) && n in Sub(sub0, root0) && ns0.right[n] != NIL
    requires 0 <= n < ns0.Size() && 0 <= ns0.right[n] < ns0.Size()
    requires ns0.parent[n] == NIL || 0 <= ns0.parent[n] < ns0.Size()
    requires ns0.left[ns0.right[n]] == NIL || 0 <= ns0.left[ns0.right[n]] < ns0.Size()
    requires var c, p := ns0.right[n], ns0.parent[n];
      var ci := ns0.left[c];
      links.interval == ns0.interval && links.values == ns0.values &&
      links.color == ns0.color && links.max == ns0.max &&
      links.left == (if p != NIL && ns0.left[p] == n then ns0.left[p := c] else ns0.left)[c := n] &&
      links.right == (if p != NIL && ns0.left[p] != n then ns0.right[p := c] else ns0.right)[n := ci] &&
      links.parent == (if ci != NIL then ns0.parent[c := p][ci := n] else ns0.parent[c := p])[n := c] &&
      root == (if p == NIL then c else root0)
    ensures var c := ns0.right[n];
      LeftRelinked(ns0, root0, sub0, links, root,
                   sub0[n := {n} + Sub(sub0, ns0.left[n]) + Sub(sub0, ns0.left[c])][c := sub0[n]], n)
  {
    RotationNeighbours(ns0, sub0, root0, n, ns0.right[n]);
    RotationParent(ns0, sub0, root0, n, ns0.right[n]);
  }

  /** Relinked states that differ only in their maxes are relinked alike. */
  lemma LeftRelinkedMaxFree(ns0: Nodes, root0: int, sub0: seq<set<int>>,
                            links: Nodes, ns: Nodes, root: int, sub: seq<set<int>>, n: int)
    requires ns0.Sized() && |sub0| == ns0.Size() && 0 <= n < ns0.Size()
    requires LeftRelinked(ns0, root0, sub0, links, root, sub, n)
    requires ns == links.(max := ns.max) && |ns.max| == links.Size()
    ensures LeftRelinked(ns0, root0, sub0, ns, root, sub, n)
  {
  }

  /** What the three updateMax calls of rotateLeft(n) rely on: after the relinking, n, c and c's
      new parent p each have children that point back to them. */
  lemma LeftRelinkedFacts(ns0: Nodes, root0: int, sub0: seq<set<int>>,
                          ns: Nodes, root: int, sub: seq<set<int>>, n: int)
    requires Linked(ns0, sub0, root0) && n in Sub(sub0, root0)
    requires LeftRelinked(ns0, root0, sub0, ns, root, sub, n)
    ensures var c, p, a := ns0.right[n], ns0.parent[n], ns0.left[n];
      var ci, co := ns0.left[c], ns0.right[c];
      ns.Sized() && 0 <= n < ns.Size() && 0 <= c < ns.Size() && n != c &&
      (p == NIL || 0 <= p < ns.Size()) && p != n && p != c &&
      ns.parent[c] == p && ns.parent[n] == c &&
      ns.left[n] == a && ns.right[n] == ci && ns.left[c] == n && ns.right[c] == co &&
      (a == NIL || (0 <= a < ns.Size() && ns.parent[a] == n && a != c && a != p && a != n)) &&
      (ci == NIL || (0 <= ci < ns.Size() && ns.parent[ci] == n && ci != c && ci != p && ci != n)) &&
      (co == NIL || (0 <= co < ns.Size() && ns.parent[co] == c && co != p && co != c))
    ensures var p := ns0.parent[n];
      p != NIL ==> (ns.left[p] != p && ns.right[p] != p &&
        (ns.left[p] == NIL || (0 <= ns.left[p] < ns.Size() && ns.parent[ns.left[p]] == p)) &&
        (ns.right[p] == NIL || (0 <= ns.right[p] < ns.Size() && ns.parent[ns.right[p]] == p)))
  {
    RotationNeighbours(ns0, sub0, root0, n, ns0.right[n]);
    RotationParent(ns0, sub0, root0, n, ns0.right[n]);
  }

  /** What rotateLeft(n) dereferences exists: n, its right child c, c's children, n's left child
      and n's parent p with its children, none of them NIL unless the code checks for NIL. */
  ghost predicate LeftRotatable(ns: Nodes, n: int) {
    var rotatable :=
      ns.Sized() && 0 <= n < ns.Size() &&
      var c, p, a := ns.right[n], ns.parent[n], ns.left[n];
      0 <= c < ns.Size() && c != n && (p == NIL || 0 <= p < ns.Size()) && p != c && p != n &&
      var ci, co := ns.left[c], ns.right[c];
      (a == NIL || 0 <= a < ns.Size()) && (ci == NIL || 0 <= ci < ns.Size()) &&
      (co == NIL || 0 <= co < ns.Size()) && a != c && ci != c && co != c && ci != n &&
      (p != NIL ==> ((ns.left[p] == NIL || 0 <= ns.left[p] < ns.Size()) &&
                     (ns.right[p] == NIL || 0 <= ns.right[p] < ns.Size())));
    rotatable
  }

  /** In a linked tree, every live node with a right child can be rotated left. */
  lemma LeftRotatableLinked(ns0: Nodes, root0: int, sub0: seq<set<int>>, n: int)
    requires Linked(ns0, sub0, root0) && n in Sub(sub0, root0)
    ensures 0 <= n < ns0.Size()
    ensures ns0.right[n] != NIL ==> LeftRotatable(ns0, n)
  {
    assert LinkedAt(ns0, sub0, root0, n);
    if ns0.right[n] != NIL {
      RotationNeighbours(ns0, sub0, root0, n, ns0.right[n]);
      RotationParent(ns0, sub0, root0, n, ns0.right[n]);
    }
  }

  /** The pointers after the statements of rotateLeft(n) that precede its updateMax calls. */
  function LeftLinked(ns: Nodes, n: int): (r: Nodes)
    requires LeftRotatable(ns, n)
    ensures r.Sized() && r.Size() == ns.Size()
  {
    var c := ns.right[n];
    var s1 := Replaced(ns, n, c);
    var t1 := s1.(right := s1.right[n := s1.left[c]]);
    var t2 := if t1.left[c] != NIL then t1.(parent := t1.parent[t1.left[c] := n]) else t1;
    var t3 := t2.(left := t2.left[c := n]);
    t3.(parent := t3.parent[n := c])
  }

  /** The links of n, c and p after the pointer assignments of rotateLeft(n), which the
      updateMax calls that follow read. */
  lemma LeftLinkedAround(ns: Nodes, n: int)
    requires LeftRotatable(ns, n)
    ensures var r, c, p := LeftLinked(ns, n), ns.right[n], ns.parent[n];
      var a, ci, co := ns.left[n], ns.left[c], ns.right[c];
      r.left[n] == a && r.right[n] == ci && r.left[c] == n && r.right[c] == co &&
      r.parent[c] == p && MaxUpdated(MaxUpdated(r, n), c).parent[c] == p &&
      (p != NIL ==> ((r.left[p] == NIL || 0 <= r.left[p] < r.Size()) &&
                     (r.right[p] == NIL || 0 <= r.right[p] < r.Size())))
  {
  }

  /** The arena rotateLeft(n) leaves: LeftLinked, then updateMax on n, on n's former right child
      c and, when there is one, on c's new parent. */
  function LeftRotated(ns: Nodes, n: int): (r: Nodes)
    requires LeftRotatable(ns, n)
    ensures r.Sized() && r.Size() == ns.Size()
  {
    var c, p := ns.right[n], ns.parent[n];
    var s3 := MaxUpdated(MaxUpdated(LeftLinked(ns, n), n), c);
    if p != NIL then MaxUpdated(s3, p) else s3
  }

  /** The ghost subtrees after rotateLeft(n): n keeps its left subtree and gains c's former left
      subtree, c takes over n's former subtree. */
  ghost function LeftRotatedSub(ns: Nodes, sub: seq<set<int>>, n: int): (r: seq<set<int>>)
    requires LeftRotatable(ns, n) && |sub| == ns.Size()
    ensures |r| == |sub|
  {
    var c := ns.right[n];
    sub[n := {n} + Sub(sub, ns.left[n]) + Sub(sub, ns.left[c])][c := sub[n]]
  }

  /** The pointer assignments of rotateLeft(n), replaceNode included, relink the arena as
      LeftRelinked says, and leave n, c and p with children that point back to them. */
  lemma LeftRotationLinksPhase(ns0: Nodes, root0: int, sub0: seq<set<int>>, n: int,
                               s1: Nodes, links: Nodes, root: int)
    requires Linked(ns0, sub0, root0) && n in Sub(sub0, root0)
    requires 0 <= n < ns0.Size() && 0 <= ns0.right[n] < ns0.Size()
    requires ns0.parent[n] == NIL || 0 <= ns0.parent[n] < ns0.Size()
    requires ns0.left[ns0.right[n]] == NIL || 0 <= ns0.left[ns0.right[n]] < ns0.Size()
    requires var c, p := ns0.right[n], ns0.parent[n];
      root == (if p == NIL then c else root0) &&
      s1 == ns0.(
        left := if p != NIL && ns0.left[p] == n then ns0.left[p := c] else ns0.left,
        right := if p != NIL && ns0.left[p] != n then ns0.right[p := c] else ns0.right,
        parent := if c == NIL then ns0.parent else ns0.parent[c := p])
    requires s1.Sized() && s1.Size() == ns0.Size()
    requires var c := ns0.right[n];
      var t1 := s1.(right := s1.right[n := s1.left[c]]);
      var t2 := if t1.left[c] != NIL && 0 <= t1.left[c] < t1.Size()
                then t1.(parent := t1.parent[t1.left[c] := n]) else t1;
      var t3 := t2.(left := t2.left[c := n]);
      links == t3.(parent := t3.parent[n := c])
    ensures var c := ns0.right[n];
      LeftRelinked(ns0, root0, sub0, links, root,
                   sub0[n := {n} + Sub(sub0, ns0.left[n]) + Sub(sub0, ns0.left[c])][c := sub0[n]], n)
    ensures var c, p, a := ns0.right[n], ns0.parent[n], ns0.left[n];
      var ci, co := ns0.left[c], ns0.right[c];
      links.Sized() && links.Size() == ns0.Size() && links.max == ns0.max &&
      links.left[n] == a && links.right[n] == ci && links.left[c] == n && links.right[c] == co &&
      a != c && ci != c && co != c && links.left[c] != c &&
      (a == NIL || 0 <= a < links.Size()) && (ci == NIL || 0 <= ci < links.Size()) &&
      (co == NIL || 0 <= co < links.Size()) && links.parent[c] == p &&
      (p != NIL ==> (0 <= p < links.Size() &&
        (links.left[p] == NIL || 0 <= links.left[p] < links.Size()) &&
        (links.right[p] == NIL || 0 <= links.right[p] < links.Size())))
  {
    var c := ns0.right[n];
    var sub := sub0[n := {n} + Sub(sub0, ns0.left[n]) + Sub(sub0, ns0.left[c])][c := sub0[n]];
    LeftRotationRelink(ns0, root0, sub0, n, s1, links);
    LeftRotationByLinks(ns0, root0, sub0, links, root, n);
    LeftRelinkedFacts(ns0, root0, sub0, links, root, sub, n);
  }

  /** The three updateMax calls that end rotateLeft(n) complete a LeftRotation. */
  lemma LeftRotationMaxPhase(ns0: Nodes, root0: int, sub0: seq<set<int>>,
                             links: Nodes, s2: Nodes, s3: Nodes, ns: Nodes,
                             root: int, sub: seq<set<int>>, n: int)
    requires Linked(ns0, sub0, root0) && n in Sub(sub0, root0)
    requires LeftRelinked(ns0, root0, sub0, links, root, sub, n) && links.max == ns0.max
    requires s2 == links.(max := links.max[n := UpdatedMax(links, n)], parent := Adopted(links, n))
    requires s2.Sized() && s3 == s2.(max := s2.max[ns0.right[n] := UpdatedMax(s2, ns0.right[n])],
                                     parent := Adopted(s2, ns0.right[n]))
    requires s3.Sized()
    requires var p := ns0.parent[n];
      ns == if p != NIL then s3.(max := s3.max[p := UpdatedMax(s3, p)], parent := Adopted(s3, p))
            else s3
    ensures LeftRotation(ns0, root0, sub0, ns, root, sub, n)
  {
    var c, p := ns0.right[n], ns0.parent[n];
    LeftRelinkedFacts(ns0, root0, sub0, links, root, sub, n);
    RotationRefresh(links, s2, s3, ns, n, c, p, ns0.left[n], ns0.left[c], ns0.right[c]);
    LeftRelinkedMaxFree(ns0, root0, sub0, links, ns, root, sub, n);
  }

  /** The links of n, its former right child c and n's parent p after rotateLeft(n); no colour
      changes. */
  lemma LeftRotatedAround(ns: Nodes, n: int)
    requires LeftRotatable(ns, n)
    ensures var r, c, p := LeftRotated(ns, n), ns.right[n], ns.parent[n];
      r.color == ns.color &&
      r.left[n] == ns.left[n] && r.right[n] == ns.left[c] && r.left[c] == n && r.right[c] == ns.right[c] &&
      (p != NIL && ns.left[p] == n ==> r.left[p] == c && r.right[p] == ns.right[p]) &&
      (p != NIL && ns.left[p] != n ==> r.left[p] == ns.left[p] && r.right[p] == c)
  {
    LeftLinkedAround(ns, n);
  }

  /** rotateLeft(n) relinks no node other than n, its former right child and n's parent. */
  lemma LeftRotatedAway(ns: Nodes, n: int, k: int)
    requires LeftRotatable(ns, n) && 0 <= k < ns.Size()
    requires k != n && k != ns.right[n] && k != ns.parent[n]
    ensures LeftRotated(ns, n).left[k] == ns.left[k] && LeftRotated(ns, n).right[k] == ns.right[k]
  {
  }

  /** LeftRotated describes a left rotation: rotateLeft(n) in a linked tree does what
      LeftRotation says. */
  lemma LeftRotatedIsLeftRotation(ns0: Nodes, root0: int, sub0: seq<set<int>>, n: int)
    requires Linked(ns0, sub0, root0) && n in Sub(sub0, root0) && ns0.right[n] != NIL
    ensures LeftRotatable(ns0, n)
    ensures LeftRotation(ns0, root0, sub0, LeftRotated(ns0, n),
                         ReplacedRoot(ns0, root0, n, ns0.right[n]), LeftRotatedSub(ns0, sub0, n), n)
  {
    LeftRotatableLinked(ns0, root0, sub0, n);
    var c, p := ns0.right[n], ns0.parent[n];
    var links := LeftLinked(ns0, n);
    var s2 := MaxUpdated(links, n);
    var s3 := MaxUpdated(s2, c);
    var root := ReplacedRoot(ns0, root0, n, c);
    var sub := LeftRotatedSub(ns0, sub0, n);
    LeftRotationLinksPhase(ns0, root0, sub0, n, Replaced(ns0, n, c), links, root);
    LeftRotationMaxPhase(ns0, root0, sub0, links, s2, s3, LeftRotated(ns0, n), root, sub, n);
  }

  /** The reachable nodes do not change under a left rotation. */
  lemma LeftRotationLive(ns0: Nodes, root0: int, sub0: seq<set<int>>,
                         ns: Nodes, root: int, sub: seq<set<int>>, n: int)
    requires Linked(ns0, sub0, root0) && n in Sub(sub0, root0)
    requires LeftRelinked(ns0, root0, sub0, ns, root, sub, n)
    ensures Sub(sub, root) == Sub(sub0, root0)
  {
    var c := ns0.right[n];
    assert LinkedAt(ns0, sub0, root0, n);
    assert LinkedAt(ns0, sub0, root0, c);
    if root0 != n {
      assert root != n && root != c;
    }
  }

  /** The lowered node n has its old left subtree a and c's old left subtree ci as children. */
  lemma LeftRotationLoweredChildren(ns0: Nodes, root0: int, sub0: seq<set<int>>,
                                  ns: Nodes, root: int, sub: seq<set<int>>, n: int)
    requires Linked(ns0, sub0, root0) && n in Sub(sub0, root0)
    requires LeftRelinked(ns0, root0, sub0, ns, root, sub, n)
    requires Sub(sub, root) == Sub(sub0, root0)
    ensures ChildrenAt(ns, sub, root, n)
  {
    var c, a := ns0.right[n], ns0.left[n];
    var ci, co := ns0.left[c], ns0.right[c];
    assert LinkedAt(ns0, sub0, root0, n);
    assert LinkedAt(ns0, sub0, root0, c);
    RotatedSubtrees(sub0[n], Sub(sub0, a), sub0[c], Sub(sub0, ci), Sub(sub0, co), n, c);
    assert a == NIL || (sub[a] == sub0[a] && ns.parent[a] == n);
    assert ci == NIL || sub[ci] == sub0[ci];
  }

  /** The lowered node n now hangs under c. */
  lemma LeftRotationLoweredParent(ns0: Nodes, root0: int, sub0: seq<set<int>>,
                                  ns: Nodes, root: int, sub: seq<set<int>>, n: int)
    requires Linked(ns0, sub0, root0) && n in Sub(sub0, root0)
    requires LeftRelinked(ns0, root0, sub0, ns, root, sub, n)
    requires Sub(sub, root) == Sub(sub0, root0)
    ensures ParentAt(ns, sub, root, n)
  {
    RotationNeighbours(ns0, sub0, root0, n, ns0.right[n]);
    RotationParent(ns0, sub0, root0, n, ns0.right[n]);
  }

  /** The raised node c has n and its old right subtree co as children after a left rotation. */
  lemma LeftRotationRaisedChildren(ns0: Nodes, root0: int, sub0: seq<set<int>>,
                                   ns: Nodes, root: int, sub: seq<set<int>>, n: int)
    requires Linked(ns0, sub0, root0) && n in Sub(sub0, root0)
    requires LeftRelinked(ns0, root0, sub0, ns, root, sub, n)
    requires Sub(sub, root) == Sub(sub0, root0)
    ensures ChildrenAt(ns, sub, root, ns0.right[n])
  {
    var c, a := ns0.right[n], ns0.left[n];
    var ci, co := ns0.left[c], ns0.right[c];
    assert LinkedAt(ns0, sub0, root0, n);
    assert LinkedAt(ns0, sub0, root0, c);
    RotatedSubtrees(sub0[n], Sub(sub0, a), sub0[c], Sub(sub0, ci), Sub(sub0, co), n, c);
    if co != NIL {
      assert LinkedAt(ns0, sub0, root0, co);
      assert sub[co] == sub0[co] && ns.parent[co] == c;
    }
    assert sub[c] == sub0[n] && sub[n] == {n} + Sub(sub0, a) + Sub(sub0, ci);
  }

  /** The raised node c hangs where n hung: under n's old parent, or at the root. */
  lemma LeftRotationRaisedParent(ns0: Nodes, root0: int, sub0: seq<set<int>>,
                                 ns: Nodes, root: int, sub: seq<set<int>>, n: int)
    requires Linked(ns0, sub0, root0) && n in Sub(sub0, root0)
    requires LeftRelinked(ns0, root0, sub0, ns, root, sub, n)
    requires Sub(sub, root) == Sub(sub0, root0)
    ensures ParentAt(ns, sub, root, ns0.right[n])
  {
    var c, p := ns0.right[n], ns0.parent[n];
    RotationNeighbours(ns0, sub0, root0, n, c);
    RotationParent(ns0, sub0, root0, n, c);
    assert LinkedAt(ns0, sub0, root0, c);
  }

  /** The node above the rotation keeps its children (one child pointer now names c, whose new
      subtree is n's old one). */
  lemma LeftRotationAboveChildren(ns0: Nodes, root0: int, sub0: seq<set<int>>,
                                  ns: Nodes, root: int, sub: seq<set<int>>, n: int)
    requires Linked(ns0, sub0, root0) && n in Sub(sub0, root0)
    requires LeftRelinked(ns0, root0, sub0, ns, root, sub, n)
    requires Sub(sub, root) == Sub(sub0, root0) && ns0.parent[n] != NIL
    ensures 0 <= ns0.parent[n] < ns.Size() && ChildrenAt(ns, sub, root, ns0.parent[n])
  {
    var c, p := ns0.right[n], ns0.parent[n];
    assert LinkedAt(ns0, sub0, root0, n);
    assert LinkedAt(ns0, sub0, root0, c);
    assert LinkedAt(ns0, sub0, root0, p);
    assert sub[p] == sub0[p] && sub[c] == sub0[n];
    if ns0.left[p] == n {
      var o := ns0.right[p];
      if o != NIL {
        assert LinkedAt(ns0, sub0, root0, o);
        assert sub[o] == sub0[o] && ns.parent[o] == p;
      }
      assert ns.left[p] == c && ns.right[p] == o;
    } else {
      var o := ns0.left[p];
      if o != NIL {
        assert LinkedAt(ns0, sub0, root0, o);
        assert sub[o] == sub0[o] && ns.parent[o] == p;
      }
      assert ns.left[p] == o && ns.right[p] == c;
    }
  }

  /** The node above the rotation keeps its own parent link. */
  lemma LeftRotationAboveParent(ns0: Nodes, root0: int, sub0: seq<set<int>>,
                                ns: Nodes, root: int, sub: seq<set<int>>, n: int)
    requires Linked(ns0, sub0, root0) && n in Sub(sub0, root0)
    requires LeftRelinked(ns0, root0, sub0, ns, root, sub, n)
    requires Sub(sub, root) == Sub(sub0, root0) && ns0.parent[n] != NIL
    ensures 0 <= ns0.parent[n] < ns.Size() && ParentAt(ns, sub, root, ns0.parent[n])
  {
    var c, p := ns0.right[n], ns0.parent[n];
    RotationParent(ns0, sub0, root0, n, c);
    assert LinkedAt(ns0, sub0, root0, p);
    assert root == root0 && ns.parent[p] == ns0.parent[p];
    if p != root0 {
      var q := ns0.parent[p];
      assert LinkedAt(ns0, sub0, root0, q);
      ParentSubProper(ns0, sub0, root0, p);
      assert q != n && q != c;
      assert ns.left[q] == ns0.left[q] && ns.right[q] == ns0.right[q];
    }
  }

  /** The subtree moved from c to n keeps its children. */
  lemma LeftRotationMovedChildren(ns0: Nodes, root0: int, sub0: seq<set<int>>,
                                  ns: Nodes, root: int, sub: seq<set<int>>, n: int)
    requires Linked(ns0, sub0, root0) && n in Sub(sub0, root0)
    requires LeftRelinked(ns0, root0, sub0, ns, root, sub, n)
    requires Sub(sub, root) == Sub(sub0, root0) && ns0.left[ns0.right[n]] != NIL
    ensures 0 <= ns0.left[ns0.right[n]] < ns.Size() && ChildrenAt(ns, sub, root, ns0.left[ns0.right[n]])
  {
    var c := ns0.right[n];
    var ci := ns0.left[c];
    RotationNeighbours(ns0, sub0, root0, n, c);
    RotationParent(ns0, sub0, root0, n, c);
    assert LinkedAt(ns0, sub0, root0, ci);
    var l, r := ns0.left[ci], ns0.right[ci];
    assert l == NIL || (ns0.parent[l] == ci && l != n && l != c && l != ci && sub[l] == sub0[l]);
    assert r == NIL || (ns0.parent[r] == ci && r != n && r != c && r != ci && sub[r] == sub0[r]);
    assert ns.left[ci] == l && ns.right[ci] == r && sub[ci] == sub0[ci];
  }

  /** The subtree moved from c to n now hangs under n. */
  lemma LeftRotationMovedParent(ns0: Nodes, root0: int, sub0: seq<set<int>>,
                                ns: Nodes, root: int, sub: seq<set<int>>, n: int)
    requires Linked(ns0, sub0, root0) && n in Sub(sub0, root0)
    requires LeftRelinked(ns0, root0, sub0, ns, root, sub, n)
    requires Sub(sub, root) == Sub(sub0, root0) && ns0.left[ns0.right[n]] != NIL
    ensures 0 <= ns0.left[ns0.right[n]] < ns.Size() && ParentAt(ns, sub, root, ns0.left[ns0.right[n]])
  {
    var c := ns0.right[n];
    var ci := ns0.left[c];
    RotationNeighbours(ns0, sub0, root0, n, c);
    RotationParent(ns0, sub0, root0, n, c);
    assert LinkedAt(ns0, sub0, root0, ci);
  }

  /** Every node away from the rotation keeps its children and their subtrees. */
  lemma LeftRotationOtherChildren(ns0: Nodes, root0: int, sub0: seq<set<int>>,
                                  ns: Nodes, root: int, sub: seq<set<int>>, n: int, k: int)
    requires Linked(ns0, sub0, root0) && n in Sub(sub0, root0)
    requires LeftRelinked(ns0, root0, sub0, ns, root, sub, n)
    requires Sub(sub, root) == Sub(sub0, root0) && k in Sub(sub0, root0)
    requires k != n && k != ns0.right[n] && k != ns0.parent[n] && k != ns0.left[ns0.right[n]]
    ensures 0 <= k < ns.Size() && ChildrenAt(ns, sub, root, k)
  {
    var c := ns0.right[n];
    RotationNeighbours(ns0, sub0, root0, n, c);
    assert LinkedAt(ns0, sub0, root0, k);
    var kl, kr := ns0.left[k], ns0.right[k];
    assert kl != n && kl != c && kr != n && kr != c;
    assert ns.left[k] == kl && ns.right[k] == kr && sub[k] == sub0[k];
    assert kl == NIL || (ns.parent[kl] == k && sub[kl] == sub0[kl]);
    assert kr == NIL || (ns.parent[kr] == k && sub[kr] == sub0[kr]);
  }

  /** Every node away from the rotation keeps its parent link. */
  lemma LeftRotationOtherParent(ns0: Nodes, root0: int, sub0: seq<set<int>>,
                                ns: Nodes, root: int, sub: seq<set<int>>, n: int, k: int)
    requires Linked(ns0, sub0, root0) && n in Sub(sub0, root0)
    requires LeftRelinked(ns0, root0, sub0, ns, root, sub, n)
    requires Sub(sub, root) == Sub(sub0, root0) && k in Sub(sub0, root0)
    requires k != n && k != ns0.right[n] && k != ns0.parent[n] && k != ns0.left[ns0.right[n]]
    ensures 0 <= k < ns.Size() && ParentAt(ns, sub, root, k)
  {
    var c := ns0.right[n];
    RotationNeighbours(ns0, sub0, root0, n, c);
    RotationParent(ns0, sub0, root0, n, c);
    assert LinkedAt(ns0, sub0, root0, k);
    assert ns.parent[k] == ns0.parent[k];
    if k != root0 {
      var q := ns0.parent[k];
      assert LinkedAt(ns0, sub0, root0, q);
    }
  }

  /** A left rotation keeps the tree linked. */
  lemma LeftRotationLinked(ns0: Nodes, root0: int, sub0: seq<set<int>>,
                           ns: Nodes, root: int, sub: seq<set<int>>, n: int)
    requires Linked(ns0, sub0, root0) && n in Sub(sub0, root0)
    requires LeftRelinked(ns0, root0, sub0, ns, root, sub, n)
    ensures Linked(ns, sub, root) && Sub(sub, root) == Sub(sub0, root0)
  {
    LeftRotationLive(ns0, root0, sub0, ns, root, sub, n);
    LeftRotationLoweredChildren(ns0, root0, sub0, ns, root, sub, n);
    LeftRotationLoweredParent(ns0, root0, sub0, ns, root, sub, n);
    LeftRotationRaisedChildren(ns0, root0, sub0, ns, root, sub, n);
    LeftRotationRaisedParent(ns0, root0, sub0, ns, root, sub, n);
    if ns0.parent[n] != NIL {
      LeftRotationAboveChildren(ns0, root0, sub0, ns, root, sub, n);
      LeftRotationAboveParent(ns0, root0, sub0, ns, root, sub, n);
    }
    if ns0.left[ns0.right[n]] != NIL {
      LeftRotationMovedChildren(ns0, root0, sub0, ns, root, sub, n);
      LeftRotationMovedParent(ns0, root0, sub0, ns, root, sub, n);
    }
    forall k | k in Sub(sub, root)
      ensures 0 <= k < ns.Size() && LinkedAt(ns, sub, root, k)
    {
      if k != n && k != ns0.right[n] && k != ns0.parent[n] && k != ns0.left[ns0.right[n]] {
        LeftRotationOtherChildren(ns0, root0, sub0, ns, root, sub, n, k);
        LeftRotationOtherParent(ns0, root0, sub0, ns, root, sub, n, k);
      }
    }
  }

  /** After a left rotation the raised node c is in order with its new subtrees. */
  lemma LeftRotationOrderedRaised(ns0: Nodes, root0: int, sub0: seq<set<int>>,
                                  ns: Nodes, root: int, sub: seq<set<int>>, n: int, d: int)
    requires Linked(ns0, sub0, root0) && Ordered(ns0, sub0, root0, d)
    requires n in Sub(sub0, root0) && ns0.right[n] != d
    requires LeftRelinked(ns0, root0, sub0, ns, root, sub, n)
    ensures OrderedAt(ns, sub, ns0.right[n], d)
  {
    var c, a := ns0.right[n], ns0.left[n];
    assert LinkedAt(ns0, sub0, root0, n);
    assert LinkedAt(ns0, sub0, root0, c);
    assert OrderedAt(ns0, sub0, n, d);
    assert OrderedAt(ns0, sub0, c, d);
    assert Sub(sub, ns.right[c]) == Sub(sub0, ns0.right[c]);
    forall j | j in Sub(sub, ns.left[c]) && j != d && 0 <= j < ns.Size()
      ensures Less(ns.interval[j], ns.interval[c])
    {
      if j in Sub(sub0, a) {
        LessIsStrictTotalOrder(ns.interval[j], ns.interval[n], ns.interval[c]);
      }
    }
  }

  /** After a left rotation the lowered node n is in order with its new subtrees. */
  lemma LeftRotationOrderedLowered(ns0: Nodes, root0: int, sub0: seq<set<int>>,
                                   ns: Nodes, root: int, sub: seq<set<int>>, n: int, d: int)
    requires Linked(ns0, sub0, root0) && Ordered(ns0, sub0, root0, d)
    requires n in Sub(sub0, root0)
    requires LeftRelinked(ns0, root0, sub0, ns, root, sub, n)
    ensures OrderedAt(ns, sub, n, d)
  {
    var c, a := ns0.right[n], ns0.left[n];
    var ci := ns0.left[c];
    assert LinkedAt(ns0, sub0, root0, n);
    assert LinkedAt(ns0, sub0, root0, c);
    assert OrderedAt(ns0, sub0, n, d);
    if a != NIL {
      assert LinkedAt(ns0, sub0, root0, a);
    }
    if ci != NIL {
      assert LinkedAt(ns0, sub0, root0, ci);
    }
    assert Sub(sub, a) == Sub(sub0, a) && Sub(sub, ci) == Sub(sub0, ci);
  }

  /** A left rotation leaves every other node in order: its subtrees hold the same nodes. */
  lemma LeftRotationOrderedOther(ns0: Nodes, root0: int, sub0: seq<set<int>>,
                                 ns: Nodes, root: int, sub: seq<set<int>>, n: int, d: int, k: int)
    requires Linked(ns0, sub0, root0) && Ordered(ns0, sub0, root0, d)
    requires n in Sub(sub0, root0)
    requires LeftRelinked(ns0, root0, sub0, ns, root, sub, n)
    requires k in Sub(sub0, root0) && k != n && k != ns0.right[n]
    ensures 0 <= k < ns.Size() && OrderedAt(ns, sub, k, d)
  {
    var c := ns0.right[n];
    assert LinkedAt(ns0, sub0, root0, n);
    assert LinkedAt(ns0, sub0, root0, c);
    assert LinkedAt(ns0, sub0, root0, k);
    assert OrderedAt(ns0, sub0, k, d);
    var kl, kr := ns0.left[k], ns0.right[k];
    if k == ns0.parent[n] {
      assert kl != c && kr != c;
      assert sub[c] == sub0[n];
      if kl == n {
        assert ns.left[k] == c && ns.right[k] == kr;
      } else {
        assert ns.left[k] == kl && ns.right[k] == c;
      }
    } else {
      assert kl != n && kl != c && kr != n && kr != c;
      assert ns.left[k] == kl && ns.right[k] == kr;
    }
  }

  /** A left rotation about n keeps the key order, provided n's right child is not the node
      whose key is out of order. */
  lemma LeftRotationOrdered(ns0: Nodes, root0: int, sub0: seq<set<int>>,
                            ns: Nodes, root: int, sub: seq<set<int>>, n: int, d: int)
    requires Linked(ns0, sub0, root0) && Ordered(ns0, sub0, root0, d)
    requires n in Sub(sub0, root0) && ns0.right[n] != d
    requires LeftRelinked(ns0, root0, sub0, ns, root, sub, n)
    requires Linked(ns, sub, root) && Sub(sub, root) == Sub(sub0, root0)
    ensures Ordered(ns, sub, root, d)
  {
    forall k | k in Sub(sub, root)
      ensures OrderedAt(ns, sub, k, d)
    {
      if k == n {
        LeftRotationOrderedLowered(ns0, root0, sub0, ns, root, sub, n, d);
      } else if k == ns0.right[n] {
        LeftRotationOrderedRaised(ns0, root0, sub0, ns, root, sub, n, d);
      } else {
        LeftRotationOrderedOther(ns0, root0, sub0, ns, root, sub, n, d, k);
      }
    }
  }

  /** The raised node ends up with the max the lowered node had: both cover the same ends. */
  lemma LeftRotationMaxMoves(ns0: Nodes, root0: int, sub0: seq<set<int>>,
                             ns: Nodes, root: int, sub: seq<set<int>>, n: int)
    requires Linked(ns0, sub0, root0) && n in Sub(sub0, root0)
    requires LeftRelinked(ns0, root0, sub0, ns, root, sub, n)
    requires Refreshed(ns0.max, ns, n, ns0.right[n], ns0.parent[n])
    requires MaxAt(ns0, n) && MaxAt(ns0, ns0.right[n])
    ensures ns.max[ns0.right[n]] == ns0.max[n]
  {
    var c, a := ns0.right[n], ns0.left[n];
    var ci, co := ns0.left[c], ns0.right[c];
    RotationNeighbours(ns0, sub0, root0, n, c);
    RotationParent(ns0, sub0, root0, n, c);
    assert a == NIL || ns.max[a] == ns0.max[a];
    assert ci == NIL || ns.max[ci] == ns0.max[ci];
    assert co == NIL || ns.max[co] == ns0.max[co];
  }

  /** The node above the rotated pair keeps a correct max when the pair's subtree avoids d. */
  lemma LeftRotationMaxAbove(ns0: Nodes, root0: int, sub0: seq<set<int>>,
                             ns: Nodes, root: int, sub: seq<set<int>>, n: int, d: int)
    requires Sound(ns0, sub0, root0, d) && n in Sub(sub0, root0)
    requires LeftRelinked(ns0, root0, sub0, ns, root, sub, n)
    requires Refreshed(ns0.max, ns, n, ns0.right[n], ns0.parent[n])
    requires ns0.parent[n] != NIL && d !in sub0[ns0.parent[n]]
    ensures ns.max[ns0.parent[n]] == ns0.max[ns0.parent[n]]
  {
    var c, p := ns0.right[n], ns0.parent[n];
    assert LinkedAt(ns0, sub0, root0, n);
    assert LinkedAt(ns0, sub0, root0, c);
    assert LinkedAt(ns0, sub0, root0, p);
    assert MaxAt(ns0, p) && MaxAt(ns0, n) && MaxAt(ns0, c);
    LeftRotationMaxMoves(ns0, root0, sub0, ns, root, sub, n);
    var o := if ns0.left[p] == n then ns0.right[p] else ns0.left[p];
    if o != NIL {
      assert LinkedAt(ns0, sub0, root0, o);
      assert ns.max[o] == ns0.max[o];
    }
  }

  /** The max rule after a left rotation: every node whose subtree avoids d is up to date. */
  lemma LeftRotationMax(ns0: Nodes, root0: int, sub0: seq<set<int>>,
                        ns: Nodes, root: int, sub: seq<set<int>>, n: int, d: int, k: int)
    requires Sound(ns0, sub0, root0, d) && n in Sub(sub0, root0)
    requires LeftRelinked(ns0, root0, sub0, ns, root, sub, n)
    requires Refreshed(ns0.max, ns, n, ns0.right[n], ns0.parent[n])
    requires k in Sub(sub0, root0)
    ensures 0 <= k < ns.Size() && (d in sub[k] || MaxAt(ns, k))
  {
    var c, p := ns0.right[n], ns0.parent[n];
    if k != n && k != c && k != p && d !in sub[k] {
      assert LinkedAt(ns0, sub0, root0, k);
      assert MaxAt(ns0, k);
      var kl, kr := ns0.left[k], ns0.right[k];
      RotationNeighbours(ns0, sub0, root0, n, c);
      assert kl != n && kl != c && kr != n && kr != c;
      assert ns.left[k] == kl && ns.right[k] == kr && ns.max[k] == ns0.max[k];
      if kl != NIL && kl != p {
        assert ns.max[kl] == ns0.max[kl];
      }
      if kr != NIL && kr != p {
        assert ns.max[kr] == ns0.max[kr];
      }
      if p != NIL && (kl == p || kr == p) {
        assert sub[k] == sub0[k];
        assert d !in sub0[p];
        LeftRotationMaxAbove(ns0, root0, sub0, ns, root, sub, n, d);
      }
    }
  }

  /** A left rotation keeps the search-tree invariant (with the same exception node d). */
  lemma LeftRotationSound(ns0: Nodes, root0: int, sub0: seq<set<int>>,
                          ns: Nodes, root: int, sub: seq<set<int>>, n: int, d: int)
    requires Sound(ns0, sub0, root0, d) && n in Sub(sub0, root0) && ns0.right[n] != d
    requires LeftRotation(ns0, root0, sub0, ns, root, sub, n)
    ensures Sound(ns, sub, root, d) && Sub(sub, root) == Sub(sub0, root0)
  {
    LeftRotationLinked(ns0, root0, sub0, ns, root, sub, n);
    LeftRotationOrdered(ns0, root0, sub0, ns, root, sub, n, d);
    forall k | k in Sub(sub, root)
      ensures d in sub[k] || MaxAt(ns, k)
    {
      LeftRotationMax(ns0, root0, sub0, ns, root, sub, n, d, k);
    }
    forall k | k in Sub(sub, root)
      ensures ns.values[k] != {}
    {
      assert ns0.values[k] != {};
    }
  }

  /** rotateLeft(n) in a sound tree, in one statement: it applies wherever n has a right child
      c, and leaves a sound tree over the same nodes in which c holds n's place below n's
      parent p, n is c's left child, and no key, value set or colour has changed. */
  lemma LeftRotatedSound(ns0: Nodes, root0: int, sub0: seq<set<int>>, n: int, d: int)
    requires Sound(ns0, sub0, root0, d) && n in Sub(sub0, root0)
    requires ns0.right[n] != NIL && ns0.right[n] != d
    ensures LeftRotatable(ns0, n)
    ensures var ns, root, sub := LeftRotated(ns0, n), ReplacedRoot(ns0, root0, n, ns0.right[n]),
                                 LeftRotatedSub(ns0, sub0, n);
      Sound(ns, sub, root, d) && Sub(sub, root) == Sub(sub0, root0) && |sub| == |sub0|
    ensures var ns, c, p := LeftRotated(ns0, n), ns0.right[n], ns0.parent[n];
      ns.interval == ns0.interval && ns.values == ns0.values && ns.color == ns0.color &&
      ns.left[c] == n && ns.right[c] == ns0.right[c] && ns.parent[c] == p &&
      ns.left[n] == ns0.left[n] && ns.right[n] == ns0.left[c] && ns.parent[n] == c &&
      (p == NIL <==> root0 == n) &&
      (p != NIL ==> (ns.left[p] == c <==> ns0.left[p] == n) && (ns.left[p] == c || ns.right[p] == c))
  {
    LeftRotatedIsLeftRotation(ns0, root0, sub0, n);
    var ns, root, sub := LeftRotated(ns0, n), ReplacedRoot(ns0, root0, n, ns0.right[n]),
                         LeftRotatedSub(ns0, sub0, n);
    LeftRotationSound(ns0, root0, sub0, ns, root, sub, n, d);
    RotationParent(ns0, sub0, root0, n, ns0.right[n]);
    RotationNeighbours(ns0, sub0, root0, n, ns0.right[n]);
  }
}
