/** What the end of both rotations of IntervalTree.java does to the maxes: updateMax on the
    lowered node, the raised node and the node above them. */
module Rotations {
  import opened Intervals
  import opened TreeNodes

  /** After a rotation about n that raised c under p: every max other than those of n, c and p
      is still the one in max0, and those three are what updateMax stores. */
  ghost predicate Refreshed(max0: seq<int>, ns: Nodes, n: int, c: int, p: int)
    requires ns.Sized() && |max0| == ns.Size() && 0 <= n < ns.Size() && 0 <= c < ns.Size()
    requires p == NIL || 0 <= p < ns.Size()
  {
    (forall k | 0 <= k < ns.Size() && k != n && k != c && k != p :: ns.max[k] == max0[k]) &&
    MaxAt(ns, n) && MaxAt(ns, c) && (p != NIL ==> MaxAt(ns, p))
  }

  /** The subtree sets of a rotation: n's subtree sn is n, its other subtree sa and the subtree
      sc of its child c, which is c, c's inner subtree si and its outer subtree so. After the
      rotation n has sa and si below it, and c has n's new subtree and so below it; together
      they cover sn again, disjointly. */
  lemma RotatedSubtrees(sn: set<int>, sa: set<int>, sc: set<int>, si: set<int>, so: set<int>,
                        n: int, c: int)
    requires sn == {n} + sa + sc && n !in sa && n !in sc && sa !! sc
    requires sc == {c} + si + so && c !in si && c !in so && si !! so
    ensures var lowered := {n} + sa + si;
      sn == {c} + lowered + so && c !in lowered && lowered !! so &&
      n !in sa && n !in si && sa !! si
  {
  }

  /** One updateMax on node i whose children already point back to it: only i's max changes,
      and it becomes correct. */
  lemma RefreshStep(before: Nodes, after: Nodes, i: int)
    requires before.Sized() && 0 <= i < before.Size()
    requires before.left[i] != i && before.right[i] != i
    requires before.left[i] == NIL || (0 <= before.left[i] < before.Size() && before.parent[before.left[i]] == i)
    requires before.right[i] == NIL || (0 <= before.right[i] < before.Size() && before.parent[before.right[i]] == i)
    requires after == before.(max := before.max[i := UpdatedMax(before, i)], parent := Adopted(before, i))
    ensures after.Sized() && after.Size() == before.Size()
    ensures after == before.(max := before.max[i := after.max[i]])
    ensures MaxAt(after, i)
  {
  }

  /** The three updateMax calls that end a rotation: on the lowered node n, on the raised node c
      and on c's parent p. They refresh exactly those maxes and leave the links as they are. */
  lemma RotationRefresh(links: Nodes, s2: Nodes, s3: Nodes, ns: Nodes,
                        n: int, c: int, p: int, a: int, ci: int, co: int)
    requires links.Sized() && 0 <= n < links.Size() && 0 <= c < links.Size() && n != c
    requires (p == NIL || 0 <= p < links.Size()) && p != n && p != c
    requires links.parent[c] == p && links.parent[n] == c
    requires (links.left[n] == a && links.right[n] == ci) || (links.left[n] == ci && links.right[n] == a)
    requires (links.left[c] == n && links.right[c] == co) || (links.left[c] == co && links.right[c] == n)
    requires a == NIL || (0 <= a < links.Size() && links.parent[a] == n && a != c && a != p && a != n)
    requires ci == NIL || (0 <= ci < links.Size() && links.parent[ci] == n && ci != c && ci != p && ci != n)
    requires co == NIL || (0 <= co < links.Size() && links.parent[co] == c && co != p && co != c)
    requires p != NIL ==> (links.left[p] != p && links.right[p] != p &&
      (links.left[p] == NIL || (0 <= links.left[p] < links.Size() && links.parent[links.left[p]] == p)) &&
      (links.right[p] == NIL || (0 <= links.right[p] < links.Size() && links.parent[links.right[p]] == p)))
    requires s2 == links.(max := links.max[n := UpdatedMax(links, n)], parent := Adopted(links, n))
    requires s2.Sized() && s3 == s2.(max := s2.max[c := UpdatedMax(s2, c)], parent := Adopted(s2, c))
    requires s3.Sized()
    requires ns == if p != NIL then s3.(max := s3.max[p := UpdatedMax(s3, p)], parent := Adopted(s3, p))
                   else s3
    ensures ns.Sized() && ns.Size() == links.Size()
    ensures ns == links.(max := ns.max)
    ensures Refreshed(links.max, ns, n, c, p)
  {
    RefreshStep(links, s2, n);
    RefreshStep(s2, s3, c);
    MaxAtKept(s2, s3, n);
    if p != NIL {
      RefreshStep(s3, ns, p);
      MaxAtKept(s3, ns, n);
      MaxAtKept(s3, ns, c);
    }
  }
}
