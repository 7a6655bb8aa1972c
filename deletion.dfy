/** The steps of delete in IntervalTree.java other than fixTreeForDeletion, described by their
    effect on the arena: dropping one value from a node, finding the predecessor, copying it into
    the node to delete, splicing a node with at most one child out of the tree, and the climb
    that refreshes the maxes above it. */
module Deletions {
  import opened Intervals
  import opened TreeNodes

  // ---------------------------------------------------------------------------------------
  // What delete removes
  // ---------------------------------------------------------------------------------------

  /** The entries stored under key. */
  ghost function Keyed(es: set<(Interval, Id)>, key: Interval): set<(Interval, Id)> {
    set e | e in es && e.0 == key
  }

  /** A set with one element less has one element less. */
  lemma CardinalityLess<T>(s: set<T>, x: T)
    requires x in s
    ensures |s - {x}| == |s| - 1
  {
  }

  /** What delete(key, value) leaves of the entries es. A key with several entries loses just
      (key, value), if it is there; a key with a single entry loses that entry, whatever its value
      (the `assert` that would reject another value is not evaluated); an absent key loses
      nothing. */
  ghost function Erased(es: set<(Interval, Id)>, key: Interval, value: Id): (r: set<(Interval, Id)>)
    ensures r <= es && es - r <= Keyed(es, key)
    ensures (key, value) in es ==> r == es - {(key, value)}
    ensures Keyed(es, key) == {} ==> r == es
    ensures |Keyed(es, key)| <= 1 ==> Keyed(r, key) == {}
    ensures |Keyed(es, key)| > 1 ==> Keyed(r, key) != {} && r == es - {(key, value)}
  {
    var k := Keyed(es, key);
    if |k| > 1 then
      OthersRemain(k, (key, value));
      assert Keyed(es - {(key, value)}, key) == k - {(key, value)};
      es - {(key, value)}
    else if (key, value) in es then
      CardinalityLess(k, (key, value));
      assert k - {(key, value)} == {};
      es - k
    else es - k
  }

  /** Deleting an entry just inserted gives back the entries from before the insertion. */
  lemma DeleteUndoesInsert(es: set<(Interval, Id)>, key: Interval, value: Id)
    requires (key, value) !in es
    ensures Erased(es + {(key, value)}, key, value) == es
  {
  }

  /** When the entries under key are the pairs of key with the values vs, whether vs holds more
      than one value decides which branch of Erased applies. */
  lemma ErasedPairs(es: set<(Interval, Id)>, key: Interval, vs: set<Id>, value: Id)
    requires vs != {} && Keyed(es, key) == (set v | v in vs :: (key, v))
    ensures |vs| > 1 ==> Erased(es, key, value) == es - {(key, value)}
    ensures |vs| <= 1 ==> Erased(es, key, value) == es - Keyed(es, key)
  {
    var k := Keyed(es, key);
    if |vs| > 1 {
      var v1 := PickOne(vs);
      OthersRemain(vs, v1);
      var v2 := PickOne(vs - {v1});
      assert (key, v1) in k && (key, v2) in k;
      CardinalityLess(k, (key, v1));
      assert (key, v2) in k - {(key, v1)};
    } else {
      var w := PickOne(vs);
      CardinalityLess(vs, w);
      assert vs == {w};
      assert k == {(key, w)};
    }
  }

  /** The entries stored under the key of a live node n are the pairs of that key with each of
      n's values, and whether n holds more than one value decides which branch of Erased
      applies. */
  lemma ErasedAt(ns: Nodes, sub: seq<set<int>>, root: int, n: int, value: Id)
    requires Sound(ns, sub, root, NIL) && n in Sub(sub, root)
    ensures 0 <= n < ns.Size()
    ensures var es, key := EntriesOf(ns, Sub(sub, root)), ns.interval[n];
      Keyed(es, key) == (set v | v in ns.values[n] :: (key, v)) &&
      (|ns.values[n]| > 1 ==> Erased(es, key, value) == es - {(key, value)}) &&
      (|ns.values[n]| <= 1 ==> Erased(es, key, value) == es - Keyed(es, key))
  {
    EntriesOfNode(ns, sub, root, n);
    assert LinkedAt(ns, sub, root, n);
    var es, key := EntriesOf(ns, Sub(sub, root)), ns.interval[n];
    EntriesOfMembers(ns, Sub(sub, root));
    assert Keyed(es, key) == (set v | v in ns.values[n] :: (key, v));
    ErasedPairs(es, key, ns.values[n], value);
  }

  /** A key that no live node holds has no entries. */
  lemma KeyedAbsent(ns: Nodes, live: set<int>, key: Interval)
    requires ns.Sized() && key !in KeysOf(ns, live)
    ensures Keyed(EntriesOf(ns, live), key) == {}
  {
    EntriesOfMembers(ns, live);
    forall e | e in EntriesOf(ns, live)
      ensures e.0 != key
    {
      var i :| i in live && 0 <= i < ns.Size() && e.0 == ns.interval[i] && e.1 in ns.values[i];
      assert ns.interval[i] in KeysOf(ns, live);
    }
  }

  // ---------------------------------------------------------------------------------------
  // A node that keeps other values
  // ---------------------------------------------------------------------------------------

  /** The entries of a live node are the only ones with its key. */
  lemma EntriesOfNode(ns: Nodes, sub: seq<set<int>>, root: int, n: int)
    requires Sound(ns, sub, root, NIL) && n in Sub(sub, root)
    ensures 0 <= n < ns.Size()
    ensures forall e | e in EntriesOf(ns, Sub(sub, root)) && e.0 == ns.interval[n] :: e.1 in ns.values[n]
  {
    assert LinkedAt(ns, sub, root, n);
    forall e | e in EntriesOf(ns, Sub(sub, root)) && e.0 == ns.interval[n]
      ensures e.1 in ns.values[n]
    {
      var i, v :| i in Sub(sub, root) && 0 <= i < ns.Size() && v in ns.values[i] && e == (ns.interval[i], v);
      KeysDistinct(ns, sub, root, root, i, n);
    }
  }

  /** A set of more than one value keeps one when a value is removed. */
  lemma OthersRemain<T>(s: set<T>, x: T)
    requires |s| > 1
    ensures s - {x} != {}
  {
    if x in s {
      assert |s - {x}| == |s| - 1;
    } else {
      assert s - {x} == s;
    }
  }

  /** Removing one value from a node that holds others keeps the tree sound and removes exactly
      that entry. */
  lemma ValueRemoved(ns: Nodes, sub: seq<set<int>>, root: int, n: int, value: Id)
    requires Sound(ns, sub, root, NIL) && n in Sub(sub, root)
    requires 0 <= n < ns.Size() && |ns.values[n]| > 1
    ensures var r := ns.(values := ns.values[n := ns.values[n] - {value}]);
      Sound(r, sub, root, NIL) &&
      EntriesOf(r, Sub(sub, root)) == EntriesOf(ns, Sub(sub, root)) - {(ns.interval[n], value)}
  {
    var r := ns.(values := ns.values[n := ns.values[n] - {value}]);
    var L := Sub(sub, root);
    assert LinkedAt(ns, sub, root, n);
    OthersRemain(ns.values[n], value);
    forall i | i in L && 0 <= i < r.Size()
      ensures r.values[i] != {}
    {
      assert ns.values[i] != {};
    }
    SoundSameShape(ns, r, sub, root, NIL);
    EntriesOfNode(ns, sub, root, n);
    EntriesOfMembers(ns, L);
    EntriesOfMembers(r, L);
    forall e | e in EntriesOf(ns, L) && e != (ns.interval[n], value)
      ensures e in EntriesOf(r, L)
    {
      var i :| i in L && 0 <= i < ns.Size() && e.0 == ns.interval[i] && e.1 in ns.values[i];
    }
    forall e | e in EntriesOf(r, L)
      ensures e in EntriesOf(ns, L) && e != (ns.interval[n], value)
    {
      var i :| i in L && 0 <= i < r.Size() && e.0 == r.interval[i] && e.1 in r.values[i];
      if i != n && e.0 == ns.interval[n] {
        KeysDistinct(ns, sub, root, root, i, n);
      }
    }
  }

  // ---------------------------------------------------------------------------------------
  // The predecessor
  // ---------------------------------------------------------------------------------------

  /** m is what maximumNode(l) returns: the node of l's subtree without a right child, whose key
      is the largest in that subtree. */
  ghost predicate IsMaximumNode(ns: Nodes, sub: seq<set<int>>, l: int, m: int)
    requires ns.Sized() && |sub| == ns.Size()
  {
    m in Sub(sub, l) && 0 <= m < ns.Size() && ns.right[m] == NIL &&
    forall j | j in Sub(sub, l) && j != m && 0 <= j < ns.Size() :: Less(ns.interval[j], ns.interval[m])
  }

  /** The arena after `n.interval = pred.interval; n.values = pred.values`. */
  function Copied(ns: Nodes, n: int, m: int): (r: Nodes)
    requires ns.Sized() && 0 <= n < ns.Size() && 0 <= m < ns.Size()
    ensures r.Sized() && r.Size() == ns.Size()
  {
    ns.(interval := ns.interval[n := ns.interval[m]], values := ns.values[n := ns.values[m]])
  }

  /** Where the predecessor m of a node n with two children lies: strictly inside n's subtree,
      with no right child. */
  lemma PredecessorBelow(ns: Nodes, sub: seq<set<int>>, root: int, n: int, m: int)
    requires Sound(ns, sub, root, NIL) && n in Sub(sub, root)
    requires 0 <= n < ns.Size() && ns.left[n] != NIL && IsMaximumNode(ns, sub, ns.left[n], m)
    ensures m in Sub(sub, root) && m in sub[n] && m != n && sub[m] <= sub[n] && n !in sub[m]
    ensures m != root && ns.parent[m] != NIL
  {
    assert LinkedAt(ns, sub, root, n);
    var l := ns.left[n];
    assert LinkedAt(ns, sub, root, l);
    SubNested(ns, sub, root, l, m);
    SubNested(ns, sub, root, n, l);
    ParentSubProper(ns, sub, root, l);
    assert LinkedAt(ns, sub, root, m);
    if m == root {
      SubNested(ns, sub, root, root, n);
      assert false;
    }
  }

  /** After the predecessor's key is copied into n, the tree is sound but for the predecessor,
      which now shares its key with n and whose ancestors (n among them) may have stale maxes. */
  lemma CopiedOrdered(ns: Nodes, sub: seq<set<int>>, root: int, n: int, m: int, i: int)
    requires Sound(ns, sub, root, NIL) && n in Sub(sub, root) && i in Sub(sub, root)
    requires 0 <= n < ns.Size() && ns.left[n] != NIL && IsMaximumNode(ns, sub, ns.left[n], m)
    requires m in sub[n] && m != n
    ensures 0 <= i < ns.Size() && OrderedAt(Copied(ns, n, m), sub, i, m)
  {
    var c := Copied(ns, n, m);
    assert LinkedAt(ns, sub, root, i) && OrderedAt(ns, sub, i, NIL);
    assert OrderedAt(ns, sub, n, NIL);
    var l, r := ns.left[i], ns.right[i];
    if i != n && n in Sub(sub, l) {
      SubNested(ns, sub, root, l, n);
    } else if i != n && n in Sub(sub, r) {
      SubNested(ns, sub, root, r, n);
    }
  }

  /** Copying keys and values leaves the links alone. */
  lemma CopiedLinked(ns: Nodes, sub: seq<set<int>>, root: int, n: int, m: int)
    requires Linked(ns, sub, root) && 0 <= n < ns.Size() && 0 <= m < ns.Size()
    ensures Linked(Copied(ns, n, m), sub, root)
  {
    var c := Copied(ns, n, m);
    forall i | i in Sub(sub, root)
      ensures 0 <= i < c.Size() && LinkedAt(c, sub, root, i)
    {
      assert LinkedAt(ns, sub, root, i);
    }
  }

  /** Copying the predecessor m's key and values into n, an ancestor of m, leaves every max
      correct except at the ancestors of m. */
  lemma CopiedMaxes(ns: Nodes, sub: seq<set<int>>, root: int, n: int, m: int)
    requires Sound(ns, sub, root, NIL) && 0 <= n < ns.Size() && 0 <= m < ns.Size()
    requires m in sub[n]
    ensures Linked(Copied(ns, n, m), sub, root) && MaxesUpToDate(Copied(ns, n, m), sub, root, m)
  {
    var c := Copied(ns, n, m);
    CopiedLinked(ns, sub, root, n, m);
    forall i | i in Sub(sub, root)
      ensures m in sub[i] || MaxAt(c, i)
    {
      assert LinkedAt(ns, sub, root, i) && (NIL in sub[i] || MaxAt(ns, i));
      if m !in sub[i] {
        if NIL in sub[i] {
          SubNested(ns, sub, root, i, NIL);
        }
        MaxAtKept(ns, c, i);
      }
    }
  }

  /** `n.interval = pred.interval; n.values = pred.values` for the predecessor m of a node n with
      two children: the tree stays sound except at m, which now shares its key with n, and at
      m's ancestors, whose maxes may be stale. */
  lemma CopiedSound(ns: Nodes, sub: seq<set<int>>, root: int, n: int, m: int)
    requires Sound(ns, sub, root, NIL) && n in Sub(sub, root)
    requires 0 <= n < ns.Size() && ns.left[n] != NIL && IsMaximumNode(ns, sub, ns.left[n], m)
    ensures m in Sub(sub, root) && m in sub[n] && m != n
    ensures Sound(Copied(ns, n, m), sub, root, m)
  {
    PredecessorBelow(ns, sub, root, n, m);
    var c := Copied(ns, n, m);
    var L := Sub(sub, root);
    CopiedMaxes(ns, sub, root, n, m);
    forall i | i in L
      ensures OrderedAt(c, sub, i, m)
    {
      CopiedOrdered(ns, sub, root, n, m, i);
    }
    forall i | i in L
      ensures c.values[i] != {}
    {
      assert ns.values[i] != {} && ns.values[m] != {};
    }
  }

  /** The entries of a sound tree without node n are its entries less those held by n. */
  lemma NodeRemovedEntries(ns: Nodes, sub: seq<set<int>>, root: int, n: int)
    requires Sound(ns, sub, root, NIL) && n in Sub(sub, root)
    ensures 0 <= n < ns.Size()
    ensures EntriesOf(ns, Sub(sub, root) - {n}) ==
            EntriesOf(ns, Sub(sub, root)) - (set v | v in ns.values[n] :: (ns.interval[n], v))
  {
    var L := Sub(sub, root);
    assert LinkedAt(ns, sub, root, n);
    EntriesOfMembers(ns, L);
    EntriesOfMembers(ns, L - {n});
    forall e | e in EntriesOf(ns, L - {n})
      ensures e !in (set v | v in ns.values[n] :: (ns.interval[n], v))
    {
      var i :| i in L - {n} && 0 <= i < ns.Size() && e.0 == ns.interval[i] && e.1 in ns.values[i];
      if e.0 == ns.interval[n] {
        KeysDistinct(ns, sub, root, root, i, n);
      }
    }
    forall e | e in EntriesOf(ns, L) && e !in (set v | v in ns.values[n] :: (ns.interval[n], v))
      ensures e in EntriesOf(ns, L - {n})
    {
      var i :| i in L && 0 <= i < ns.Size() && e.0 == ns.interval[i] && e.1 in ns.values[i];
    }
  }

  /** After the copy, the tree without the predecessor m stores what the tree without n stored
      before it. */
  lemma CopiedEntries(ns: Nodes, live: set<int>, n: int, m: int)
    requires ns.Sized() && 0 <= n < ns.Size() && 0 <= m < ns.Size() && n != m
    requires n in live && m in live
    ensures EntriesOf(Copied(ns, n, m), live - {m}) == EntriesOf(ns, live - {n})
  {
    var c := Copied(ns, n, m);
    EntriesOfMembers(ns, live - {n});
    EntriesOfMembers(c, live - {m});
    forall e | e in EntriesOf(c, live - {m})
      ensures e in EntriesOf(ns, live - {n})
    {
      var i :| i in live - {m} && 0 <= i < c.Size() && e.0 == c.interval[i] && e.1 in c.values[i];
      if i == n {
        assert m in live - {n} && e.0 == ns.interval[m] && e.1 in ns.values[m];
      }
    }
    forall e | e in EntriesOf(ns, live - {n})
      ensures e in EntriesOf(c, live - {m})
    {
      var i :| i in live - {n} && 0 <= i < ns.Size() && e.0 == ns.interval[i] && e.1 in ns.values[i];
      if i == m {
        assert n in live - {m} && e.0 == c.interval[n] && e.1 in c.values[n];
      } else {
        assert i in live - {m} && e.0 == c.interval[i] && e.1 in c.values[i];
      }
    }
  }

  // ---------------------------------------------------------------------------------------
  // Splicing out a node with at most one child
  // ---------------------------------------------------------------------------------------

  /** The tree is sound except that the maxes of c and its ancestors may be stale: the state
      that the climb at the end of delete works on. With c == NIL it is Sound. */
  ghost predicate Refreshing(ns: Nodes, sub: seq<set<int>>, root: int, c: int) {
    var refreshing :=
      Linked(ns, sub, root) && Ordered(ns, sub, root, NIL) && MaxesUpToDate(ns, sub, root, c) &&
      (forall i {:trigger ns.values[i]} | i in Sub(sub, root) :: ns.values[i] != {});
    refreshing
  }

  /** Node d can be spliced out: it is live in a tree that is sound except at d, and it has at
      most one child. */
  ghost predicate Splicable(ns: Nodes, sub: seq<set<int>>, root: int, d: int) {
    Sound(ns, sub, root, d) && d in Sub(sub, root) && 0 <= d < ns.Size() &&
    (ns.left[d] == NIL || ns.right[d] == NIL)
  }

  /** The nodes replaceNode(d, Child(d)) dereferences exist. */
  ghost predicate SpliceInRange(ns: Nodes, d: int) {
    ns.Sized() && 0 <= d < ns.Size() &&
    (Child(ns, d) == NIL || 0 <= Child(ns, d) < ns.Size()) &&
    (ns.parent[d] == NIL || 0 <= ns.parent[d] < ns.Size())
  }

  /** The ghost subtrees once d is gone. */
  ghost function Spliced(sub: seq<set<int>>, d: int): (r: seq<set<int>>)
    ensures |r| == |sub| && forall i | 0 <= i < |sub| :: r[i] == sub[i] - {d}
  {
    seq(|sub|, i requires 0 <= i < |sub| => sub[i] - {d})
  }

  /** The neighbourhood of a node d about to be spliced out: its only child c, if any, is live
      below it, and its parent p is absent exactly when d is the root. */
  lemma SpliceNeighbours(ns: Nodes, sub: seq<set<int>>, root: int, d: int)
    requires Splicable(ns, sub, root, d)
    ensures SpliceInRange(ns, d)
    ensures var c, p := Child(ns, d), ns.parent[d];
      (c == NIL || (0 <= c < ns.Size() && c in Sub(sub, root) && ns.parent[c] == d && c != d &&
                    d !in sub[c] && sub[c] <= sub[d])) &&
      sub[d] == {d} + Sub(sub, c) && d !in Sub(sub, c) &&
      (ns.left[d] == c || ns.right[d] == c) && (ns.left[d] == NIL || ns.right[d] == NIL) &&
      (p == NIL <==> d == root) &&
      (p != NIL ==> 0 <= p < ns.Size() && p in Sub(sub, root) && p != d && p != c &&
                    (ns.left[p] == d || ns.right[p] == d) && d in sub[p] && p !in sub[d] &&
                    (ns.left[p] == d ==> ns.right[p] != d))
    ensures var c := Child(ns, d);
      Sub(Spliced(sub, d), ReplacedRoot(ns, root, d, c)) == Sub(sub, root) - {d}
  {
    var c, p := Child(ns, d), ns.parent[d];
    assert LinkedAt(ns, sub, root, d);
    if c != NIL {
      assert LinkedAt(ns, sub, root, c);
    }
    if p != NIL {
      assert LinkedAt(ns, sub, root, p);
      ParentSubProper(ns, sub, root, d);
    }
    assert LinkedAt(ns, sub, root, root);
  }

  /** After replaceNode(d, c), d's former parent p has c in d's place, linked to it. */
  lemma SplicedChildrenParent(ns: Nodes, sub: seq<set<int>>, root: int, d: int)
    requires Splicable(ns, sub, root, d) && ns.parent[d] != NIL
    ensures SpliceInRange(ns, d)
    ensures var c, p := Child(ns, d), ns.parent[d];
      var r, root', sub' := Replaced(ns, d, c), ReplacedRoot(ns, root, d, c), Spliced(sub, d);
      0 <= p < r.Size() && root' == root && ChildrenAt(r, sub', root', p)
  {
    SpliceNeighbours(ns, sub, root, d);
    var c, p := Child(ns, d), ns.parent[d];
    var r, root', sub' := Replaced(ns, d, c), ReplacedRoot(ns, root, d, c), Spliced(sub, d);
    assert LinkedAt(ns, sub, root, p);
    var o := if ns.left[p] == d then ns.right[p] else ns.left[p];
    if o != NIL {
      assert LinkedAt(ns, sub, root, o);
    }
    assert Sub(sub', o) == Sub(sub, o);
    assert Sub(sub', c) == Sub(sub, c);
    assert sub[p] == {p} + Sub(sub, o) + sub[d];
    if ns.left[p] == d {
      assert r.left[p] == c && r.right[p] == o;
    } else {
      assert r.left[p] == o && r.right[p] == c;
    }
  }

  /** After replaceNode(d, c), a remaining node i other than d's former parent keeps its
      children, linked to it. */
  lemma SplicedChildrenOther(ns: Nodes, sub: seq<set<int>>, root: int, d: int, i: int)
    requires Splicable(ns, sub, root, d) && i in Sub(sub, root) - {d} && i != ns.parent[d]
    ensures SpliceInRange(ns, d)
    ensures var c := Child(ns, d);
      var r, root', sub' := Replaced(ns, d, c), ReplacedRoot(ns, root, d, c), Spliced(sub, d);
      0 <= i < r.Size() && ChildrenAt(r, sub', root', i)
  {
    SpliceNeighbours(ns, sub, root, d);
    var c, p := Child(ns, d), ns.parent[d];
    var r, root', sub' := Replaced(ns, d, c), ReplacedRoot(ns, root, d, c), Spliced(sub, d);
    assert LinkedAt(ns, sub, root, i);
    var l, rt := ns.left[i], ns.right[i];
    assert r.left[i] == l && r.right[i] == rt;
    assert l != d && rt != d;
    if l != NIL {
      assert l != c;
      assert r.parent[l] == i;
    }
    if rt != NIL {
      assert rt != c;
      assert r.parent[rt] == i;
    }
    assert Sub(sub', l) == Sub(sub, l) - {d};
    assert Sub(sub', rt) == Sub(sub, rt) - {d};
  }

  /** After replaceNode(d, c), node i of the remaining tree has its children linked to it. */
  lemma SplicedChildren(ns: Nodes, sub: seq<set<int>>, root: int, d: int, i: int)
    requires Splicable(ns, sub, root, d) && i in Sub(sub, root) - {d}
    ensures SpliceInRange(ns, d)
    ensures var c := Child(ns, d);
      var r, root', sub' := Replaced(ns, d, c), ReplacedRoot(ns, root, d, c), Spliced(sub, d);
      0 <= i < r.Size() && ChildrenAt(r, sub', root', i)
  {
    SpliceNeighbours(ns, sub, root, d);
    if i == ns.parent[d] {
      SplicedChildrenParent(ns, sub, root, d);
    } else {
      SplicedChildrenOther(ns, sub, root, d, i);
    }
  }

  /** After replaceNode(d, c), node i of the remaining tree is linked to its parent. */
  lemma SplicedParent(ns: Nodes, sub: seq<set<int>>, root: int, d: int, i: int)
    requires Splicable(ns, sub, root, d) && i in Sub(sub, root) - {d}
    ensures SpliceInRange(ns, d)
    ensures var c := Child(ns, d);
      var r, root', sub' := Replaced(ns, d, c), ReplacedRoot(ns, root, d, c), Spliced(sub, d);
      0 <= i < r.Size() && ParentAt(r, sub', root', i)
  {
    SpliceNeighbours(ns, sub, root, d);
    var c, p := Child(ns, d), ns.parent[d];
    assert LinkedAt(ns, sub, root, i);
    if i != root {
      var q := ns.parent[i];
      assert LinkedAt(ns, sub, root, q);
    }
  }

  /** replaceNode(d, c) leaves a linked tree over the remaining nodes. */
  lemma SplicedLinked(ns: Nodes, sub: seq<set<int>>, root: int, d: int)
    requires Splicable(ns, sub, root, d)
    ensures SpliceInRange(ns, d)
    ensures var c := Child(ns, d);
      Linked(Replaced(ns, d, c), Spliced(sub, d), ReplacedRoot(ns, root, d, c))
  {
    SpliceNeighbours(ns, sub, root, d);
    var c := Child(ns, d);
    var r, root', sub' := Replaced(ns, d, c), ReplacedRoot(ns, root, d, c), Spliced(sub, d);
    forall i | i in Sub(sub', root')
      ensures 0 <= i < r.Size() && LinkedAt(r, sub', root', i)
    {
      SplicedChildren(ns, sub, root, d, i);
      SplicedParent(ns, sub, root, d, i);
    }
  }

  /** replaceNode(d, c) keeps the remaining nodes in key order, now with no exception. */
  lemma SplicedOrdered(ns: Nodes, sub: seq<set<int>>, root: int, d: int, i: int)
    requires Splicable(ns, sub, root, d) && i in Sub(sub, root) - {d}
    ensures SpliceInRange(ns, d)
    ensures var c := Child(ns, d);
      var r, sub' := Replaced(ns, d, c), Spliced(sub, d);
      0 <= i < r.Size() && OrderedAt(r, sub', i, NIL)
  {
    SpliceNeighbours(ns, sub, root, d);
    assert LinkedAt(ns, sub, root, i) && OrderedAt(ns, sub, i, d);
  }

  /** replaceNode(d, c) leaves every max correct except at d's former parent and above. */
  lemma SplicedMax(ns: Nodes, sub: seq<set<int>>, root: int, d: int, i: int)
    requires Splicable(ns, sub, root, d) && i in Sub(sub, root) - {d}
    ensures SpliceInRange(ns, d)
    ensures var c := Child(ns, d);
      var r, sub' := Replaced(ns, d, c), Spliced(sub, d);
      0 <= i < r.Size() && (ns.parent[d] in sub'[i] || MaxAt(r, i))
  {
    SpliceNeighbours(ns, sub, root, d);
    var c, p := Child(ns, d), ns.parent[d];
    var r, sub' := Replaced(ns, d, c), Spliced(sub, d);
    assert LinkedAt(ns, sub, root, i);
    if p !in sub'[i] {
      if d in sub[i] {
        ParentInSub(ns, sub, root, i, d);
        if p == NIL {
          SubNested(ns, sub, root, i, p);
        }
        assert false;
      }
      assert MaxAt(ns, i);
      MaxAtKept(ns, r, i);
    }
  }

  /** replaceNode(d, c) on a node with at most one child: the remaining nodes form a tree that is
      sound except for stale maxes at d's former parent and above, and that stores the entries
      of the old tree without those of d. */
  lemma SplicedSound(ns: Nodes, sub: seq<set<int>>, root: int, d: int)
    requires Splicable(ns, sub, root, d)
    ensures SpliceInRange(ns, d)
    ensures var c := Child(ns, d);
      var r, root', sub' := Replaced(ns, d, c), ReplacedRoot(ns, root, d, c), Spliced(sub, d);
      Refreshing(r, sub', root', ns.parent[d]) && Sub(sub', root') == Sub(sub, root) - {d} &&
      (ns.parent[d] == NIL || ns.parent[d] in Sub(sub', root')) && r.parent[d] == ns.parent[d] &&
      EntriesOf(r, Sub(sub', root')) == EntriesOf(ns, Sub(sub, root) - {d})
  {
    SpliceNeighbours(ns, sub, root, d);
    SplicedLinked(ns, sub, root, d);
    var c := Child(ns, d);
    var r, root', sub' := Replaced(ns, d, c), ReplacedRoot(ns, root, d, c), Spliced(sub, d);
    forall i | i in Sub(sub', root')
      ensures OrderedAt(r, sub', i, NIL)
    {
      SplicedOrdered(ns, sub, root, d, i);
    }
    forall i | i in Sub(sub', root')
      ensures ns.parent[d] in sub'[i] || MaxAt(r, i)
    {
      SplicedMax(ns, sub, root, d, i);
    }
    forall i | i in Sub(sub', root')
      ensures r.values[i] != {}
    {
      assert ns.values[i] != {};
    }
  }

  // ---------------------------------------------------------------------------------------
  // The climb that refreshes the maxes
  // ---------------------------------------------------------------------------------------

  /** The live nodes at or above c: those whose subtree holds c. */
  ghost function StalePath(sub: seq<set<int>>, live: set<int>, c: int): set<int> {
    set i | i in live && c in Sub(sub, i)
  }

  /** The climb does not look at colours. */
  lemma RefreshingIgnoresColor(ns: Nodes, cs: seq<Color>, sub: seq<set<int>>, root: int, c: int)
    requires Refreshing(ns, sub, root, c) && |cs| == |ns.color|
    ensures Refreshing(ns.(color := cs), sub, root, c)
  {
    var r := ns.(color := cs);
    forall i | i in Sub(sub, root)
      ensures 0 <= i < r.Size() && LinkedAt(r, sub, root, i)
    {
      assert LinkedAt(ns, sub, root, i);
    }
    forall i | i in Sub(sub, root)
      ensures OrderedAt(r, sub, i, NIL)
    {
      assert OrderedAt(ns, sub, i, NIL);
    }
    forall i | i in Sub(sub, root)
      ensures c in sub[i] || MaxAt(r, i)
    {
      assert c in sub[i] || MaxAt(ns, i);
    }
    forall i | i in Sub(sub, root)
      ensures r.values[i] != {}
    {
      assert ns.values[i] != {};
    }
  }

  /** A sound tree is sound except at any of its nodes. */
  lemma Excepted(ns: Nodes, sub: seq<set<int>>, root: int, d: int)
    requires Sound(ns, sub, root, NIL) && d in Sub(sub, root)
    ensures Sound(ns, sub, root, d)
  {
    forall i | i in Sub(sub, root)
      ensures OrderedAt(ns, sub, i, d)
    {
      assert OrderedAt(ns, sub, i, NIL);
    }
    forall i | i in Sub(sub, root)
      ensures d in sub[i] || MaxAt(ns, i)
    {
      assert LinkedAt(ns, sub, root, i) && (NIL in sub[i] || MaxAt(ns, i));
      if NIL in sub[i] {
        SubNested(ns, sub, root, i, NIL);
      }
    }
  }

  /** Stale maxes only at NIL and above means none at all. */
  lemma ClimbDone(ns: Nodes, sub: seq<set<int>>, root: int)
    requires Refreshing(ns, sub, root, NIL)
    ensures Sound(ns, sub, root, NIL)
  {
  }

  /** updateMax on a node of a linked tree changes nothing but that node's max. */
  lemma MaxUpdatedLinked(ns: Nodes, sub: seq<set<int>>, root: int, c: int)
    requires Linked(ns, sub, root) && c in Sub(sub, root)
    ensures 0 <= c < ns.Size()
    ensures var r := MaxUpdated(ns, c);
      r == ns.(max := ns.max[c := UpdatedMax(ns, c)]) && MaxAt(r, c) && Linked(r, sub, root)
  {
    assert LinkedAt(ns, sub, root, c);
    var r := MaxUpdated(ns, c);
    forall i | i in Sub(sub, root)
      ensures 0 <= i < r.Size() && LinkedAt(r, sub, root, i)
    {
      assert LinkedAt(ns, sub, root, i);
    }
  }

  /** After updateMax on c, a live node i whose subtree does not hold c's parent p has its max
      right: either it is c, or it lies outside the stale path and nothing below it changed. */
  lemma ClimbMax(ns: Nodes, sub: seq<set<int>>, root: int, c: int, i: int)
    requires Refreshing(ns, sub, root, c) && c in Sub(sub, root) && i in Sub(sub, root)
    ensures 0 <= c < ns.Size() && 0 <= i < ns.Size()
    ensures ns.parent[c] in sub[i] || MaxAt(MaxUpdated(ns, c), i)
  {
    MaxUpdatedLinked(ns, sub, root, c);
    var p := ns.parent[c];
    assert LinkedAt(ns, sub, root, i) && LinkedAt(ns, sub, root, c);
    if p !in sub[i] && i != c {
      if c in sub[i] {
        ParentInSub(ns, sub, root, i, c);
        assert false;
      }
      if NIL in sub[i] {
        SubNested(ns, sub, root, i, NIL);
      }
      assert MaxAt(ns, i);
      MaxAtKept(ns, MaxUpdated(ns, c), i);
    }
  }

  /** One round of the climb, `cur.updateMax(); cur = cur.parent;`: the stale path loses its
      lowest node, and fewer live nodes lie at or above the new cur. */
  lemma ClimbStep(ns: Nodes, sub: seq<set<int>>, root: int, c: int)
    requires Refreshing(ns, sub, root, c) && c in Sub(sub, root)
    ensures 0 <= c < ns.Size()
    ensures var r, p := MaxUpdated(ns, c), ns.parent[c];
      r.parent == ns.parent && Refreshing(r, sub, root, p) &&
      (p == NIL || p in Sub(sub, root)) &&
      StalePath(sub, Sub(sub, root), p) < StalePath(sub, Sub(sub, root), c)
  {
    MaxUpdatedLinked(ns, sub, root, c);
    var r, p := MaxUpdated(ns, c), ns.parent[c];
    var L := Sub(sub, root);
    forall i | i in L
      ensures p in sub[i] || MaxAt(r, i)
    {
      ClimbMax(ns, sub, root, c, i);
    }
    forall i | i in L
      ensures OrderedAt(r, sub, i, NIL)
    {
      assert OrderedAt(ns, sub, i, NIL);
    }
    forall i | i in L
      ensures r.values[i] != {}
    {
      assert ns.values[i] != {};
    }
    assert LinkedAt(ns, sub, root, c);
    forall i | i in StalePath(sub, L, p)
      ensures i in StalePath(sub, L, c)
    {
      SubNested(ns, sub, root, i, p);
      assert LinkedAt(ns, sub, root, p);
    }
    assert c in StalePath(sub, L, c);
    if p != NIL {
      ParentSubProper(ns, sub, root, c);
    }
  }
}
