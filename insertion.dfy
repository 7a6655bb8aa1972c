/** The structural part of insert in IntervalTree.java: the descent that raises `max` on its way
    down, and the new red leaf it hangs below the last node visited. The leaf is red and has no
    black node below it, so it breaks the colour rules of a red-black tree at most by standing
    below a red parent, which is where the repair (fixTreeAt) starts. */
module Insertions {
  import opened Intervals
  import opened TreeNodes
  import opened BlackHeights
  import opened InsertFixups

  /** The proper ancestors of node n among the live nodes. */
  ghost function Above(sub: seq<set<int>>, root: int, n: int): set<int> {
    set i | i in Sub(sub, root) && n in Sub(sub, i) && i != n
  }

  /** The max fields after insert's descent has passed the nodes of A with an interval ending at
      e: each of them raised to e. */
  function Raised(max: seq<int>, A: set<int>, e: int): (m: seq<int>)
    ensures |m| == |max|
  {
    seq(|max|, i requires 0 <= i < |max| => if i in A then GetMax(max[i], e) else max[i])
  }

  /** The key fits below n: at each proper ancestor a of n it lies on the side of a's key on
      which n lies. */
  ghost predicate Fits(ns: Nodes, sub: seq<set<int>>, root: int, key: Interval, n: int)
    requires Linked(ns, sub, root)
  {
    forall a | a in Above(sub, root, n) ::
      (n in Sub(sub, ns.left[a]) ==> Less(key, ns.interval[a])) &&
      (n in Sub(sub, ns.right[a]) ==> Less(ns.interval[a], key))
  }

  /** The TreeNode constructor as insert calls it: a new red node with no children and no parent,
      holding key and the one value, whose max is its own end (what updateMax computes for a node
      without children). It takes the next free slot. */
  function NewNode(ns: Nodes, key: Interval, value: Id): (r: Nodes)
    requires ns.Sized()
    ensures r.Sized() && r.Size() == ns.Size() + 1
    ensures MaxAt(r, ns.Size())
  {
    Nodes(ns.interval + [key], ns.max + [key.end], ns.values + [{value}],
          ns.left + [NIL], ns.right + [NIL], ns.parent + [NIL], ns.color + [Red])
  }

  /** The arena after insert's descent stopped at n: the max of n and of its ancestors raised to
      key.end, a new node for key and value in the next free slot, hung below n on the side the
      key order demands, with n as its parent. */
  ghost function Attached(ns: Nodes, sub: seq<set<int>>, root: int, n: int, key: Interval,
                          value: Id): (r: Nodes)
    requires Linked(ns, sub, root) && n in Sub(sub, root)
    ensures r.Sized() && r.Size() == ns.Size() + 1
  {
    var x := ns.Size();
    var s := NewNode(ns.(max := Raised(ns.max, Above(sub, root, n) + {n}, key.end)), key, value);
    var s2 := if Less(key, ns.interval[n]) then s.(left := s.left[n := x])
              else s.(right := s.right[n := x]);
    s2.(parent := s2.parent[x := n])
  }

  /** The ghost subtrees after the attachment: n and its ancestors gain the new node. */
  ghost function AttachedSub(ns: Nodes, sub: seq<set<int>>, root: int, n: int): (r: seq<set<int>>)
    requires Linked(ns, sub, root)
    ensures |r| == |sub| + 1
  {
    var A := Above(sub, root, n) + {n};
    seq(|sub|, i requires 0 <= i < |sub| => if i in A then sub[i] + {ns.Size()} else sub[i]) +
      [{ns.Size()}]
  }

  // ---------------------------------------------------------------------------------------
  // Ancestors
  // ---------------------------------------------------------------------------------------

  /** Two live nodes each in the other's subtree are the same node. */
  lemma SubAntisymmetric(ns: Nodes, sub: seq<set<int>>, root: int, i: int, j: int)
    requires Linked(ns, sub, root) && i in Sub(sub, root) && j in Sub(sub, root)
    requires i in sub[j] && j in sub[i]
    ensures i == j
  {
    if i != j {
      assert LinkedAt(ns, sub, root, j);
      var c := if i in Sub(sub, ns.left[j]) then ns.left[j] else ns.right[j];
      assert i in Sub(sub, c) && c in Sub(sub, root);
      SubNested(ns, sub, root, c, i);
      assert false;
    }
  }

  /** The root has no proper ancestor. */
  lemma AboveRoot(ns: Nodes, sub: seq<set<int>>, root: int)
    requires Linked(ns, sub, root) && root != NIL
    ensures Above(sub, root, root) == {}
  {
    forall i | i in Above(sub, root, root)
      ensures false
    {
      SubAntisymmetric(ns, sub, root, i, root);
    }
  }

  /** The proper ancestors of a child c of n are n and n's proper ancestors. */
  lemma AboveStep(ns: Nodes, sub: seq<set<int>>, root: int, n: int, c: int)
    requires Linked(ns, sub, root) && n in Sub(sub, root)
    requires c != NIL && (c == ns.left[n] || c == ns.right[n])
    ensures c in Sub(sub, root) && Above(sub, root, c) == Above(sub, root, n) + {n}
  {
    RotationNeighbours(ns, sub, root, n, c);
    forall a | a in Above(sub, root, c)
      ensures a == n || a in Above(sub, root, n)
    {
      ParentInSub(ns, sub, root, a, c);
    }
    forall a | a in Above(sub, root, n)
      ensures a in Above(sub, root, c)
    {
      SubNested(ns, sub, root, a, n);
    }
  }

  /** Each ancestor-or-self of n lies above n, and no other live node does. */
  lemma OnPath(ns: Nodes, sub: seq<set<int>>, root: int, n: int, i: int)
    requires Linked(ns, sub, root) && n in Sub(sub, root) && i in Sub(sub, root)
    ensures 0 <= i < ns.Size() && 0 <= n < ns.Size()
    ensures i in Above(sub, root, n) + {n} <==> n in sub[i]
  {
    assert LinkedAt(ns, sub, root, n);
  }

  /** A child on the path to n has its parent on the path too; and of two children at most one
      is on the path. */
  lemma PathChildren(ns: Nodes, sub: seq<set<int>>, root: int, n: int, i: int)
    requires Linked(ns, sub, root) && n in Sub(sub, root) && i in Sub(sub, root)
    ensures var A, l, r := Above(sub, root, n) + {n}, ns.left[i], ns.right[i];
      0 <= i < ns.Size() &&
      (l != NIL ==> 0 <= l < ns.Size() && l in Sub(sub, root)) &&
      (r != NIL ==> 0 <= r < ns.Size() && r in Sub(sub, root)) &&
      (l in A ==> i in A && r !in A && i != n) && (r in A ==> i in A && l !in A && i != n) &&
      (i in A && i != n ==> l in A || r in A)
  {
    assert LinkedAt(ns, sub, root, i);
    var A, l, r := Above(sub, root, n) + {n}, ns.left[i], ns.right[i];
    OnPath(ns, sub, root, n, i);
    if l != NIL {
      assert LinkedAt(ns, sub, root, l);
      OnPath(ns, sub, root, n, l);
    }
    if r != NIL {
      assert LinkedAt(ns, sub, root, r);
      OnPath(ns, sub, root, n, r);
    }
  }

  /** Descending to the child on the key's side keeps the key fitting. */
  lemma FitsStep(ns: Nodes, sub: seq<set<int>>, root: int, key: Interval, n: int, c: int)
    requires Linked(ns, sub, root) && n in Sub(sub, root) && Fits(ns, sub, root, key, n)
    requires c != NIL
    requires (c == ns.left[n] && Less(key, ns.interval[n])) ||
             (c == ns.right[n] && Less(ns.interval[n], key))
    ensures c in Sub(sub, root) && Fits(ns, sub, root, key, c)
  {
    AboveStep(ns, sub, root, n, c);
    RotationNeighbours(ns, sub, root, n, c);
    forall a | a in Above(sub, root, c)
      ensures (c in Sub(sub, ns.left[a]) ==> Less(key, ns.interval[a])) &&
              (c in Sub(sub, ns.right[a]) ==> Less(ns.interval[a], key))
    {
      if a != n {
        assert LinkedAt(ns, sub, root, a);
        var l, r := ns.left[a], ns.right[a];
        if n in Sub(sub, l) {
          assert LinkedAt(ns, sub, root, l);
          SubNested(ns, sub, root, l, n);
        } else {
          assert n in Sub(sub, r);
          assert LinkedAt(ns, sub, root, r);
          SubNested(ns, sub, root, r, n);
        }
      } else {
        assert LinkedAt(ns, sub, root, n);
      }
    }
  }

  /** Raising one more node, not raised yet. */
  lemma RaisedStep(max: seq<int>, A: set<int>, n: int, e: int)
    requires 0 <= n < |max| && n !in A
    ensures Raised(max, A, e)[n := GetMax(max[n], e)] == Raised(max, A + {n}, e)
  {
  }

  // ---------------------------------------------------------------------------------------
  // The attached leaf
  // ---------------------------------------------------------------------------------------

  /** Where insert's descent stops without finding the key: the key fits below n, differs from
      n's key, and the child on its side is missing. */
  ghost predicate Attachable(ns: Nodes, sub: seq<set<int>>, root: int, n: int, key: Interval)
  {
    Linked(ns, sub, root) && n in Sub(sub, root) && Fits(ns, sub, root, key, n) &&
    0 <= n < ns.Size() && key != ns.interval[n] &&
    (Less(key, ns.interval[n]) ==> ns.left[n] == NIL) &&
    (!Less(key, ns.interval[n]) ==> ns.right[n] == NIL)
  }

  /** Slot k of an existing node after the attachment. */
  lemma AttachedAt(ns: Nodes, sub: seq<set<int>>, root: int, n: int, key: Interval, value: Id,
                   k: int)
    requires Attachable(ns, sub, root, n, key) && 0 <= k < ns.Size()
    ensures var r, x, A := Attached(ns, sub, root, n, key, value), ns.Size(), Above(sub, root, n) + {n};
      r.interval[k] == ns.interval[k] && r.values[k] == ns.values[k] &&
      r.color[k] == ns.color[k] && r.parent[k] == ns.parent[k] &&
      r.left[k] == (if k == n && Less(key, ns.interval[n]) then x else ns.left[k]) &&
      r.right[k] == (if k == n && !Less(key, ns.interval[n]) then x else ns.right[k]) &&
      r.max[k] == (if k in A then GetMax(ns.max[k], key.end) else ns.max[k])
    ensures var x, A := ns.Size(), Above(sub, root, n) + {n};
      AttachedSub(ns, sub, root, n)[k] == if k in A then sub[k] + {x} else sub[k]
  {
  }

  /** The slot of the new node after the attachment. */
  lemma AttachedNew(ns: Nodes, sub: seq<set<int>>, root: int, n: int, key: Interval, value: Id)
    requires Attachable(ns, sub, root, n, key)
    ensures var r, x := Attached(ns, sub, root, n, key, value), ns.Size();
      r.interval[x] == key && r.max[x] == key.end && r.values[x] == {value} &&
      r.left[x] == NIL && r.right[x] == NIL && r.parent[x] == n && r.color[x] == Red &&
      AttachedSub(ns, sub, root, n)[x] == {x}
    ensures var r := Attached(ns, sub, root, n, key, value);
      r.interval == ns.interval + [key] && r.values == ns.values + [{value}] &&
      r.color == ns.color + [Red]
  {
  }

  /** The key the descent hangs as a new leaf is stored in no live node: in the attached tree
      the new node and a live node holding key would be two nodes with one key. */
  lemma AttachedKeyNew(ns: Nodes, sub: seq<set<int>>, root: int, n: int, key: Interval, value: Id)
    requires Sound(ns, sub, root, NIL) && Attachable(ns, sub, root, n, key)
    ensures key !in KeysOf(ns, Sub(sub, root))
  {
    if key in KeysOf(ns, Sub(sub, root)) {
      var i :| i in Sub(sub, root) && 0 <= i < ns.Size() && ns.interval[i] == key;
      var r, s, x := Attached(ns, sub, root, n, key, value), AttachedSub(ns, sub, root, n), ns.Size();
      AttachedSound(ns, sub, root, n, key, value);
      AttachedNew(ns, sub, root, n, key, value);
      assert root != NIL && Sub(s, root) == s[root];
      KeysDistinct(r, s, root, root, i, x);
    }
  }

  /** The new slot lies in no existing subtree. */
  lemma FreshSlot(ns: Nodes, sub: seq<set<int>>, root: int, k: int)
    requires Linked(ns, sub, root) && k in Sub(sub, root)
    ensures ns.Size() !in sub[k]
  {
    if ns.Size() in sub[k] {
      SubNested(ns, sub, root, k, ns.Size());
    }
  }

  /** The live nodes after the attachment: the old ones and the new one. */
  lemma AttachedLive(ns: Nodes, sub: seq<set<int>>, root: int, n: int, key: Interval)
    requires Attachable(ns, sub, root, n, key)
    ensures Sub(AttachedSub(ns, sub, root, n), root) == Sub(sub, root) + {ns.Size()}
  {
    OnPath(ns, sub, root, n, root);
  }

  /** After the attachment a live node off the path to n still links down correctly: nothing
      around it changed. */
  lemma AttachedChildrenOff(ns: Nodes, sub: seq<set<int>>, root: int, n: int, key: Interval,
                            value: Id, i: int)
    requires Attachable(ns, sub, root, n, key) && i in Sub(sub, root)
    requires i !in Above(sub, root, n) + {n}
    ensures var r := Attached(ns, sub, root, n, key, value);
      0 <= i < r.Size() && ChildrenAt(r, AttachedSub(ns, sub, root, n), root, i)
  {
    var r, s := Attached(ns, sub, root, n, key, value), AttachedSub(ns, sub, root, n);
    AttachedLive(ns, sub, root, n, key);
    assert LinkedAt(ns, sub, root, i);
    PathChildren(ns, sub, root, n, i);
    AttachedAt(ns, sub, root, n, key, value, i);
    var l, rr := ns.left[i], ns.right[i];
    if l != NIL {
      AttachedAt(ns, sub, root, n, key, value, l);
    }
    if rr != NIL {
      AttachedAt(ns, sub, root, n, key, value, rr);
    }
    assert Sub(s, l) == Sub(sub, l) && Sub(s, rr) == Sub(sub, rr) && s[i] == sub[i];
  }

  /** After the attachment a proper ancestor of n still links down correctly: the child on the
      path gains the new node in its subtree, and so does the ancestor. */
  lemma AttachedChildrenAbove(ns: Nodes, sub: seq<set<int>>, root: int, n: int, key: Interval,
                              value: Id, i: int)
    requires Attachable(ns, sub, root, n, key) && i in Above(sub, root, n)
    ensures var r := Attached(ns, sub, root, n, key, value);
      0 <= i < r.Size() && ChildrenAt(r, AttachedSub(ns, sub, root, n), root, i)
  {
    var r, s, x := Attached(ns, sub, root, n, key, value), AttachedSub(ns, sub, root, n), ns.Size();
    AttachedLive(ns, sub, root, n, key);
    assert LinkedAt(ns, sub, root, i);
    PathChildren(ns, sub, root, n, i);
    AttachedAt(ns, sub, root, n, key, value, i);
    FreshSlot(ns, sub, root, i);
    var l, rr := ns.left[i], ns.right[i];
    if l != NIL {
      AttachedAt(ns, sub, root, n, key, value, l);
      FreshSlot(ns, sub, root, l);
    }
    if rr != NIL {
      AttachedAt(ns, sub, root, n, key, value, rr);
      FreshSlot(ns, sub, root, rr);
    }
    assert s[i] == sub[i] + {x};
    assert (Sub(s, l) == Sub(sub, l) + {x} && Sub(s, rr) == Sub(sub, rr)) ||
           (Sub(s, l) == Sub(sub, l) && Sub(s, rr) == Sub(sub, rr) + {x});
  }

  /** After the attachment n links down correctly: the new node is its child on the key's side. */
  lemma AttachedChildrenAtN(ns: Nodes, sub: seq<set<int>>, root: int, n: int, key: Interval,
                            value: Id)
    requires Attachable(ns, sub, root, n, key)
    ensures var r := Attached(ns, sub, root, n, key, value);
      0 <= n < r.Size() && ChildrenAt(r, AttachedSub(ns, sub, root, n), root, n)
  {
    var r, s, x := Attached(ns, sub, root, n, key, value), AttachedSub(ns, sub, root, n), ns.Size();
    AttachedLive(ns, sub, root, n, key);
    AttachedNew(ns, sub, root, n, key, value);
    assert LinkedAt(ns, sub, root, n);
    PathChildren(ns, sub, root, n, n);
    AttachedAt(ns, sub, root, n, key, value, n);
    FreshSlot(ns, sub, root, n);
    var c := if Less(key, ns.interval[n]) then ns.right[n] else ns.left[n];
    if c != NIL {
      AttachedAt(ns, sub, root, n, key, value, c);
      FreshSlot(ns, sub, root, c);
    }
    assert s[n] == sub[n] + {x} && Sub(s, c) == Sub(sub, c);
  }

  /** After the attachment every live node, the new one included, links down correctly. */
  lemma AttachedChildren(ns: Nodes, sub: seq<set<int>>, root: int, n: int, key: Interval,
                         value: Id, i: int)
    requires Attachable(ns, sub, root, n, key) && i in Sub(sub, root) + {ns.Size()}
    ensures var r := Attached(ns, sub, root, n, key, value);
      0 <= i < r.Size() && ChildrenAt(r, AttachedSub(ns, sub, root, n), root, i)
  {
    if i == ns.Size() {
      AttachedLive(ns, sub, root, n, key);
      AttachedNew(ns, sub, root, n, key, value);
    } else if i == n {
      AttachedChildrenAtN(ns, sub, root, n, key, value);
    } else if i in Above(sub, root, n) {
      AttachedChildrenAbove(ns, sub, root, n, key, value, i);
    } else {
      AttachedChildrenOff(ns, sub, root, n, key, value, i);
    }
  }

  /** After the attachment every live node, the new one included, links up correctly. */
  lemma AttachedParent(ns: Nodes, sub: seq<set<int>>, root: int, n: int, key: Interval,
                       value: Id, i: int)
    requires Attachable(ns, sub, root, n, key) && i in Sub(sub, root) + {ns.Size()}
    ensures var r := Attached(ns, sub, root, n, key, value);
      0 <= i < r.Size() && ParentAt(r, AttachedSub(ns, sub, root, n), root, i)
  {
    AttachedLive(ns, sub, root, n, key);
    AttachedNew(ns, sub, root, n, key, value);
    AttachedAt(ns, sub, root, n, key, value, n);
    if i != ns.Size() {
      assert LinkedAt(ns, sub, root, i);
      AttachedAt(ns, sub, root, n, key, value, i);
      if i != root {
        AttachedAt(ns, sub, root, n, key, value, ns.parent[i]);
      }
    }
  }

  /** The attachment leaves a linked tree whose live nodes are the old ones and the new one. */
  lemma AttachedLinked(ns: Nodes, sub: seq<set<int>>, root: int, n: int, key: Interval, value: Id)
    requires Attachable(ns, sub, root, n, key)
    ensures var r, s := Attached(ns, sub, root, n, key, value), AttachedSub(ns, sub, root, n);
      Linked(r, s, root) && Sub(s, root) == Sub(sub, root) + {ns.Size()}
  {
    var r, s := Attached(ns, sub, root, n, key, value), AttachedSub(ns, sub, root, n);
    AttachedLive(ns, sub, root, n, key);
    AttachedAt(ns, sub, root, n, key, value, root);
    OnPath(ns, sub, root, n, root);
    forall i | i in Sub(s, root)
      ensures 0 <= i < r.Size() && LinkedAt(r, s, root, i)
    {
      AttachedChildren(ns, sub, root, n, key, value, i);
      AttachedParent(ns, sub, root, n, key, value, i);
    }
  }

  /** After the attachment the nodes below a live node's left child still precede it. */
  lemma AttachedOrderedLeft(ns: Nodes, sub: seq<set<int>>, root: int, n: int, key: Interval,
                            value: Id, i: int)
    requires Attachable(ns, sub, root, n, key) && i in Sub(sub, root) && OrderedAt(ns, sub, i, NIL)
    ensures var r, s := Attached(ns, sub, root, n, key, value), AttachedSub(ns, sub, root, n);
      0 <= i < r.Size() &&
      forall j | j in Sub(s, r.left[i]) && j != NIL && 0 <= j < r.Size() ::
        Less(r.interval[j], r.interval[i])
  {
    var r, s, x := Attached(ns, sub, root, n, key, value), AttachedSub(ns, sub, root, n), ns.Size();
    AttachedNew(ns, sub, root, n, key, value);
    PathChildren(ns, sub, root, n, i);
    AttachedAt(ns, sub, root, n, key, value, i);
    var l := ns.left[i];
    if r.left[i] == l && l != NIL {
      AttachedAt(ns, sub, root, n, key, value, l);
      forall j | j in s[l] && 0 <= j < r.Size()
        ensures Less(r.interval[j], r.interval[i])
      {
        if j == x {
          FreshSlot(ns, sub, root, l);
          OnPath(ns, sub, root, n, l);
          assert i in Above(sub, root, n) && n in Sub(sub, ns.left[i]);
        }
      }
    }
  }

  /** After the attachment the nodes below a live node's right child still follow it. */
  lemma AttachedOrderedRight(ns: Nodes, sub: seq<set<int>>, root: int, n: int, key: Interval,
                             value: Id, i: int)
    requires Attachable(ns, sub, root, n, key) && i in Sub(sub, root) && OrderedAt(ns, sub, i, NIL)
    ensures var r, s := Attached(ns, sub, root, n, key, value), AttachedSub(ns, sub, root, n);
      0 <= i < r.Size() &&
      forall j | j in Sub(s, r.right[i]) && j != NIL && 0 <= j < r.Size() ::
        Less(r.interval[i], r.interval[j])
  {
    var r, s, x := Attached(ns, sub, root, n, key, value), AttachedSub(ns, sub, root, n), ns.Size();
    AttachedNew(ns, sub, root, n, key, value);
    PathChildren(ns, sub, root, n, i);
    AttachedAt(ns, sub, root, n, key, value, i);
    var rr := ns.right[i];
    if r.right[i] == x {
      LessIsStrictTotalOrder(key, ns.interval[n], key);
    } else if rr != NIL {
      AttachedAt(ns, sub, root, n, key, value, rr);
      forall j | j in s[rr] && 0 <= j < r.Size()
        ensures Less(r.interval[i], r.interval[j])
      {
        if j == x {
          FreshSlot(ns, sub, root, rr);
          OnPath(ns, sub, root, n, rr);
          assert i in Above(sub, root, n) && n in Sub(sub, ns.right[i]);
        }
      }
    }
  }

  /** After the attachment every live node is in key order with its subtrees. */
  lemma AttachedOrderedAt(ns: Nodes, sub: seq<set<int>>, root: int, n: int, key: Interval,
                          value: Id, i: int)
    requires Attachable(ns, sub, root, n, key) && Ordered(ns, sub, root, NIL)
    requires i in Sub(sub, root) + {ns.Size()}
    ensures var r := Attached(ns, sub, root, n, key, value);
      0 <= i < r.Size() && OrderedAt(r, AttachedSub(ns, sub, root, n), i, NIL)
  {
    AttachedNew(ns, sub, root, n, key, value);
    if i != ns.Size() {
      assert OrderedAt(ns, sub, i, NIL);
      AttachedOrderedLeft(ns, sub, root, n, key, value, i);
      AttachedOrderedRight(ns, sub, root, n, key, value, i);
    }
  }

  /** After the attachment every live node's max is what updateMax would store. */
  lemma AttachedMaxAt(ns: Nodes, sub: seq<set<int>>, root: int, n: int, key: Interval,
                      value: Id, i: int)
    requires Attachable(ns, sub, root, n, key) && i in Sub(sub, root) + {ns.Size()}
    requires i != ns.Size() ==> 0 <= i < ns.Size() && MaxAt(ns, i)
    ensures var r := Attached(ns, sub, root, n, key, value);
      0 <= i < r.Size() && MaxAt(r, i)
  {
    AttachedNew(ns, sub, root, n, key, value);
    if i != ns.Size() {
      PathChildren(ns, sub, root, n, i);
      AttachedAt(ns, sub, root, n, key, value, i);
      var l, rr := ns.left[i], ns.right[i];
      if l != NIL {
        AttachedAt(ns, sub, root, n, key, value, l);
      }
      if rr != NIL {
        AttachedAt(ns, sub, root, n, key, value, rr);
      }
    }
  }

  /** Hanging the new leaf keeps the search-tree invariant and adds exactly the new entry. */
  lemma AttachedSound(ns: Nodes, sub: seq<set<int>>, root: int, n: int, key: Interval, value: Id)
    requires Sound(ns, sub, root, NIL) && Attachable(ns, sub, root, n, key)
    ensures var r, s := Attached(ns, sub, root, n, key, value), AttachedSub(ns, sub, root, n);
      Sound(r, s, root, NIL) && Sub(s, root) == Sub(sub, root) + {ns.Size()} &&
      EntriesOf(r, Sub(s, root)) == EntriesOf(ns, Sub(sub, root)) + {(key, value)}
  {
    var r, s := Attached(ns, sub, root, n, key, value), AttachedSub(ns, sub, root, n);
    AttachedLinked(ns, sub, root, n, key, value);
    AttachedNew(ns, sub, root, n, key, value);
    forall i | i in Sub(s, root)
      ensures OrderedAt(r, s, i, NIL)
    {
      AttachedOrderedAt(ns, sub, root, n, key, value, i);
    }
    forall i | i in Sub(s, root)
      ensures NIL in s[i] || MaxAt(r, i)
    {
      if i != ns.Size() {
        if NIL in sub[i] {
          SubNested(ns, sub, root, i, NIL);
        }
      }
      AttachedMaxAt(ns, sub, root, n, key, value, i);
    }
    forall i | i in Sub(s, root)
      ensures r.values[i] != {}
    {
      if i != ns.Size() {
        assert ns.values[i] != {};
      }
    }
    AttachedEntries(ns, sub, root, n, key, value);
  }

  /** The stored entries after the attachment: the old ones and (key, value). */
  lemma AttachedEntries(ns: Nodes, sub: seq<set<int>>, root: int, n: int, key: Interval, value: Id)
    requires Attachable(ns, sub, root, n, key)
    ensures var r, s := Attached(ns, sub, root, n, key, value), AttachedSub(ns, sub, root, n);
      EntriesOf(r, Sub(s, root)) == EntriesOf(ns, Sub(sub, root)) + {(key, value)}
  {
    var r, s := Attached(ns, sub, root, n, key, value), AttachedSub(ns, sub, root, n);
    AttachedLive(ns, sub, root, n, key);
    AttachedNew(ns, sub, root, n, key, value);
    EntriesOfMembers(ns, Sub(sub, root));
    EntriesOfMembers(r, Sub(s, root));
    assert (r.interval[ns.Size()], value) in EntriesOf(r, Sub(s, root));
  }

  // ---------------------------------------------------------------------------------------
  // The other two ways insert ends
  // ---------------------------------------------------------------------------------------

  /** When the descent meets a node n holding the key itself, raising the maxes on the way to n
      by n's own end changes none of them. */
  lemma DuplicateKeepsMax(ns: Nodes, sub: seq<set<int>>, root: int, n: int)
    requires Sound(ns, sub, root, NIL) && n in Sub(sub, root)
    ensures 0 <= n < ns.Size()
    ensures Raised(ns.max, Above(sub, root, n) + {n}, ns.interval[n].end) == ns.max
  {
    OnPath(ns, sub, root, n, n);
    var A := Above(sub, root, n) + {n};
    forall i | i in A
      ensures GetMax(ns.max[i], ns.interval[n].end) == ns.max[i]
    {
      OnPath(ns, sub, root, n, i);
      if NIL in sub[i] {
        SubNested(ns, sub, root, i, NIL);
      }
      MaxIsSubtreeMax(ns, sub, root, NIL, i);
    }
  }

  /** Adding a value to the set of a live node keeps the invariant and stores one more entry. */
  lemma ValueAdded(ns: Nodes, sub: seq<set<int>>, root: int, n: int, value: Id)
    requires Sound(ns, sub, root, NIL) && n in Sub(sub, root)
    ensures 0 <= n < ns.Size()
    ensures var r := ns.(values := ns.values[n := ns.values[n] + {value}]);
      Sound(r, sub, root, NIL) &&
      EntriesOf(r, Sub(sub, root)) == EntriesOf(ns, Sub(sub, root)) + {(ns.interval[n], value)}
  {
    var r := ns.(values := ns.values[n := ns.values[n] + {value}]);
    assert LinkedAt(ns, sub, root, n);
    forall i | i in Sub(sub, root) && 0 <= i < r.Size()
      ensures r.values[i] != {}
    {
      assert ns.values[i] != {};
    }
    SoundSameShape(ns, r, sub, root, NIL);
    EntriesOfMembers(ns, Sub(sub, root));
    EntriesOfMembers(r, Sub(sub, root));
  }

  /** Inserting into an empty tree: the new node alone is a sound tree holding the one entry. */
  lemma Planted(ns: Nodes, sub: seq<set<int>>, key: Interval, value: Id)
    requires ns.Sized() && |sub| == ns.Size()
    ensures var r, s, x := NewNode(ns, key, value), sub + [{ns.Size()}], ns.Size();
      Sound(r, s, x, NIL) && Sub(s, x) == {x} && EntriesOf(r, Sub(s, x)) == {(key, value)}
  {
    var r, s, x := NewNode(ns, key, value), sub + [{ns.Size()}], ns.Size();
    assert LinkedAt(r, s, x, x);
    assert OrderedAt(r, s, x, NIL);
    EntriesOfMembers(r, {x});
  }

  // ---------------------------------------------------------------------------------------
  // The colours of the new leaf
  // ---------------------------------------------------------------------------------------

  /** The colour rules at an old node k after the new red leaf, with no black node below it,
      has been hung below n: as they were, the leaf excepted from the red rule. */
  lemma AttachedRulesAt(ns: Nodes, sub: seq<set<int>>, root: int, bh: seq<nat>, n: int, key: Interval,
                        value: Id, k: int)
    requires Attachable(ns, sub, root, n, key) && RedBlack(ns, Sub(sub, root), bh, NIL)
    requires k in Sub(sub, root)
    ensures var r := Attached(ns, sub, root, n, key, value);
      0 <= k < r.Size() && |bh + [0]| == r.Size() &&
      BalancedAt(r, bh + [0], NIL, k) && RedOkAt(r, NIL, ns.Size(), k)
  {
    var r, x := Attached(ns, sub, root, n, key, value), ns.Size();
    AttachedAt(ns, sub, root, n, key, value, k);
    AttachedNew(ns, sub, root, n, key, value);
    Kin(ns, sub, root, k);
    assert BalancedAt(ns, bh, NIL, k) && RedOkAt(ns, NIL, NIL, k);
    var l, rr := ns.left[k], ns.right[k];
    if l != NIL {
      AttachedAt(ns, sub, root, n, key, value, l);
    }
    if rr != NIL {
      AttachedAt(ns, sub, root, n, key, value, rr);
    }
    Hung(ns, bh, r, bh + [0], k, x);
  }

  /** Hanging the new red leaf below n in a red-black tree, with no black node below it, keeps
      the black-height rule everywhere and the red rule everywhere except for the leaf itself:
      fixTreeAt may start at it. */
  lemma AttachedFixable(ns: Nodes, sub: seq<set<int>>, root: int, bh: seq<nat>, n: int, key: Interval,
                        value: Id)
    requires Sound(ns, sub, root, NIL) && Attachable(ns, sub, root, n, key) && NodeColor(ns, root) == Black
    requires RedBlack(ns, Sub(sub, root), bh, NIL)
    ensures Fixable(Tree(Attached(ns, sub, root, n, key, value), root, AttachedSub(ns, sub, root, n), bh + [0]),
                    ns.Size())
  {
    var r, s, x, bh1 := Attached(ns, sub, root, n, key, value), AttachedSub(ns, sub, root, n), ns.Size(), bh + [0];
    AttachedSound(ns, sub, root, n, key, value);
    AttachedNew(ns, sub, root, n, key, value);
    AttachedLive(ns, sub, root, n, key);
    SubNested(ns, sub, root, root, n);
    AttachedAt(ns, sub, root, n, key, value, root);
    forall k | k in Sub(s, root) && 0 <= k < r.Size()
      ensures BalancedAt(r, bh1, NIL, k) && RedOkAt(r, NIL, x, k)
    {
      if k != x {
        AttachedRulesAt(ns, sub, root, bh, n, key, value, k);
      }
    }
  }

  /** Inserting into an empty tree: the new red node alone, with no black node below it, may be
      handed to fixTreeAt, which paints it black. */
  lemma PlantedFixable(ns: Nodes, sub: seq<set<int>>, bh: seq<nat>, key: Interval, value: Id)
    requires ns.Sized() && |sub| == ns.Size() && |bh| == ns.Size()
    ensures Fixable(Tree(NewNode(ns, key, value), ns.Size(), sub + [{ns.Size()}], bh + [0]), ns.Size())
  {
    var r, s, x := NewNode(ns, key, value), sub + [{ns.Size()}], ns.Size();
    Planted(ns, sub, key, value);
    assert BalancedAt(r, bh + [0], NIL, x) && RedOkAt(r, NIL, x, x);
  }
}
