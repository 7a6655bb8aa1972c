/** What findOverlapping and accumulateAll of IntervalTree.java collect, and why the pruned
    descent of findOverlapping misses nothing. */
module Searches {
  import opened Intervals
  import opened TreeNodes

  /** The values stored in the nodes of S whose interval overlaps q. */
  ghost function OverlapValues(ns: Nodes, S: set<int>, q: Interval): set<Id>
    requires ns.Sized()
  {
    set i, v | i in S && 0 <= i < ns.Size() && v in ns.values[i] &&
               AreIntervalsOverlapping(q, ns.interval[i]) :: v
  }

  /** The values stored in the nodes of S. */
  ghost function AllValues(ns: Nodes, S: set<int>): set<Id>
    requires ns.Sized()
  {
    set i, v | i in S && 0 <= i < ns.Size() && v in ns.values[i] :: v
  }

  /** A subtree's overlapping values are its root's, if the root overlaps, and its children's. */
  lemma OverlapValuesAt(ns: Nodes, sub: seq<set<int>>, root: int, i: int, q: Interval)
    requires Linked(ns, sub, root) && i in Sub(sub, root)
    ensures 0 <= i < ns.Size()
    ensures OverlapValues(ns, sub[i], q) ==
      (if AreIntervalsOverlapping(q, ns.interval[i]) then ns.values[i] else {}) +
      OverlapValues(ns, Sub(sub, ns.left[i]), q) + OverlapValues(ns, Sub(sub, ns.right[i]), q)
  {
    assert LinkedAt(ns, sub, root, i);
    var here := if AreIntervalsOverlapping(q, ns.interval[i]) then ns.values[i] else {};
    var L, R := Sub(sub, ns.left[i]), Sub(sub, ns.right[i]);
    forall v | v in OverlapValues(ns, sub[i], q)
      ensures v in here + OverlapValues(ns, L, q) + OverlapValues(ns, R, q)
    {
      var j :| j in sub[i] && 0 <= j < ns.Size() && v in ns.values[j] &&
               AreIntervalsOverlapping(q, ns.interval[j]);
      if j != i && j in L {
        assert v in OverlapValues(ns, L, q);
      } else if j != i {
        assert v in OverlapValues(ns, R, q);
      }
    }
    forall v | v in here + OverlapValues(ns, L, q) + OverlapValues(ns, R, q)
      ensures v in OverlapValues(ns, sub[i], q)
    {
      if v !in here {
        var j :| j in L + R && 0 <= j < ns.Size() && v in ns.values[j] &&
                 AreIntervalsOverlapping(q, ns.interval[j]);
        assert j in sub[i];
      }
    }
  }

  /** A subtree's values are its root's and its children's. */
  lemma AllValuesAt(ns: Nodes, sub: seq<set<int>>, root: int, i: int)
    requires Linked(ns, sub, root) && i in Sub(sub, root)
    ensures 0 <= i < ns.Size()
    ensures AllValues(ns, sub[i]) ==
      ns.values[i] + AllValues(ns, Sub(sub, ns.left[i])) + AllValues(ns, Sub(sub, ns.right[i]))
  {
    assert LinkedAt(ns, sub, root, i);
    var L, R := Sub(sub, ns.left[i]), Sub(sub, ns.right[i]);
    forall v | v in AllValues(ns, sub[i])
      ensures v in ns.values[i] + AllValues(ns, L) + AllValues(ns, R)
    {
      var j :| j in sub[i] && 0 <= j < ns.Size() && v in ns.values[j];
      if j != i && j in L {
        assert v in AllValues(ns, L);
      } else if j != i {
        assert v in AllValues(ns, R);
      }
    }
    forall v | v in ns.values[i] + AllValues(ns, L) + AllValues(ns, R)
      ensures v in AllValues(ns, sub[i])
    {
      if v !in ns.values[i] {
        var j :| j in L + R && 0 <= j < ns.Size() && v in ns.values[j];
        assert j in sub[i];
      }
    }
  }

  /** Left pruning: when the left child's max lies below q.begin, every interval of the left
      subtree ends before q begins, so none overlaps q. */
  lemma LeftPruned(ns: Nodes, sub: seq<set<int>>, root: int, i: int, q: Interval)
    requires Sound(ns, sub, root, NIL) && i in Sub(sub, root)
    ensures 0 <= i < ns.Size()
    ensures var l := ns.left[i];
      l != NIL ==>
        0 <= l < ns.Size() && (ns.max[l] < q.begin ==> OverlapValues(ns, Sub(sub, l), q) == {})
  {
    assert LinkedAt(ns, sub, root, i);
    var l := ns.left[i];
    if l != NIL && ns.max[l] < q.begin {
      if NIL in sub[l] {
        SubNested(ns, sub, root, l, NIL);
      }
      MaxIsSubtreeMax(ns, sub, root, NIL, l);
    }
  }

  /** Right pruning: every key of the right subtree is larger than node i's, so begins no earlier;
      when node i begins after q ends, none of them overlaps q. */
  lemma RightPruned(ns: Nodes, sub: seq<set<int>>, root: int, i: int, q: Interval)
    requires Sound(ns, sub, root, NIL) && i in Sub(sub, root)
    ensures 0 <= i < ns.Size()
    ensures ns.interval[i].begin > q.end ==> OverlapValues(ns, Sub(sub, ns.right[i]), q) == {}
  {
    assert LinkedAt(ns, sub, root, i);
    assert OrderedAt(ns, sub, i, NIL);
  }

  /** The values of the live nodes are the values of the stored entries. */
  lemma AllValuesAreEntries(ns: Nodes, live: set<int>)
    requires ns.Sized()
    ensures AllValues(ns, live) == set e | e in EntriesOf(ns, live) :: e.1
  {
    EntriesOfMembers(ns, live);
  }

  /** The overlapping values of the live nodes are the values of the entries whose interval
      overlaps q. */
  lemma OverlapValuesAreEntries(ns: Nodes, live: set<int>, q: Interval)
    requires ns.Sized()
    ensures OverlapValues(ns, live, q) ==
      set e | e in EntriesOf(ns, live) && AreIntervalsOverlapping(q, e.0) :: e.1
  {
    EntriesOfMembers(ns, live);
  }
}
