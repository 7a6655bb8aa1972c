/** Interval keys and the small helpers of IntervalTree.java that only compute a value. */
module Intervals {

  /** A closed interval [begin, end]; the bound type is modelled by int, of which only the
      total order is used. No relation between begin and end is assumed. */
  datatype Interval = Interval(begin: int, end: int)

  /** Key order of the tree: lexicographic, begin first, then end. */
  predicate Less(a: Interval, b: Interval) {
    a.begin < b.begin || (a.begin == b.begin && a.end < b.end)
  }

  /** getMax: the larger of two bounds. */
  function GetMax(a: int, b: int): (r: int)
    ensures r >= a && r >= b
    ensures r == a || r == b
  {
    if a < b then b else a
  }

  /** areIntervalsOverlapping: closed intervals, touching end-points overlap. */
  function AreIntervalsOverlapping(a: Interval, b: Interval): (r: bool)
    ensures r <==> a.begin <= b.end && b.begin <= a.end
  {
    if a.begin > b.end then false
    else if a.end < b.begin then false
    else true
  }

  /** Overlap is symmetric, so the query may stand on either side. */
  lemma OverlapSymmetric(a: Interval, b: Interval)
    ensures AreIntervalsOverlapping(a, b) == AreIntervalsOverlapping(b, a)
  {
  }

  /** Less is a strict total order on keys. */
  lemma LessIsStrictTotalOrder(a: Interval, b: Interval, c: Interval)
    ensures !Less(a, a)
    ensures Less(a, b) && Less(b, c) ==> Less(a, c)
    ensures a == b || Less(a, b) || Less(b, a)
    ensures !(Less(a, b) && Less(b, a))
  {
  }
}
