/** The IntervalTree class: a red-black tree over interval keys whose nodes also keep the largest
    end-point of their subtree. */
module IntervalTrees {
  import opened Intervals
  import opened TreeNodes
  import opened Rotations
  import opened LeftRotations
  import opened RightRotations
  import opened Insertions
  import opened InsertFixups
  import opened Searches
  import opened Deletions
  import opened DeleteFixups
  import opened BlackHeights
  import opened DeleteColors
  import opened DeleteEnds

  datatype Option<T> = None | Some(value: T)

  /** A Java `int` result: x taken modulo 2^32 into [-2^31, 2^31), as `count++` and `count--`
      wrap. */
  function Int32(x: int): (r: int)
    ensures -0x8000_0000 <= r < 0x8000_0000
    ensures (r - x) % 0x1_0000_0000 == 0
    ensures -0x8000_0000 <= x < 0x8000_0000 ==> r == x
  {
    (x + 0x8000_0000) % 0x1_0000_0000 - 0x8000_0000
  }

  /** `Math.round(count * ALLOCATION_FACTOR)` with ALLOCATION_FACTOR = 0.5: count / 2 rounded
      half up, the capacity findOverlapping asks of its ArrayList. It is negative, so that
      `new ArrayList` throws IllegalArgumentException, exactly when count is -2 or less. */
  function InitialCapacity(count: int): (c: int)
    ensures c < 0 <==> count <= -2
    ensures 2 * c == count || 2 * c == count + 1
  {
    (count + 1) / 2
  }

  class IntervalTree {
    /** The TreeNode objects allocated by this tree (the arena stands for the heap). */
    var nodes: Nodes
    var root: int
    /** Number of public insert calls minus number of public delete calls, as a Java `int`
        that wraps. */
    var count: int

    /** Ghost shape: the node ids of each node's subtree. */
    ghost var sub: seq<set<int>>
    /** Ghost black heights: the number of black nodes on each path below each node. */
    ghost var bh: seq<nat>

    /** The class invariant: a sound search tree with a black root that is a red-black tree,
        the rules verify() checks. */
    ghost predicate Valid()
      reads this
    {
      Shaped(nodes, sub) && Sound(nodes, sub, root, NIL) && NodeColor(nodes, root) == Black &&
      RedBlack(nodes, Live(), bh, NIL)
    }

    /** The nodes reachable from the root. */
    ghost function Live(): set<int>
      reads this
    {
      Sub(sub, root)
    }

    /** What the tree stores: (interval, entry) pairs. */
    ghost function Entries(): set<(Interval, Id)>
      reads this
      requires nodes.Sized()
    {
      EntriesOf(nodes, Live())
    }

    /** Creates a new, empty interval tree. */
    constructor ()
      ensures Valid() && Entries() == {} && count == 0
    {
      nodes := Nodes([], [], [], [], [], [], []);
      root := NIL;
      count := 0;
      sub := [];
      bh := [];
    }

    /** lookupNode: descend by key comparison; the node holding exactly `key`, or NIL. */
    method LookupNode(key: Interval) returns (node: int)
      requires Valid()
      ensures node == NIL ==> key !in KeysOf(nodes, Live())
      ensures node != NIL ==> node in Live() && 0 <= node < nodes.Size() && nodes.interval[node] == key
      ensures node != NIL ==> forall i | i in Live() && nodes.interval[i] == key :: i == node
    {
      node := root;
      while node != NIL
        invariant node == NIL || (node in Live() && 0 <= node < nodes.Size())
        invariant forall i | i in Live() && 0 <= i < nodes.Size() && nodes.interval[i] == key :: i in Sub(sub, node)
        decreases Sub(sub, node)
      {
        assert LinkedAt(nodes, sub, root, node) && OrderedAt(nodes, sub, node, NIL);
        var here := nodes.interval[node];
        if key.begin < here.begin {
          node := nodes.left[node];
        } else if key.begin > here.begin {
          node := nodes.right[node];
        } else {
          if key.end == here.end {
            return;
          } else if key.end > here.end {
            node := nodes.right[node];
          } else {
            node := nodes.left[node];
          }
        }
      }
    }

    /** lookup: the entries whose interval is exactly `key`; empty when there are none. */
    method Lookup(key: Interval) returns (r: set<Id>)
      requires Valid()
      ensures r == set e | e in Entries() && e.0 == key :: e.1
    {
      var node := LookupNode(key);
      EntriesOfMembers(nodes, Live());
      if node == NIL {
        r := {};
        forall e | e in Entries()
          ensures e.0 != key
        {
          var i :| i in Live() && 0 <= i < nodes.Size() && e.0 == nodes.interval[i] && e.1 in nodes.values[i];
          assert nodes.interval[i] in KeysOf(nodes, Live());
        }
        return;
      }
      r := nodes.values[node];
      forall e | e in Entries() && e.0 == key
        ensures e.1 in r
      {
        var i :| i in Live() && 0 <= i < nodes.Size() && e.0 == nodes.interval[i] && e.1 in nodes.values[i];
      }
      forall v | v in r
        ensures v in set e | e in Entries() && e.0 == key :: e.1
      {
        assert (key, v) in Entries();
      }
    }

    /** getMaximum: the largest interval end in the tree, None when the tree is empty. */
    method GetMaximum() returns (m: Option<int>)
      requires Valid()
      ensures m.None? <==> Entries() == {}
      ensures m.Some? ==> forall e | e in Entries() :: e.0.end <= m.value
      ensures m.Some? ==> exists e | e in Entries() :: e.0.end == m.value
    {
      if root == NIL {
        assert Live() == {};
        return None;
      }
      m := Some(nodes.max[root]);
      MaxIsSubtreeMax(nodes, sub, root, NIL, root);
      EntriesOfMembers(nodes, Live());
      forall e | e in Entries()
        ensures e.0.end <= m.value
      {
        var i :| i in Live() && 0 <= i < nodes.Size() && e.0 == nodes.interval[i] && e.1 in nodes.values[i];
      }
      ghost var j :| j in sub[root] && 0 <= j < nodes.Size() && nodes.interval[j].end == m.value;
      assert j in Live() && nodes.values[j] != {};
      ghost var v := PickOne(nodes.values[j]);
      assert (nodes.interval[j], v) in Entries();
    }

    // -------------------------------------------------------------------------------------
    // Overlap search and enumeration
    // -------------------------------------------------------------------------------------

    /** The public findOverlapping: every entry whose interval overlaps q (closed intervals,
        touching end-points included), and no other. None stands for the
        IllegalArgumentException of `new ArrayList` when the capacity derived from count is
        negative, which deletes of entries that were never stored can bring about. */
    method FindOverlapping(q: Interval) returns (result: Option<multiset<Id>>)
      requires Valid()
      ensures result.None? <==> count <= -2
      ensures result.Some? ==> forall v :: v in result.value <==>
        exists iv :: (iv, v) in Entries() && AreIntervalsOverlapping(q, iv)
    {
      if InitialCapacity(count) < 0 {
        return None;
      }
      var collector := FindOverlappingAt(q, root, multiset{});
      OverlapValuesAreEntries(nodes, Live(), q);
      return Some(collector);
    }

    /** The private findOverlapping below node r: add r's values when r overlaps q, descend left
        unless the left subtree's max lies below q.begin, descend right unless r begins after
        q.end. The collector only grows, and gains exactly the values of the overlapping nodes
        of r's subtree: the pruning skips none. */
    method FindOverlappingAt(q: Interval, r: int, collector: multiset<Id>) returns (out: multiset<Id>)
      requires Valid() && (r == NIL || r in Live())
      ensures collector <= out
      ensures forall v :: v in out <==> v in collector || v in OverlapValues(nodes, Sub(sub, r), q)
      decreases Sub(sub, r)
    {
      if r == NIL {
        return collector;
      }
      assert LinkedAt(nodes, sub, root, r);
      OverlapValuesAt(nodes, sub, root, r, q);
      LeftPruned(nodes, sub, root, r, q);
      RightPruned(nodes, sub, root, r, q);
      out := collector;
      if AreIntervalsOverlapping(q, nodes.interval[r]) {
        out := out + multiset(nodes.values[r]);
      }
      var left := nodes.left[r];
      if left != NIL && nodes.max[left] >= q.begin {
        out := FindOverlappingAt(q, left, out);
      }
      var right := nodes.right[r];
      if right != NIL && nodes.interval[r].begin <= q.end {
        out := FindOverlappingAt(q, right, out);
      }
    }

    /** accumulateAll: the accumulator gains the values of every node of n's subtree. */
    method AccumulateAll(n: int, accumulator: set<Id>) returns (out: set<Id>)
      requires Valid() && n in Live()
      ensures out == accumulator + AllValues(nodes, sub[n])
      decreases sub[n]
    {
      assert LinkedAt(nodes, sub, root, n);
      AllValuesAt(nodes, sub, root, n);
      out := accumulator + nodes.values[n];
      if nodes.left[n] != NIL {
        out := AccumulateAll(nodes.left[n], out);
      }
      if nodes.right[n] != NIL {
        out := AccumulateAll(nodes.right[n], out);
      }
    }

    /** getAll: every stored entry. */
    method GetAll() returns (result: set<Id>)
      requires Valid()
      ensures result == set e | e in Entries() :: e.1
    {
      result := {};
      if root != NIL {
        result := AccumulateAll(root, result);
      }
      AllValuesAreEntries(nodes, Live());
    }

    // -------------------------------------------------------------------------------------
    // Node helpers and rotations
    // -------------------------------------------------------------------------------------

    /** TreeNode.updateMax on node i: i's max becomes its own end raised to each existing
        child's max, and each existing child's parent link is set to i. */
    method UpdateMax(i: int)
      requires nodes.Sized() && 0 <= i < nodes.Size()
      requires nodes.left[i] == NIL || 0 <= nodes.left[i] < nodes.Size()
      requires nodes.right[i] == NIL || 0 <= nodes.right[i] < nodes.Size()
      modifies this`nodes
      ensures nodes == MaxUpdated(old(nodes), i)
      ensures nodes.left[i] != i && nodes.right[i] != i ==> MaxAt(nodes, i)
    {
      var m := nodes.interval[i].end;
      var l := nodes.left[i];
      if l != NIL {
        nodes := nodes.(parent := nodes.parent[l := i]);
        m := GetMax(m, nodes.max[l]);
      }
      var r := nodes.right[i];
      if r != NIL {
        nodes := nodes.(parent := nodes.parent[r := i]);
        m := GetMax(m, nodes.max[r]);
      }
      nodes := nodes.(max := nodes.max[i := m]);
    }

    /** replaceNode: newn (possibly NIL) takes oldn's place under oldn's parent, or becomes the
        root when oldn had no parent. oldn's own links are left alone. */
    method ReplaceNode(oldn: int, newn: int)
      requires nodes.Sized() && 0 <= oldn < nodes.Size()
      requires newn == NIL || 0 <= newn < nodes.Size()
      requires nodes.parent[oldn] == NIL || 0 <= nodes.parent[oldn] < nodes.Size()
      modifies this`nodes, this`root
      ensures nodes == Replaced(old(nodes), oldn, newn)
      ensures root == ReplacedRoot(old(nodes), old(root), oldn, newn)
    {
      var p := nodes.parent[oldn];
      if p == NIL {
        root := newn;
      } else if oldn == nodes.left[p] {
        nodes := nodes.(left := nodes.left[p := newn]);
      } else {
        nodes := nodes.(right := nodes.right[p := newn]);
      }
      if newn != NIL {
        nodes := nodes.(parent := nodes.parent[newn := p]);
      }
    }

    /** rotateLeft: n's right child takes n's place; LeftRotatedIsLeftRotation states what the
        resulting arena is, LeftRotationSound what it keeps of the invariant. */
    method RotateLeft(n: int)
      requires LeftRotatable(nodes, n) && |sub| == nodes.Size() && |bh| == nodes.Size()
      modifies this`nodes, this`root, this`sub, this`bh
      ensures nodes == LeftRotated(old(nodes), n)
      ensures root == ReplacedRoot(old(nodes), old(root), n, old(nodes.right[n]))
      ensures sub == LeftRotatedSub(old(nodes), old(sub), n)
      ensures bh == LeftRotatedHeights(old(nodes), old(bh), n)
    {
      ghost var bh1 := LeftRotatedHeights(nodes, bh, n);
      var c := nodes.right[n];
      ReplaceNode(n, c);
      nodes := nodes.(right := nodes.right[n := nodes.left[c]]);
      if nodes.left[c] != NIL {
        nodes := nodes.(parent := nodes.parent[nodes.left[c] := n]);
      }
      nodes := nodes.(left := nodes.left[c := n]);
      nodes := nodes.(parent := nodes.parent[n := c]);
      assert nodes == LeftLinked(old(nodes), n);
      LeftLinkedAround(old(nodes), n);
      UpdateMax(n);
      UpdateMax(c);
      var up := nodes.parent[c];
      if up != NIL {
        UpdateMax(up);
      }
      sub := LeftRotatedSub(old(nodes), old(sub), n);
      bh := bh1;
    }

    /** rotateRight: n's left child takes n's place; RightRotatedIsRightRotation states what the
        resulting arena is, RightRotationSound what it keeps of the invariant. */
    method RotateRight(n: int)
      requires RightRotatable(nodes, n) && |sub| == nodes.Size() && |bh| == nodes.Size()
      modifies this`nodes, this`root, this`sub, this`bh
      ensures nodes == RightRotated(old(nodes), n)
      ensures root == ReplacedRoot(old(nodes), old(root), n, old(nodes.left[n]))
      ensures sub == RightRotatedSub(old(nodes), old(sub), n)
      ensures bh == RightRotatedHeights(old(nodes), old(bh), n)
    {
      ghost var bh1 := RightRotatedHeights(nodes, bh, n);
      var c := nodes.left[n];
      ReplaceNode(n, c);
      nodes := nodes.(left := nodes.left[n := nodes.right[c]]);
      if nodes.right[c] != NIL {
        nodes := nodes.(parent := nodes.parent[nodes.right[c] := n]);
      }
      nodes := nodes.(right := nodes.right[c := n]);
      nodes := nodes.(parent := nodes.parent[n := c]);
      assert nodes == RightLinked(old(nodes), n);
      RightLinkedAround(old(nodes), n);
      UpdateMax(n);
      UpdateMax(c);
      var up := nodes.parent[c];
      if up != NIL {
        UpdateMax(up);
      }
      sub := RightRotatedSub(old(nodes), old(sub), n);
      bh := bh1;
    }
  
    // -------------------------------------------------------------------------------------
    // Insertion
    // -------------------------------------------------------------------------------------

    /** The public insert: stores the entry under its interval and counts it. A key that is
        already stored only gains the value; nothing else in the tree changes. */
    method Insert(key: Interval, value: Id)
      requires Valid()
      modifies this`nodes, this`root, this`sub, this`bh, this`count
      ensures Valid()
      ensures Entries() == old(Entries()) + {(key, value)}
      ensures key in old(KeysOf(nodes, Live())) ==>
        root == old(root) && sub == old(sub) && bh == old(bh) &&
        nodes == old(nodes).(values := nodes.values)
      ensures count == Int32(old(count) + 1)
    {
      InsertEntry(key, value);
      count := Int32(count + 1);
    }

    /** The private insert: below an empty tree the new red node becomes the root; otherwise
        Descend finds where the key belongs, adding the value to the node that already holds the
        key, or hanging a new node for it below the last node visited. A new node is then
        repaired from, as fixTreeAt does. */
    method InsertEntry(key: Interval, value: Id)
      requires Valid()
      modifies this`nodes, this`root, this`sub, this`bh
      ensures Valid()
      ensures Entries() == old(Entries()) + {(key, value)}
      ensures key in old(KeysOf(nodes, Live())) ==>
        root == old(root) && sub == old(sub) && bh == old(bh) &&
        nodes == old(nodes).(values := nodes.values)
    {
      var x := nodes.Size();
      if root == NIL {
        Planted(nodes, sub, key, value);
        PlantedFixable(nodes, sub, bh, key, value);
        nodes := NewNode(nodes, key, value);
        sub := sub + [{x}];
        bh := bh + [0];
        root := x;
      } else {
        ghost var ns0 := nodes;
        var n, duplicate := Descend(key, value);
        if duplicate {
          ValueAdded(ns0, sub, root, n, value);
          RedBlackSameShape(ns0, nodes, Live(), bh, NIL);
          return;
        }
        AttachedKeyNew(ns0, sub, root, n, key, value);
        AttachedSound(ns0, sub, root, n, key, value);
        AttachedFixable(ns0, sub, root, bh, n, key, value);
        sub := AttachedSub(ns0, sub, root, n);
        bh := bh + [0];
      }
      ghost var t := Tree(nodes, root, sub, bh);
      FixTreeAt(x);
      RepairedEntries(t, Tree(nodes, root, sub, bh));
    }

    /** The descent of the private insert in a non-empty tree: from the root, compare key with
        each node's interval by begin and then by end, raising the node's max to key.end. A node
        holding key itself gets the value and the descent ends (duplicate). Otherwise the
        descent goes left or right, and where that child is missing a new red node for key and
        value is hung, with n as its parent. */
    method Descend(key: Interval, value: Id) returns (n: int, duplicate: bool)
      requires Valid() && root != NIL
      modifies this`nodes
      ensures n in Sub(sub, root)
      ensures duplicate ==>
        0 <= n < old(nodes).Size() && old(nodes).interval[n] == key &&
        nodes == old(nodes).(values := old(nodes).values[n := old(nodes).values[n] + {value}])
      ensures !duplicate ==>
        Attachable(old(nodes), sub, root, n, key) && nodes == Attached(old(nodes), sub, root, n, key, value)
    {
      var x := nodes.Size();
      ghost var ns0 := nodes;
      n := root;
      AboveRoot(ns0, sub, root);
      assert Sound(ns0, sub, root, NIL);
      while true
        invariant n in Sub(sub, root) && Fits(ns0, sub, root, key, n)
        invariant nodes == ns0.(max := Raised(ns0.max, Above(sub, root, n), key.end))
        modifies this`nodes
        decreases Sub(sub, n)
      {
        OnPath(ns0, sub, root, n, n);
        RaisedStep(ns0.max, Above(sub, root, n), n, key.end);
        nodes := nodes.(max := nodes.max[n := GetMax(nodes.max[n], key.end)]);
        var here := nodes.interval[n];
        var goLeft: bool;
        if key.begin < here.begin {
          goLeft := true;
        } else if key.begin > here.begin {
          goLeft := false;
        } else if key.end == here.end {
          DuplicateKeepsMax(ns0, sub, root, n);
          nodes := nodes.(values := nodes.values[n := nodes.values[n] + {value}]);
          return n, true;
        } else {
          goLeft := key.end < here.end;
        }
        var c := if goLeft then nodes.left[n] else nodes.right[n];
        if c == NIL {
          nodes := NewNode(nodes, key, value);
          if goLeft {
            nodes := nodes.(left := nodes.left[n := x]);
          } else {
            nodes := nodes.(right := nodes.right[n := x]);
          }
          break;
        }
        RotationNeighbours(ns0, sub, root, n, c);
        FitsStep(ns0, sub, root, key, n, c);
        AboveStep(ns0, sub, root, n, c);
        n := c;
      }
      nodes := nodes.(parent := nodes.parent[x := n]);
      duplicate := false;
      assert Attachable(ns0, sub, root, n, key);
    }

    /** fixTreeAt: repair the colours above the red node n. The root is painted black (case 1);
        below a black parent nothing is to do (case 2); with a red uncle, parent and uncle turn
        black, the grandparent red, and the repair goes on there (case 3); otherwise one or two
        rotations bring the parent up, black, above the grandparent, now red (case 4). FixedAt
        describes the outcome, and its contract says the outcome is a sound red-black tree with
        a black root over the same entries. */
    method FixTreeAt(n: int)
      requires Fixable(Tree(nodes, root, sub, bh), n)
      modifies this`nodes, this`root, this`sub, this`bh
      ensures Tree(nodes, root, sub, bh) == FixedAt(Tree(old(nodes), old(root), old(sub), old(bh)), n)
      decreases Live() - Sub(sub, n), 1
    {
      ghost var t := Tree(nodes, root, sub, bh);
      assert LinkedAt(nodes, sub, root, n);
      var p := nodes.parent[n];
      if p == NIL {
        nodes := nodes.(color := nodes.color[n := Black]);
        return;
      }
      if NodeColor(nodes, p) == Black {
        return;
      }
      RedParent(t, n);
      if NodeColor(nodes, Uncle(nodes, n)) == Red {
        FixTreeAtUncle(n);
        return;
      }
      RotationsThenFixed(t, n);
      var m := FixTreeAtInner(n);
      FixTreeAtOuter(m);
    }

    /** Case 3 of fixTreeAt, n and its parent red below a red uncle: parent and uncle turn
        black, the grandparent red, which puts one more black node below the grandparent, and
        the repair goes on there. */
    method FixTreeAtUncle(n: int)
      requires Fixable(Tree(nodes, root, sub, bh), n) && root != n && 0 <= n < nodes.Size()
      requires 0 <= nodes.parent[n] < nodes.Size() && 0 <= Grandparent(nodes, n) < nodes.Size()
      requires NodeColor(nodes, nodes.parent[n]) == Red && NodeColor(nodes, Uncle(nodes, n)) == Red
      modifies this`nodes, this`root, this`sub, this`bh
      ensures Tree(nodes, root, sub, bh) == FixedAt(Tree(old(nodes), old(root), old(sub), old(bh)), n)
      decreases Live() - Sub(sub, n), 0
    {
      ghost var t := Tree(nodes, root, sub, bh);
      RecolorThenFixed(t, n);
      var p, u, g := nodes.parent[n], Uncle(nodes, n), Grandparent(nodes, n);
      nodes := nodes.(color := nodes.color[p := Black]);
      nodes := nodes.(color := nodes.color[u := Black]);
      nodes := nodes.(color := nodes.color[g := Red]);
      assert nodes == Recolored(t.ns, p, u, g);
      bh := bh[g := bh[g] + 1];
      FixTreeAt(g);
    }

    /** Case 4.1 of fixTreeAt, n and its parent red below a black uncle: when n is an inner
        grandchild (the right child of a left child, or the mirror image), a rotation about the
        parent makes the parent an outer grandchild below n, and the repair goes on with it (m);
        otherwise it goes on with n. */
    method FixTreeAtInner(n: int) returns (m: int)
      requires InnerReady(Tree(nodes, root, sub, bh), n)
      modifies this`nodes, this`root, this`sub, this`bh
      ensures (Tree(nodes, root, sub, bh), m) == InnerRotated(Tree(old(nodes), old(root), old(sub), old(bh)), n)
    {
      var p := nodes.parent[n];
      var g := Grandparent(nodes, n);
      m := n;
      if n == nodes.right[p] && p == nodes.left[g] {
        RotateLeft(p);
        m := nodes.left[n];
      } else if n == nodes.left[p] && p == nodes.right[g] {
        RotateRight(p);
        m := nodes.right[n];
      }
    }

    /** Case 4 of fixTreeAt after 4.1: m's parent turns black, the grandparent red, and a rotation
        about the grandparent brings the parent up into its place. */
    method FixTreeAtOuter(m: int)
      requires OuterReady(Tree(nodes, root, sub, bh), m)
      modifies this`nodes, this`root, this`sub, this`bh
      ensures Tree(nodes, root, sub, bh) == OuterRotated(Tree(old(nodes), old(root), old(sub), old(bh)), m)
    {
      var p := nodes.parent[m];
      nodes := nodes.(color := nodes.color[p := Black]);
      var g := Grandparent(nodes, m);
      nodes := nodes.(color := nodes.color[g := Red]);
      if m == nodes.left[p] && p == nodes.left[g] {
        RotateRight(g);
      } else {
        RotateLeft(g);
      }
    }

    // -------------------------------------------------------------------------------------
    // Deletion
    // -------------------------------------------------------------------------------------

    /** The public delete: removes the entry under its interval as DeleteEntry does, and counts
        the call down whether or not anything was removed. A key that is not stored leaves the
        tree untouched; a key whose node holds several values only loses value from that node. */
    method Delete(key: Interval, value: Id)
      requires Valid()
      modifies this`nodes, this`root, this`sub, this`bh, this`count
      ensures Valid()
      ensures Entries() == Erased(old(Entries()), key, value)
      ensures forall i | i in old(Live()) && 0 <= i < old(nodes).Size() && old(nodes).interval[i] == key &&
                         |old(nodes).values[i]| > 1 ::
        root == old(root) && sub == old(sub) && bh == old(bh) &&
        nodes == old(nodes).(values := old(nodes).values[i := old(nodes).values[i] - {value}])
      ensures key !in old(KeysOf(nodes, Live())) ==>
        nodes == old(nodes) && root == old(root) && sub == old(sub) && bh == old(bh)
      ensures count == Int32(old(count) - 1)
    {
      DeleteEntry(key, value);
      count := Int32(count - 1);
    }

    /** The private delete: nothing happens when no node holds key; a node with several values
        only loses value; otherwise the node goes. A node with two children first takes over the
        key and values of its predecessor, the largest node of its left subtree, and the
        predecessor goes in its place (RemoveNode). */
    method DeleteEntry(key: Interval, value: Id)
      requires Valid()
      modifies this`nodes, this`root, this`sub, this`bh
      ensures Valid()
      ensures Entries() == Erased(old(Entries()), key, value)
      ensures forall i | i in old(Live()) && 0 <= i < old(nodes).Size() && old(nodes).interval[i] == key &&
                         |old(nodes).values[i]| > 1 ::
        root == old(root) && sub == old(sub) && bh == old(bh) &&
        nodes == old(nodes).(values := old(nodes).values[i := old(nodes).values[i] - {value}])
      ensures key !in old(KeysOf(nodes, Live())) ==>
        nodes == old(nodes) && root == old(root) && sub == old(sub) && bh == old(bh)
    {
      var n := LookupNode(key);
      if n == NIL {
        KeyedAbsent(nodes, Live(), key);
        return;
      }
      ErasedAt(nodes, sub, root, n, value);
      if |nodes.values[n]| > 1 {
        ValueRemoved(nodes, sub, root, n, value);
        RedBlackSameShape(nodes, nodes.(values := nodes.values[n := nodes.values[n] - {value}]), Live(), bh, NIL);
        nodes := nodes.(values := nodes.values[n := nodes.values[n] - {value}]);
        return;
      }
      NodeRemovedEntries(nodes, sub, root, n);
      assert LinkedAt(nodes, sub, root, n);
      if nodes.left[n] != NIL && nodes.right[n] != NIL {
        var pred := MaximumNode(nodes.left[n]);
        CopiedSound(nodes, sub, root, n, pred);
        CopiedEntries(nodes, Live(), n, pred);
        RedBlackSameShape(nodes, Copied(nodes, n, pred), Live(), bh, NIL);
        nodes := nodes.(interval := nodes.interval[n := nodes.interval[pred]],
                        values := nodes.values[n := nodes.values[pred]]);
        n := pred;
      } else {
        Excepted(nodes, sub, root, n);
      }
      RemoveNode(n);
    }

    /** maximumNode: from l, follow right links to the node without a right child; its key is
        the largest in l's subtree. */
    method MaximumNode(l: int) returns (m: int)
      requires Valid() && l in Live()
      ensures IsMaximumNode(nodes, sub, l, m)
    {
      m := l;
      assert LinkedAt(nodes, sub, root, l);
      while nodes.right[m] != NIL
        invariant m in Sub(sub, l) && m in Live() && 0 <= m < nodes.Size()
        invariant Sub(sub, m) <= Sub(sub, l)
        invariant forall j | j in Sub(sub, l) && j !in Sub(sub, m) && 0 <= j < nodes.Size() ::
                    Less(nodes.interval[j], nodes.interval[m])
        decreases Sub(sub, m)
      {
        assert LinkedAt(nodes, sub, root, m);
        var c := nodes.right[m];
        assert LinkedAt(nodes, sub, root, c);
        assert OrderedAt(nodes, sub, m, NIL);
        m := c;
      }
      assert LinkedAt(nodes, sub, root, m);
      assert OrderedAt(nodes, sub, m, NIL);
    }

    /** The end of the private delete, for a node d with at most one child: when d is black it
        takes its child's colour, which leaves d's side one black node short, and
        fixTreeForDeletion repairs the tree around it; a red d has no child and needs no repair.
        Then Splice takes d out. */
    method RemoveNode(d: int)
      requires Shaped(nodes, sub) && Sound(nodes, sub, root, d) && NodeColor(nodes, root) == Black
      requires RedBlack(nodes, Live(), bh, NIL)
      requires d in Live() && 0 <= d < nodes.Size() && (nodes.left[d] == NIL || nodes.right[d] == NIL)
      modifies this`nodes, this`root, this`sub, this`bh
      ensures Valid()
      ensures Entries() == EntriesOf(old(nodes), old(Live()) - {d})
    {
      if NodeColor(nodes, d) == Black {
        var child := Child(nodes, d);
        StartShort(Tree(nodes, root, sub, bh), d);
        nodes := nodes.(color := nodes.color[d := NodeColor(nodes, child)]);
        ghost var t := Tree(nodes, root, sub, bh);
        FixTreeForDeletion(d, d);
        assert Mended(t, Tree(nodes, root, sub, bh), d);
      } else {
        assert LinkedAt(nodes, sub, root, d);
        RedLeafGone(nodes, sub, root, bh, d);
      }
      Splice(d);
    }

    /** replaceNode(d, child) for a node d with at most one child, then the child turns black
        if it became the root, and the maxes from d's former parent up to the root are
        refreshed. Read with d replaced by its child, the tree was red-black already; now it is
        that tree. */
    method Splice(d: int)
      requires Shaped(nodes, sub) && Sound(nodes, sub, root, d) && NodeColor(nodes, root) == Black
      requires d in Live() && 0 <= d < nodes.Size() && (nodes.left[d] == NIL || nodes.right[d] == NIL)
      requires RedBlack(nodes, Live(), bh, d)
      modifies this`nodes, this`root, this`sub
      ensures Valid()
      ensures Entries() == EntriesOf(old(nodes), old(Live()) - {d})
    {
      var child := Child(nodes, d);
      ghost var ns1 := nodes;
      SplicedSound(nodes, sub, root, d);
      SpliceNeighbours(nodes, sub, root, d);
      SplicedRedBlack(nodes, sub, root, bh, d);
      Orphan(nodes, sub, root, d);
      ReplaceNode(d, child);
      sub := Spliced(sub, d);
      if child != NIL && nodes.parent[child] == NIL {
        RootBlackened(nodes, sub, root, bh);
        RefreshingIgnoresColor(nodes, nodes.color[child := Black], sub, root, ns1.parent[d]);
        nodes := nodes.(color := nodes.color[child := Black]);
      }
      assert NodeColor(nodes, root) == Black;
      Climb(nodes.parent[d]);
    }

    /** The last loop of the private delete: `cur.updateMax(); cur = cur.parent;` from c up to
        the root. */
    method Climb(c: int)
      requires Shaped(nodes, sub) && Refreshing(nodes, sub, root, c) && NodeColor(nodes, root) == Black
      requires RedBlack(nodes, Live(), bh, NIL)
      requires c == NIL || c in Live()
      modifies this`nodes
      ensures Valid()
      ensures nodes.interval == old(nodes.interval) && nodes.values == old(nodes.values)
    {
      var cur := c;
      while cur != NIL
        invariant Shaped(nodes, sub) && Refreshing(nodes, sub, root, cur)
        invariant cur == NIL || cur in Live()
        invariant nodes.interval == old(nodes.interval) && nodes.values == old(nodes.values)
        invariant nodes.color == old(nodes.color)
        invariant nodes.left == old(nodes.left) && nodes.right == old(nodes.right)
        decreases StalePath(sub, Live(), cur)
      {
        ClimbStep(nodes, sub, root, cur);
        assert LinkedAt(nodes, sub, root, cur);
        UpdateMax(cur);
        cur := nodes.parent[cur];
      }
      ClimbDone(nodes, sub, root);
      RedBlackSameShape(old(nodes), nodes, Live(), bh, NIL);
    }

    /** fixTreeForDeletion(n), with d the node delete is about to splice out and n's side one
        black node short: DeleteFixedAt describes the outcome, and its contract says that,
        read with d replaced by its child, it is a red-black tree with a black root, sound
        except at d, over the same nodes and entries, and with d's children in place. Case 1
        paints the root black; case 2 is FixSiblingRed; cases 3 to 6 are FixBlackSibling. */
    method FixTreeForDeletion(n: int, ghost d: int)
      requires Mendable(Tree(nodes, root, sub, bh), n, d)
      modifies this`nodes, this`root, this`sub, this`bh
      ensures Tree(nodes, root, sub, bh) == DeleteFixedAt(Tree(old(nodes), old(root), old(sub), old(bh)), n, d)
      decreases Live() - Sub(sub, n), 1
    {
      ghost var t := Tree(nodes, root, sub, bh);
      Orphan(nodes, sub, root, n);
      if nodes.parent[n] == NIL {
        nodes := nodes.(color := nodes.color[n := Black]);
        return;
      }
      LiftStep(t, n, d);
      FixSiblingRed(n);
      FixBlackSibling(n, d);
    }

    /** Cases 3 to 6 of fixTreeForDeletion, below a black sibling, as SiblingBlackFixed
        describes them. The black heights follow the colours: in cases 3 and 4 the parent loses
        the black sibling from below it. */
    method FixBlackSibling(n: int, ghost d: int)
      requires Deficit(Tree(nodes, root, sub, bh), n, d) && Framed(Tree(nodes, root, sub, bh), n, d)
      requires 0 <= nodes.parent[n] < nodes.Size() && NodeColor(nodes, Sibling(nodes, n)) == Black
      modifies this`nodes, this`root, this`sub, this`bh
      ensures Tree(nodes, root, sub, bh) == SiblingBlackFixed(Tree(old(nodes), old(root), old(sub), old(bh)), n, d)
      decreases Live() - Sub(sub, n), 0
    {
      ghost var t := Tree(nodes, root, sub, bh);
      SiblingExists(t, n, d);
      var p := nodes.parent[n];
      var s := Sibling(nodes, n);
      if NodeColor(nodes, p) == Black && NodeColor(nodes, s) == Black &&
         NodeColor(nodes, nodes.left[s]) == Black && NodeColor(nodes, nodes.right[s]) == Black {
        CarryStep(t, n, d);
        nodes := nodes.(color := nodes.color[s := Red]);
        bh := Lowered(bh, p);
        FixTreeForDeletion(p, d);
        return;
      }
      if NodeColor(nodes, p) == Red && NodeColor(nodes, s) == Black &&
         NodeColor(nodes, nodes.left[s]) == Black && NodeColor(nodes, nodes.right[s]) == Black {
        RecolorStep(t, n, d);
        nodes := nodes.(color := nodes.color[s := Red]);
        nodes := nodes.(color := nodes.color[p := Black]);
        bh := Lowered(bh, p);
        return;
      }
      NephewStep(t, n, d);
      FixNephew(n);
      FarStep(Tree(nodes, root, sub, bh), n, d);
      FixFarNephew(n);
    }

    /** Case 2 of fixTreeForDeletion: with a red sibling, the parent turns red, the sibling
        black, and a rotation about the parent brings the sibling up. */
    method FixSiblingRed(n: int)
      requires LiftReady(Tree(nodes, root, sub, bh), n)
      modifies this`nodes, this`root, this`sub, this`bh
      ensures Tree(nodes, root, sub, bh) == SiblingLifted(Tree(old(nodes), old(root), old(sub), old(bh)), n)
    {
      var p := nodes.parent[n];
      var s := Sibling(nodes, n);
      if NodeColor(nodes, s) == Red {
        nodes := nodes.(color := nodes.color[p := Red]);
        nodes := nodes.(color := nodes.color[s := Black]);
        if n == nodes.left[p] {
          RotateLeft(p);
        } else {
          RotateRight(p);
        }
      }
    }

    /** Case 5 of fixTreeForDeletion: a black sibling whose near child is red and far child
        black turns red, the near child black, and a rotation about the sibling brings the near
        child up. */
    method FixNephew(n: int)
      requires NephewReady(Tree(nodes, root, sub, bh), n) && 0 <= Sibling(nodes, n) < nodes.Size()
      modifies this`nodes, this`root, this`sub, this`bh
      ensures Tree(nodes, root, sub, bh) == NephewRotated(Tree(old(nodes), old(root), old(sub), old(bh)), n)
    {
      var p := nodes.parent[n];
      var s := Sibling(nodes, n);
      if n == nodes.left[p] && NodeColor(nodes, s) == Black &&
         NodeColor(nodes, nodes.left[s]) == Red && NodeColor(nodes, nodes.right[s]) == Black {
        nodes := nodes.(color := nodes.color[s := Red]);
        nodes := nodes.(color := nodes.color[nodes.left[s] := Black]);
        RotateRight(s);
      } else if n == nodes.right[p] && NodeColor(nodes, s) == Black &&
                NodeColor(nodes, nodes.right[s]) == Red && NodeColor(nodes, nodes.left[s]) == Black {
        nodes := nodes.(color := nodes.color[s := Red]);
        nodes := nodes.(color := nodes.color[nodes.right[s] := Black]);
        RotateLeft(s);
      }
    }

    /** Case 6 of fixTreeForDeletion: the sibling takes the parent's colour, the parent and the
        sibling's far child turn black, and a rotation about the parent brings the sibling up. */
    method FixFarNephew(n: int)
      requires FarReady(Tree(nodes, root, sub, bh), n)
      modifies this`nodes, this`root, this`sub, this`bh
      ensures Tree(nodes, root, sub, bh) == FarRotated(Tree(old(nodes), old(root), old(sub), old(bh)), n)
    {
      var p := nodes.parent[n];
      var s := Sibling(nodes, n);
      nodes := nodes.(color := nodes.color[s := NodeColor(nodes, p)]);
      nodes := nodes.(color := nodes.color[p := Black]);
      if n == nodes.left[p] {
        nodes := nodes.(color := nodes.color[nodes.right[s] := Black]);
        RotateLeft(p);
      } else {
        nodes := nodes.(color := nodes.color[nodes.left[s] := Black]);
        RotateRight(p);
      }
    }
  }
}
