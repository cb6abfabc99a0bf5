/** The max-heap index's tree of hash intervals (dep/apps/antelope/index-maxheap.c), as the
    sequence of node slots it is stored in, with the two index-stepping walks over it. */
module HeapTree {

  const NODE_LIMIT := 511
  /** Nodes whose children exist; heap_find never returns a node of the last level. */
  const INNER := 255
  const KEY_MAX := 65535

  datatype Node = Node(min: int, max: int)

  const EMPTY := Node(0, 0)

  type Nodes = s: seq<Node> | |s| == NODE_LIMIT witness seq(NODE_LIMIT, _ => EMPTY)

  predicate Present(nodes: Nodes, i: nat)
    requires i < NODE_LIMIT
  {
    nodes[i] != EMPTY
  }

  predicate Contains(n: Node, h: int) { n.min <= h <= n.max }

  function Parent(i: nat): nat
    requires 0 < i
  {
    (i - 1) / 2
  }

  // ----- the interval a slot has to hold

  function Mean(n: Node): int { n.min + (n.max - n.min) / 2 }

  /** The root covers every hash value; a left child the lower half of its parent, a right child
      the upper half. */
  function Interval(i: nat): Node {
    if i == 0 then Node(0, KEY_MAX)
    else
      var p := Interval(Parent(i));
      if i % 2 == 1 then Node(p.min, Mean(p)) else Node(Mean(p) + 1, p.max)
  }

  function Depth(i: nat): nat { if i == 0 then 0 else Depth(Parent(i)) + 1 }

  function Pow2(d: nat): nat { if d == 0 then 1 else 2 * Pow2(d - 1) }

  function Width(d: nat): nat { if d == 0 then 65536 else Width(d - 1) / 2 }

  lemma {:induction false} DepthOfSlot(i: nat)
    ensures Pow2(Depth(i)) <= i + 1
    decreases i
  {
    if i > 0 {
      DepthOfSlot(Parent(i));
    }
  }

  lemma {:induction false} PowMonotone(a: nat, b: nat)
    requires a <= b
    ensures Pow2(a) <= Pow2(b)
    decreases b
  {
    if a < b {
      PowMonotone(a, b - 1);
    }
  }

  lemma DepthBound(i: nat)
    requires i < NODE_LIMIT
    ensures Depth(i) <= 8 && (i < INNER ==> Depth(i) <= 7)
  {
    DepthOfSlot(i);
    assert Pow2(4) == 16 && Pow2(8) == 256 && Pow2(9) == 512;
    if Depth(i) >= 9 {
      PowMonotone(9, Depth(i));
    }
    if i < INNER && Depth(i) >= 8 {
      PowMonotone(8, Depth(i));
    }
  }

  lemma WidthValues(d: nat)
    requires d <= 8
    ensures 256 <= Width(d) <= 65536 && (d <= 7 ==> Width(d) % 2 == 0)
  {
    assert Width(4) == 4096;
    assert Width(8) == 256;
  }

  lemma EvenMean(n: Node, w: int)
    requires w % 2 == 0 && n.max - n.min + 1 == w > 0
    ensures Mean(n) == n.min + w / 2 - 1
  {
  }

  lemma {:induction false} IntervalShape(i: nat)
    requires i < NODE_LIMIT
    ensures var n := Interval(i);
            0 <= n.min <= n.max <= KEY_MAX && n.max - n.min + 1 == Width(Depth(i)) >= 256 && n != EMPTY
    decreases i
  {
    DepthBound(i);
    WidthValues(Depth(i));
    if i > 0 {
      var p := Parent(i);
      IntervalShape(p);
      DepthBound(p);
      WidthValues(Depth(p));
      EvenMean(Interval(p), Width(Depth(p)));
      hide Mean, Pow2, Parent;
      assert Depth(i) == Depth(p) + 1;
      assert Width(Depth(i)) == Width(Depth(p)) / 2;
    }
  }

  /** The children's intervals are disjoint and together make up the parent's. */
  lemma ChildrenPartition(i: nat, h: int)
    requires i < INNER
    ensures Contains(Interval(i), h) <==> Contains(Interval(2 * i + 1), h) || Contains(Interval(2 * i + 2), h)
    ensures !(Contains(Interval(2 * i + 1), h) && Contains(Interval(2 * i + 2), h))
  {
    IntervalShape(i);
    assert Parent(2 * i + 1) == i && Parent(2 * i + 2) == i;
  }

  /** The left child has the lower half of the parent's interval, the right child the upper half. */
  lemma ChildrenHalve(i: nat)
    requires i < INNER
    ensures var n, l, r := Interval(i), Interval(2 * i + 1), Interval(2 * i + 2);
            l.min == n.min && r.min == l.max + 1 && r.max == n.max && l.max - l.min == r.max - r.min
  {
    IntervalShape(i);
    DepthBound(i);
    WidthValues(Depth(i));
    EvenMean(Interval(i), Width(Depth(i)));
    assert Parent(2 * i + 1) == i && Parent(2 * i + 2) == i;
    hide Width, Depth;
  }

  // ----- the tree invariant

  /** The children of a node are both there or both missing, and only under a node that is there. */
  predicate Family(nodes: Nodes, i: nat)
    requires i < INNER
  {
    && (Present(nodes, 2 * i + 1) <==> Present(nodes, 2 * i + 2))
    && (Present(nodes, 2 * i + 1) ==> Present(nodes, i))
  }

  predicate Placed(nodes: Nodes) {
    forall i :: 0 <= i < NODE_LIMIT ==> nodes[i] == EMPTY || nodes[i] == Interval(i)
  }

  /** Every slot is empty or holds exactly the interval that belongs there. */
  predicate Tree(nodes: Nodes) {
    Placed(nodes) && Present(nodes, 0) && forall i :: 0 <= i < INNER ==> Family(nodes, i)
  }

  // ----- heap_insert's walk

  function InsertWalk(nodes: Nodes, i: nat, min: int, max: int): (r: int)
    ensures -1 <= r < NODE_LIMIT
    decreases NODE_LIMIT - i
  {
    if i >= NODE_LIMIT then -1
    else if nodes[i] == EMPTY then i
    else if nodes[i].min <= min && max <= nodes[i].max then InsertWalk(nodes, 2 * i + 1, min, max)
    else InsertWalk(nodes, i + 1, min, max)
  }

  /** All ancestors of slot t, and the left siblings of t and of its ancestors, are there. */
  predicate Reachable(nodes: Nodes, t: nat)
    requires t < NODE_LIMIT
  {
    t == 0 || (Present(nodes, Parent(t)) && (t % 2 == 0 ==> Present(nodes, t - 1)) && Reachable(nodes, Parent(t)))
  }

  ghost predicate Within(min: int, max: int, n: Node) { n.min <= min <= max <= n.max }

  /** From a node that is there the walk goes to the child the interval belongs under. */
  lemma InsertWalkStep(nodes: Nodes, t: nat, min: int, max: int)
    requires 0 < t < NODE_LIMIT && Placed(nodes) && Within(min, max, Interval(t))
    requires Present(nodes, Parent(t)) && (t % 2 == 0 ==> Present(nodes, t - 1))
    ensures InsertWalk(nodes, Parent(t), min, max) == InsertWalk(nodes, t, min, max)
    ensures Within(min, max, Interval(Parent(t)))
  {
    hide Interval;
    var p := Parent(t);
    ChildrenPartition(p, min);
    ChildrenPartition(p, max);
    assert nodes[p] == Interval(p);
    assert InsertWalk(nodes, p, min, max) == InsertWalk(nodes, 2 * p + 1, min, max);
    if t % 2 == 0 {
      assert t == 2 * p + 2 && nodes[2 * p + 1] == Interval(2 * p + 1);
      assert !(nodes[2 * p + 1].min <= min && max <= nodes[2 * p + 1].max);
    } else {
      assert t == 2 * p + 1;
    }
  }

  /** "Descend or step right" never goes astray: a walk for an interval that belongs under slot t
      passes through slot t. */
  lemma {:induction false} InsertWalkReaches(nodes: Nodes, t: nat, min: int, max: int)
    requires t < NODE_LIMIT && Placed(nodes) && Reachable(nodes, t) && Within(min, max, Interval(t))
    ensures InsertWalk(nodes, 0, min, max) == InsertWalk(nodes, t, min, max)
    decreases t
  {
    hide InsertWalk;
    if t > 0 {
      InsertWalkStep(nodes, t, min, max);
      InsertWalkReaches(nodes, Parent(t), min, max);
    }
  }

  // ----- heap_find's walk

  function FindWalk(nodes: Nodes, i: nat, h: int): (r: int)
    ensures -1 <= r < INNER
    decreases NODE_LIMIT - i
  {
    if i >= NODE_LIMIT || nodes[i] == EMPTY then -1
    else if Contains(nodes[i], h) then (if 2 * i + 1 >= NODE_LIMIT then -1 else i)
    else FindWalk(nodes, i + 1, h)
  }

  /** The child of i whose half contains h. */
  function ChildFor(i: nat, h: int): nat {
    if Contains(Interval(2 * i + 1), h) then 2 * i + 1 else 2 * i + 2
  }

  /** The walk that starts at a node's first child returns the child responsible for h, or nothing
      when that child is missing or on the last level. */
  lemma FindWalkFromChild(nodes: Nodes, i: nat, h: int)
    requires Tree(nodes) && i < INNER && Contains(Interval(i), h)
    ensures var c := ChildFor(i, h);
            FindWalk(nodes, 2 * i + 1, h) == if Present(nodes, c) && c < INNER then c else -1
  {
    assert Family(nodes, i);
    ChildrenPartition(i, h);
  }

  lemma FindWalkFromRoot(nodes: Nodes, h: int)
    requires Tree(nodes) && 0 <= h <= KEY_MAX
    ensures FindWalk(nodes, 0, h) == 0
  {
    assert Interval(0) == Node(0, KEY_MAX);
  }

  /** The nodes responsible for h, from i downwards. */
  function Path(nodes: Nodes, i: nat, h: int): (p: seq<nat>)
    requires i < INNER
    ensures |p| > 0 && p[0] == i && forall k :: 0 <= k < |p| ==> p[k] < INNER
    decreases INNER - i
  {
    var c := ChildFor(i, h);
    if c < INNER && Present(nodes, c) then [i] + Path(nodes, c, h) else [i]
  }

  function Deepest(nodes: Nodes, i: nat, h: int): (d: nat)
    requires i < INNER
    ensures d < INNER
  {
    var p := Path(nodes, i, h);
    p[|p| - 1]
  }

  /** Every inner node that is there and whose interval contains h lies on the path of h. */
  lemma {:induction false} PathComplete(nodes: Nodes, i: nat, h: int)
    requires Tree(nodes) && i < INNER && Present(nodes, i) && Contains(Interval(i), h)
    ensures Depth(i) < |Path(nodes, 0, h)| && Path(nodes, i, h) == Path(nodes, 0, h)[Depth(i)..]
            && i in Path(nodes, 0, h)
    decreases i
  {
    hide *;
    DepthStep(i);
    if i > 0 {
      var p := Parent(i);
      PathDown(nodes, i, h);
      PathComplete(nodes, p, h);
      DropOne(Path(nodes, 0, h), Depth(p), p, Path(nodes, i, h));
    }
    assert Path(nodes, i, h)[0] == i;
  }

  lemma DepthStep(i: nat)
    ensures i == 0 ==> Depth(i) == 0
    ensures i > 0 ==> Depth(i) == Depth(Parent(i)) + 1 && Parent(i) < i
  {
  }

  /** A node that is there continues the path of its parent. */
  lemma PathDown(nodes: Nodes, i: nat, h: int)
    requires Tree(nodes) && 0 < i < INNER && Present(nodes, i) && Contains(Interval(i), h)
    ensures var p := Parent(i);
            && p < INNER && Present(nodes, p) && Contains(Interval(p), h)
            && Path(nodes, p, h) == [p] + Path(nodes, i, h)
  {
    hide Interval, Path, Depth;
    var p := Parent(i);
    assert Family(nodes, p);
    ChildrenPartition(p, h);
    PathUnfold(nodes, p, h);
  }

  lemma PathUnfold(nodes: Nodes, i: nat, h: int)
    requires i < INNER
    ensures var c := ChildFor(i, h);
            Path(nodes, i, h) == if c < INNER && Present(nodes, c) then [i] + Path(nodes, c, h) else [i]
  {
    hide ChildFor;
  }

  lemma DropOne(path: seq<nat>, d: nat, p: nat, rest: seq<nat>)
    requires d < |path| && path[d..] == [p] + rest && rest != []
    ensures d + 1 < |path| && path[d + 1..] == rest && rest[0] in path
  {
    assert path[d..][1..] == rest;
    assert path[d + 1] == rest[0];
  }

  /** On the path everything is there, contains h, and is reachable by heap_insert. */
  lemma {:induction false} PathSound(nodes: Nodes, i: nat, h: int, k: nat)
    requires Tree(nodes) && i < INNER && Present(nodes, i) && Contains(Interval(i), h) && k < |Path(nodes, i, h)|
    ensures var n := Path(nodes, i, h)[k];
            Present(nodes, n) && Contains(Interval(n), h)
    decreases k
  {
    if k > 0 {
      ChildrenPartition(i, h);
      PathSound(nodes, ChildFor(i, h), h, k - 1);
    }
  }

  /** Successive heap_find calls walk along the path. */
  lemma {:induction false} NextOnPath(nodes: Nodes, i: nat, h: int, k: nat)
    requires Tree(nodes) && i < INNER && Present(nodes, i) && Contains(Interval(i), h) && k < |Path(nodes, i, h)|
    ensures var p := Path(nodes, i, h);
            FindWalk(nodes, 2 * p[k] + 1, h) == if k + 1 < |p| then p[k + 1] else -1
    decreases k
  {
    hide *;
    FindWalkFromChild(nodes, i, h);
    PathUnfold(nodes, i, h);
    ChildOnPath(nodes, i, h);
    if k > 0 {
      NextOnPath(nodes, ChildFor(i, h), h, k - 1);
    }
  }

  lemma ChildOnPath(nodes: Nodes, i: nat, h: int)
    requires i < INNER && Contains(Interval(i), h)
    ensures ChildFor(i, h) < NODE_LIMIT && Contains(Interval(ChildFor(i, h)), h)
  {
    hide Interval;
    ChildrenPartition(i, h);
  }

  lemma NextOnRootPath(nodes: Nodes, h: int, k: nat)
    requires Tree(nodes) && 0 <= h <= KEY_MAX && k < |Path(nodes, 0, h)|
    ensures var p := Path(nodes, 0, h);
            FindWalk(nodes, 2 * p[k] + 1, h) == if k + 1 < |p| then p[k + 1] else -1
  {
    hide Path, FindWalk;
    assert Interval(0) == Node(0, KEY_MAX);
    NextOnPath(nodes, 0, h, k);
  }

  lemma {:induction false} PathIncreasing(nodes: Nodes, i: nat, h: int, j: nat, k: nat)
    requires i < INNER && j < k < |Path(nodes, i, h)|
    ensures Path(nodes, i, h)[j] < Path(nodes, i, h)[k]
    decreases k
  {
    var rest := Path(nodes, ChildFor(i, h), h);
    if j > 0 {
      PathIncreasing(nodes, ChildFor(i, h), h, j - 1, k - 1);
    } else if k > 1 {
      PathIncreasing(nodes, ChildFor(i, h), h, 0, k - 1);
    }
  }

  /** get_next's array of NODE_DEPTH entries is never filled to the end. */
  lemma {:induction false} PathLength(nodes: Nodes, i: nat, h: int)
    requires i < INNER
    ensures |Path(nodes, i, h)| <= 8 - Depth(i)
    decreases INNER - i
  {
    DepthBound(i);
    var c := ChildFor(i, h);
    if c < INNER && Present(nodes, c) {
      assert Depth(c) == Depth(i) + 1;
      PathLength(nodes, c, h);
    }
  }

  lemma {:induction false} PresentIsReachable(nodes: Nodes, i: nat)
    requires Tree(nodes) && i < NODE_LIMIT && Present(nodes, i)
    ensures Reachable(nodes, i)
    decreases i
  {
    if i > 0 {
      assert Family(nodes, Parent(i));
      assert i == 2 * Parent(i) + 1 || i == 2 * Parent(i) + 2;
      PresentIsReachable(nodes, Parent(i));
    }
  }

  // ----- bucket_split on the node slots

  /** What bucket_split leaves behind, and whether it reports success. */
  function Split(nodes: Nodes, b: nat): Nodes
    requires b < INNER
  {
    if Present(nodes, 2 * b + 1) then nodes
    else nodes[2 * b + 1 := Interval(2 * b + 1)][2 * b + 2 := Interval(2 * b + 2)]
  }

  lemma SplitKeepsTree(nodes: Nodes, b: nat)
    requires Tree(nodes) && b < INNER && Present(nodes, b)
    ensures Tree(Split(nodes, b))
  {
    hide Interval;
    var after := Split(nodes, b);
    assert Family(nodes, b);
    IntervalShape(2 * b + 1);
    IntervalShape(2 * b + 2);
    IntervalShape(0);
    forall i | 0 <= i < INNER ensures Family(after, i) {
      assert Family(nodes, i);
      if !Present(nodes, 2 * b + 1) && (i == 2 * b + 1 || i == 2 * b + 2) {
        assert !Present(nodes, i);
      }
    }
  }

  lemma {:induction false} ReachableMonotone(nodes: Nodes, more: Nodes, t: nat)
    requires t < NODE_LIMIT && Reachable(nodes, t)
    requires forall i :: 0 <= i < NODE_LIMIT && Present(nodes, i) ==> Present(more, i)
    ensures Reachable(more, t)
    decreases t
  {
    if t > 0 {
      ReachableMonotone(nodes, more, Parent(t));
    }
  }

  lemma InsertWalkEnds(nodes: Nodes, i: nat, n: Node)
    requires i < NODE_LIMIT
    ensures !Present(nodes, i) ==> InsertWalk(nodes, i, n.min, n.max) == i
    ensures nodes[i] == n != EMPTY && i >= INNER ==> InsertWalk(nodes, i, n.min, n.max) == -1
  {
  }

  lemma LeftChildReachable(nodes: Nodes, b: nat)
    requires b < INNER && Reachable(nodes, b) && Present(nodes, b)
    ensures Reachable(nodes, 2 * b + 1)
  {
    assert Parent(2 * b + 1) == b;
  }

  lemma LeftWalk(nodes: Nodes, b: nat)
    requires Tree(nodes) && b < INNER && Present(nodes, b)
    ensures var l := Interval(2 * b + 1);
            InsertWalk(nodes, 0, l.min, l.max) == InsertWalk(nodes, 2 * b + 1, l.min, l.max)
  {
    hide Interval, InsertWalk, Reachable, Family;
    PresentIsReachable(nodes, b);
    LeftChildReachable(nodes, b);
    IntervalShape(2 * b + 1);
    InsertWalkReaches(nodes, 2 * b + 1, Interval(2 * b + 1).min, Interval(2 * b + 1).max);
  }

  /** With the left half in its place the right child can be reached. */
  lemma RightReachable(nodes: Nodes, b: nat)
    requires Tree(nodes) && b < INNER && Present(nodes, b) && !Present(nodes, 2 * b + 1)
    ensures var more := nodes[2 * b + 1 := Interval(2 * b + 1)];
            Placed(more) && Reachable(more, 2 * b + 2) && !Present(more, 2 * b + 2)
  {
    hide Interval;
    var more := nodes[2 * b + 1 := Interval(2 * b + 1)];
    IntervalShape(2 * b + 1);
    PresentIsReachable(nodes, b);
    ReachableMonotone(nodes, more, b);
    assert Family(nodes, b);
    assert Parent(2 * b + 2) == b;
  }

  lemma RightWalk(nodes: Nodes, b: nat)
    requires Tree(nodes) && b < INNER && Present(nodes, b) && !Present(nodes, 2 * b + 1)
    ensures var l, r := Interval(2 * b + 1), Interval(2 * b + 2);
            InsertWalk(nodes[2 * b + 1 := l], 0, r.min, r.max) == 2 * b + 2
  {
    hide Interval, InsertWalk, Reachable, Tree, Placed, Present;
    var r := Interval(2 * b + 2);
    IntervalShape(2 * b + 2);
    RightReachable(nodes, b);
    var more := nodes[2 * b + 1 := Interval(2 * b + 1)];
    InsertWalkReaches(more, 2 * b + 2, r.min, r.max);
    InsertWalkEnds(more, 2 * b + 2, r);
  }

  /** Where bucket_split's two heap_insert calls put the halves of node b: at its two children, or
      nowhere if those are already there (which happens to full buckets of the last inner level). */
  lemma SplitWalks(nodes: Nodes, b: nat)
    requires Tree(nodes) && b < INNER && Present(nodes, b) && (Present(nodes, 2 * b + 1) ==> b >= 127)
    ensures var l, r := Interval(2 * b + 1), Interval(2 * b + 2);
            if Present(nodes, 2 * b + 1) then InsertWalk(nodes, 0, l.min, l.max) == -1
            else
              && InsertWalk(nodes, 0, l.min, l.max) == 2 * b + 1
              && InsertWalk(nodes[2 * b + 1 := l], 0, r.min, r.max) == 2 * b + 2
  {
    LeftWalk(nodes, b);
    IntervalShape(2 * b + 1);
    InsertWalkEnds(nodes, 2 * b + 1, Interval(2 * b + 1));
    if !Present(nodes, 2 * b + 1) {
      RightWalk(nodes, b);
    }
  }
}
