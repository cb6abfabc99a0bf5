/** The max-heap index of dep/apps/antelope/index-maxheap.c: append-only buckets hung on the tree
    of hash intervals, proved to agree with a multimap from keys to values. */
module MaxHeap {
  import opened Buckets
  import opened HeapSearch
  import opened HeapTree
  import opened Lvm
  import opened Wrappers

  class Iterator {
    var minValue: long
    var maxValue: long
    var nextItemNo: nat

    constructor (min: long, max: long)
      ensures minValue == min && maxValue == max && nextItemNo == 0
    {
      minValue, maxValue, nextItemNo := min, max, 0;
    }
  }

  /** get_next's static iteration cache. */
  class SearchCache {
    var owner: Iterator?
    var position: int
    var foundItems: nat
    var start: nat
    var visited: seq<nat>

    constructor ()
      ensures owner == null
    {
      owner, position, foundItems, start, visited := null, -1, 0, 0, [];
    }
  }

  class Heap {
    const transformKey: key -> key
    const nodes: array<Node>
    const buckets: array<Pair>
    const nextFreeSlot: array<nat>
    /** The pairs of every bucket in the order they were appended. */
    ghost var contents: seq<seq<Pair>>

    ghost predicate Valid()
      reads this, nodes, buckets, nextFreeSlot
    {
      && nodes.Length == NODE_LIMIT && nextFreeSlot.Length == NODE_LIMIT && buckets.Length == NODE_LIMIT * BUCKET_SIZE
      && Tree(nodes[..]) && |contents| == NODE_LIMIT
      && Written(buckets[..], nextFreeSlot[..], contents)
      && Homed(nodes[..], contents, transformKey)
    }

    /** create, on zeroed files. */
    constructor (transformKey: key -> key)
      ensures Valid() && Stored(contents) == multiset{} && this.transformKey == transformKey
      ensures fresh(nodes) && fresh(buckets) && fresh(nextFreeSlot)
    {
      this.transformKey := transformKey;
      nodes := new Node[NODE_LIMIT](_ => EMPTY);
      buckets := new Pair[NODE_LIMIT * BUCKET_SIZE](_ => Pair(0, 0));
      nextFreeSlot := new nat[NODE_LIMIT](_ => 0);
      contents := seq(NODE_LIMIT, _ => []);
      new;
      var root := HeapInsert(0, KEY_MAX);
      assert root == 0 && nodes[..][0] == Interval(0);
      NothingStored(contents);
      forall i | 0 <= i < INNER ensures Family(nodes[..], i) {
      }
    }

    method HeapInsert(min: int, max: int) returns (r: int)
      requires nodes.Length == NODE_LIMIT && min <= max
      modifies nodes
      ensures r == InsertWalk(old(nodes[..]), 0, min, max)
      ensures nodes[..] == if r < 0 then old(nodes[..]) else old(nodes[..])[r := Node(min, max)]
    {
      var i := 0;
      while i < NODE_LIMIT
        invariant nodes[..] == old(nodes[..])
        invariant InsertWalk(nodes[..], 0, min, max) == InsertWalk(nodes[..], i, min, max)
      {
        if nodes[i] == EMPTY {
          nodes[i] := Node(min, max);
          return i;
        } else if nodes[i].min <= min && max <= nodes[i].max {
          i := 2 * i + 1;
        } else {
          i := i + 1;
        }
      }
      return -1;
    }

    /** heap_find; next is the new value of *iterator, which from holds. */
    method HeapFind(key: key, from: nat) returns (r: int, next: nat)
      requires nodes.Length == NODE_LIMIT
      ensures r == FindWalk(nodes[..], from, transformKey(key))
      ensures next == if r < 0 then from else 2 * r + 1
    {
      var h := transformKey(key);
      var i := from;
      while i < NODE_LIMIT
        invariant FindWalk(nodes[..], from, h) == FindWalk(nodes[..], i, h)
      {
        if nodes[i] == EMPTY {
          break;
        } else if Contains(nodes[i], h) {
          if 2 * i + 1 >= NODE_LIMIT {
            break;
          }
          return i, 2 * i + 1;
        } else {
          i := i + 1;
        }
      }
      return -1, from;
    }

    method BucketAppend(b: nat, pair: Pair) returns (ok: bool)
      requires Valid() && b < INNER && Present(nodes[..], b) && Contains(Interval(b), transformKey(pair.key))
      modifies buckets, nextFreeSlot, `contents
      ensures Valid() && ok == (|old(contents)[b]| < BUCKET_SIZE)
      ensures contents == if ok then old(contents)[b := old(contents)[b] + [pair]] else old(contents)
    {
      assert BucketWritten(buckets[..], nextFreeSlot[..], contents, b);
      if nextFreeSlot[b] >= BUCKET_SIZE {
        return false;
      }
      AppendWritten(buckets[..], nextFreeSlot[..], contents, b, pair);
      AppendHomed(nodes[..], contents, transformKey, b, pair);
      buckets[b * BUCKET_SIZE + nextFreeSlot[b]] := pair;
      nextFreeSlot[b] := nextFreeSlot[b] + 1;
      contents := contents[b := contents[b] + [pair]];
      return true;
    }

    method BucketSplit(b: nat) returns (ok: bool)
      requires nodes.Length == NODE_LIMIT && Tree(nodes[..])
      requires b < INNER && Present(nodes[..], b) && (Present(nodes[..], 2 * b + 1) ==> b >= 127)
      modifies nodes
      ensures nodes[..] == Split(old(nodes[..]), b)
      ensures ok == !Present(old(nodes[..]), 2 * b + 1)
    {
      hide *;
      ghost var l, r := Interval(2 * b + 1), Interval(2 * b + 2);
      ghost var before := nodes[..];
      SplitWalks(before, b);
      Halves(before, b);
      SplitIs(before, b);
      var node := nodes[b];
      var mean := node.min + (node.max - node.min) / 2;
      var small := HeapInsert(node.min, mean);
      if small < 0 {
        return false;
      }
      var large := HeapInsert(mean + 1, node.max);
      return true;
    }

    /** insert_item's first loop: the deepest node responsible for the key, and the iterator that
        points at its first child. */
    method FindBucket(key: key) returns (b: nat, next: nat)
      requires nodes.Length == NODE_LIMIT && Tree(nodes[..])
      ensures b == Deepest(nodes[..], 0, transformKey(key)) && next == 2 * b + 1
      ensures Present(nodes[..], b) && Contains(Interval(b), transformKey(key))
      ensures Path(nodes[..], b, transformKey(key)) == [b]
    {
      var h := transformKey(key);
      ghost var tree := nodes[..];
      FindWalkFromRoot(tree, h);
      hide FindWalk, Path, Deepest, Tree, Interval;
      var last := -1;
      next := 0;
      while true
        invariant -1 <= last < INNER && next == if last < 0 then 0 else 2 * last + 1
        invariant last >= 0 ==>
                    && Present(tree, last) && Contains(Interval(last), h)
                    && Deepest(tree, 0, h) == Deepest(tree, last, h)
        decreases INNER - last
      {
        if last >= 0 {
          FindWalkFromChild(tree, last, h);
          ChildrenPartition(last, h);
          PathStep(tree, last, h);
        }
        var r;
        r, next := HeapFind(key, next);
        if r < 0 {
          break;
        }
        last := r;
      }
      b := last;
    }

    /** insert_item. It fails exactly when the bucket responsible for the key is full and already on
        the last usable level; a failure stores nothing and loses nothing. */
    method InsertItem(key: key, value: key) returns (ok: bool)
      requires Valid()
      modifies this, nodes, buckets, nextFreeSlot
      ensures Valid()
      ensures var d := Deepest(old(nodes[..]), 0, transformKey(key));
              ok == !(|old(contents)[d]| == BUCKET_SIZE && d >= 127)
      ensures Stored(contents) == Stored(old(contents)) + if ok then multiset{Pair(key, value)} else multiset{}
      ensures var d := Deepest(old(nodes[..]), 0, transformKey(key));
              var full := |old(contents)[d]| == BUCKET_SIZE;
              nodes[..] == if full then Split(old(nodes[..]), d) else old(nodes[..])
      ensures var d := Deepest(old(nodes[..]), 0, transformKey(key));
              var b := if |old(contents)[d]| == BUCKET_SIZE then ChildFor(d, transformKey(key)) else d;
              contents == if ok then old(contents)[b := old(contents)[b] + [Pair(key, value)]] else old(contents)
    {
      var b, next := FindBucket(key);
      var pair := Pair(key, value);
      assert BucketWritten(buckets[..], nextFreeSlot[..], contents, b);
      if nextFreeSlot[b] == BUCKET_SIZE {
        PrepareSplit(nodes[..], contents, transformKey, b, key);
        ok := BucketSplit(b);
        if !ok {
          return;
        }
        var c;
        c, next := HeapFind(key, next);
        if c < 0 {
          return false;
        }
        b := c;
      }
      StoredAppend(contents, b, pair);
      ok := BucketAppend(b, pair);
    }

    method VisitPath(key: key) returns (visited: seq<nat>)
      requires nodes.Length == NODE_LIMIT && Tree(nodes[..])
      ensures visited == Path(nodes[..], 0, transformKey(key))
    {
      hide *;
      Limits();
      var h := transformKey(key);
      ghost var tree := nodes[..];
      ghost var path := Path(tree, 0, h);
      RootFacts(tree, h);
      visited := [];
      var next := 0;
      for i := 0 to 9
        invariant i <= |path| && visited == path[..i] && next == if i == 0 then 0 else 2 * path[i - 1] + 1
      {
        if i > 0 {
          NextOnRootPath(tree, h, i - 1);
        }
        var r;
        r, next := HeapFind(key, next);
        if r < 0 {
          return;
        }
        visited := visited + [r];
      }
    }

    ghost function Abstract(): (index: Index)
      requires Valid()
      reads this, nodes, buckets, nextFreeSlot
      ensures index.Valid() && index.contents == contents
    {
      Index(nodes[..], contents, transformKey)
    }

    /** The cache belongs to this iterator's search for its current minimum. */
    ghost predicate Searching(it: Iterator, cache: SearchCache)
      requires Valid()
      reads this, nodes, buckets, nextFreeSlot, it, cache
    {
      && cache.owner == it && cache.visited == Abstract().PathOf(KeyOf(it.minValue))
      && -1 <= cache.position < |cache.visited| && cache.foundItems <= it.nextItemNo
    }

    /** All an iterator needs: if get_next goes on with its search, the cache is in order. */
    ghost predicate Ready(it: Iterator, cache: SearchCache)
      requires Valid()
      reads this, nodes, buckets, nextFreeSlot, it, cache
    {
      cache.owner == it && it.nextItemNo > 0 ==> Searching(it, cache)
    }

    /** The pairs of the current key that are still to come, according to the cache. */
    ghost function Cached(it: Iterator, cache: SearchCache): seq<Position>
      requires Valid() && Searching(it, cache)
      reads this, nodes, buckets, nextFreeSlot, it, cache
    {
      Scan(cache.visited, contents, cache.position, cache.start, cache.start, it.nextItemNo - cache.foundItems,
           KeyOf(it.minValue))
    }

    /** The pairs of the current key that are still to come. A search that another iterator has
        interrupted starts again and passes over as many pairs as it had returned. */
    ghost function Current(it: Iterator, cache: SearchCache): seq<Position>
      requires Valid() && Ready(it, cache)
      reads this, nodes, buckets, nextFreeSlot, it, cache
    {
      var k := KeyOf(it.minValue);
      var path := Abstract().PathOf(k);
      if cache.owner != it || it.nextItemNo == 0 then Scan(path, contents, |path| - 1, 0, 0, it.nextItemNo, k)
      else Cached(it, cache)
    }

    /** What the iterator will return until its end. */
    ghost function Left(it: Iterator, cache: SearchCache, unique: bool): seq<Position>
      requires Valid() && Ready(it, cache)
      reads this, nodes, buckets, nextFreeSlot, it, cache
    {
      Remaining(Abstract(), Current(it, cache), it.minValue, it.maxValue, unique, it.nextItemNo)
    }

    /** A fresh iterator has the results of its whole range before it. */
    lemma FreshLeft(it: Iterator, cache: SearchCache, unique: bool)
      requires Valid() && it.nextItemNo == 0
      ensures Ready(it, cache) && Left(it, cache, unique) == Abstract().Results(it.minValue, it.maxValue, unique)
    {
      hide Scan, Path, Tree, Written, Homed, KeyOf, Successor, Span;
      ResultsUnfold(Abstract(), it.minValue, it.maxValue, unique);
    }

    lemma StoredAt(it: Iterator, cache: SearchCache, value: key)
      requires AtPosition(it, cache, value)
      ensures Pair(KeyOf(it.minValue), value) in Stored(contents)
    {
      var at := LastPosition(cache);
      assert contents[at.bucket][at.slot] == Pair(KeyOf(it.minValue), value);
      InBucketIsStored(contents, at.bucket, Pair(KeyOf(it.minValue), value));
    }

    /** An equality search for a key: what is left is what is found under the key. */
    lemma FirstOfKey(it: Iterator, cache: SearchCache, k: key)
      requires Valid() && it.nextItemNo == 0 && it.minValue == it.maxValue == k
      ensures Ready(it, cache) && KeyOf(it.minValue) == k
      ensures Left(it, cache, false) == [] ==> forall p :: p in Stored(contents) ==> p.key != k
    {
      hide Scan, Path, Tree, Written, Homed, KeyOf, Successor, Span, Stored, HasKey, Hit, Index.HitsOf, Index.Results;
      KeyOfKey(k);
      FreshLeft(it, cache, false);
      NoHitsIff(Abstract(), k);
      HasKeyIsStored(contents, k);
      ResultsUnfold(Abstract(), k, k, false);
    }

    lemma ValueMore(it: Iterator, cache: SearchCache, found: seq<Position>, n: nat, values: seq<key>, value: key)
      requires n < |found| && ValuesAt(contents, found[..n], values)
      requires AtPosition(it, cache, value) && found[n] == LastPosition(cache)
      ensures ValuesAt(contents, found[..n + 1], values + [value])
    {
      hide KeyOf;
      assert found[..n + 1] == found[..n] + [found[n]];
    }

    lemma WrittenAt(b: nat)
      requires Valid() && b < NODE_LIMIT
      ensures nextFreeSlot[b] == |contents[b]| <= BUCKET_SIZE
      ensures forall j :: 0 <= j < |contents[b]| ==> buckets[b * BUCKET_SIZE + j] == contents[b][j]
    {
      assert BucketWritten(buckets[..], nextFreeSlot[..], contents, b);
    }

    /** Look through one bucket for the pair with number it.nextItemNo among those of the key. */
    method SearchBucket(b: nat, key: key, it: Iterator, cache: SearchCache) returns (r: Option<key>)
      requires Valid() && Searching(it, cache) && 0 <= cache.position
      requires b == cache.visited[cache.position] && key == KeyOf(it.minValue)
      modifies it`nextItemNo, cache`foundItems, cache`start
      ensures Searching(it, cache)
      ensures r.Some? ==>
                && it.nextItemNo == old(it.nextItemNo) + 1 && cache.start > 0
                && old(Cached(it, cache)) == [Position(b, cache.start - 1)] + Cached(it, cache)
                && HitAt(contents, Position(b, cache.start - 1), key) && contents[b][cache.start - 1].value == r.value
      ensures r.None? ==>
                && it.nextItemNo == old(it.nextItemNo)
                && old(Cached(it, cache)) ==
                   Scan(cache.visited, contents, cache.position - 1, cache.start, cache.start,
                        it.nextItemNo - cache.foundItems, key)
    {
      hide Tree, Written, Homed, Path, KeyOf, Stored, Heap.Abstract;
      WrittenAt(b);
      ghost var path, p, was := cache.visited, cache.position, Cached(it, cache);
      var i := cache.start;
      while i < nextFreeSlot[b]
        invariant cache.start == old(cache.start) && it.nextItemNo == old(it.nextItemNo)
                  && cache.foundItems <= it.nextItemNo
        invariant was == Scan(path, contents, p, i, cache.start, it.nextItemNo - cache.foundItems, key)
      {
        if buckets[b * BUCKET_SIZE + i].key == key {
          cache.foundItems := cache.foundItems + 1;
          if cache.foundItems - 1 == it.nextItemNo {
            it.nextItemNo := it.nextItemNo + 1;
            cache.start := i + 1;
            return Some(buckets[b * BUCKET_SIZE + i].value);
          }
        }
        i := i + 1;
      }
      return None;
    }

    /** get_next's loop over the buckets on the path, from the bottom up. */
    method Search(it: Iterator, cache: SearchCache) returns (r: Option<key>)
      requires Valid() && Searching(it, cache)
      modifies it`nextItemNo, cache
      ensures Searching(it, cache)
      ensures r.Some? ==>
                && it.nextItemNo == old(it.nextItemNo) + 1 && AtPosition(it, cache, r.value)
                && old(Cached(it, cache)) == [LastPosition(cache)] + Cached(it, cache)
      ensures r.None? ==> it.nextItemNo == old(it.nextItemNo) && old(Cached(it, cache)) == []
    {
      hide Tree, Written, Homed, Path, Hit, KeyOf, BucketWritten, Stored;
      var key := KeyOf(it.minValue);
      ghost var was := Cached(it, cache);
      while cache.position >= 0
        invariant Searching(it, cache) && it.nextItemNo == old(it.nextItemNo) && was == Cached(it, cache)
        decreases cache.position
      {
        var b := cache.visited[cache.position];
        r := SearchBucket(b, key, it, cache);
        if r.Some? {
          return;
        }
        cache.position := cache.position - 1;
      }
      return None;
    }

    /** The cache stands behind a pair of the current key that has the given value. */
    ghost predicate AtPosition(it: Iterator, cache: SearchCache, value: key)
      reads this, it, cache
    {
      && 0 <= cache.position < |cache.visited| && cache.start > 0
      && HitAt(contents, LastPosition(cache), KeyOf(it.minValue))
      && contents[LastPosition(cache).bucket][cache.start - 1].value == value
    }

    /** The part of get_next that looks up the path, unless the search before is continued. */
    method Begin(it: Iterator, cache: SearchCache)
      requires Valid() && Ready(it, cache)
      modifies cache
      ensures Searching(it, cache) && Cached(it, cache) == old(Current(it, cache))
    {
      hide Tree, Written, Homed, Path, Hit, KeyOf, BucketWritten, Stored, Scan;
      if cache.owner != it || it.nextItemNo == 0 {
        var visited := VisitPath(KeyOf(it.minValue));
        cache.visited, cache.position := visited, |visited| - 1;
        cache.foundItems, cache.start, cache.owner := 0, 0, it;
      }
    }

    /** get_next: the next of the pairs that are left, or nothing when none is. The minimum moves on
        over keys under which nothing is found, and wraps round. */
    method GetNext(it: Iterator, cache: SearchCache, ghost unique: bool) returns (r: Option<key>)
      requires Valid() && Ready(it, cache) && !(unique && it.nextItemNo == 1 && it.minValue == it.maxValue)
      modifies it, cache
      ensures it.maxValue == old(it.maxValue) && Ready(it, cache)
      ensures old(it.minValue) == it.maxValue ==> it.minValue == it.maxValue
      ensures r.Some? ==>
                && it.nextItemNo > 0 && AtPosition(it, cache, r.value)
                && old(Left(it, cache, unique)) == [LastPosition(cache)] + Left(it, cache, unique)
      ensures r.None? ==> old(Left(it, cache, unique)) == [] && it.minValue == it.maxValue
      decreases Span(it.minValue, it.maxValue)
    {
      hide KeyOf, Scan, Successor, Span, Index.Results, Index.HitsOf, Index.PathOf, Heap.Valid, HitAt, Remaining;
      SpanStep(it.minValue, it.maxValue);
      ghost var index, min, max, n := Abstract(), it.minValue, it.maxValue, it.nextItemNo;
      RemainingNone(index, min, max, unique, n);
      Begin(it, cache);
      r := Search(it, cache);
      if r.Some? {
        RemainingStep(index, LastPosition(cache), Cached(it, cache), min, max, unique, n);
        return;
      }
      if it.minValue == it.maxValue {
        return None;
      }
      it.nextItemNo := 0;
      it.minValue := Successor(it.minValue);
      FreshLeft(it, cache, unique);
      r := GetNext(it, cache, unique);
    }

    /** index_get_next. */
    method IndexGetNext(it: Iterator, cache: SearchCache, unique: bool) returns (r: Option<key>)
      requires Valid() && Ready(it, cache)
      modifies it, cache
      ensures it.maxValue == old(it.maxValue) && Ready(it, cache)
      ensures r.Some? ==>
                && it.nextItemNo > 0 && AtPosition(it, cache, r.value)
                && old(Left(it, cache, unique)) == [LastPosition(cache)] + Left(it, cache, unique)
      ensures r.None? ==> old(Left(it, cache, unique)) == [] && it.minValue == it.maxValue
    {
      if unique && it.nextItemNo == 1 && it.minValue == it.maxValue {
        return None;
      }
      r := GetNext(it, cache, unique);
    }
  }

  /** What is left of a search when current is left of the pairs of its key, of which n have been returned. */
  ghost function Remaining(index: Index, current: seq<Position>, min: long, max: long, unique: bool,
                           n: nat): seq<Position>
    requires index.Valid()
  {
    if min != max then current + index.Results(Successor(min), max, unique)
    else if unique && n == 1 then []
    else AtMostOne(current, unique && n == 0)
  }

  lemma RemainingStep(index: Index, at: Position, rest: seq<Position>, min: long, max: long, unique: bool, n: nat)
    requires index.Valid() && !(unique && n == 1 && min == max)
    ensures Remaining(index, [at] + rest, min, max, unique, n) == [at] + Remaining(index, rest, min, max, unique, n + 1)
  {
    hide Index.Valid, Index.Results, Successor;
  }

  lemma RemainingNone(index: Index, min: long, max: long, unique: bool, n: nat)
    requires index.Valid()
    ensures Remaining(index, [], min, max, unique, n) == if min == max then []
            else index.Results(Successor(min), max, unique)
  {
    hide Index.Valid, Index.Results, Successor;
  }

  /** The position of the pair returned last. */
  ghost function LastPosition(cache: SearchCache): Position
    requires 0 <= cache.position < |cache.visited| && cache.start > 0
    reads cache
  {
    Position(cache.visited[cache.position], cache.start - 1)
  }

  lemma Limits()
    ensures INNER == 255 && NODE_LIMIT == 511
  {
  }

  lemma RootFacts(nodes: Nodes, h: key)
    requires Tree(nodes)
    ensures INNER == 255 && 0 <= h <= KEY_MAX && FindWalk(nodes, 0, h) == 0 && 0 < |Path(nodes, 0, h)| <= 8
  {
    hide FindWalk, Path, Tree;
    FindWalkFromRoot(nodes, h);
    PathLength(nodes, 0, h);
  }

  lemma PathStep(nodes: Nodes, i: nat, h: int)
    requires i < INNER
    ensures var c := ChildFor(i, h);
            if c < INNER && Present(nodes, c) then
              Deepest(nodes, i, h) == Deepest(nodes, c, h) && Path(nodes, i, h) == [i] + Path(nodes, c, h)
            else Path(nodes, i, h) == [i] && Deepest(nodes, i, h) == i
  {
  }

  /** What insert_item relies on when the deepest bucket of a key is full. */
  lemma PrepareSplit(nodes: Nodes, contents: seq<seq<Pair>>, transformKey: key -> key, b: nat, key: key)
    requires |contents| == NODE_LIMIT && Tree(nodes) && Homed(nodes, contents, transformKey)
    requires b < INNER && Present(nodes, b) && Contains(Interval(b), transformKey(key))
    requires Path(nodes, b, transformKey(key)) == [b] && |contents[b]| == BUCKET_SIZE
    ensures Present(nodes, 2 * b + 1) ==> b >= 127
    ensures Tree(Split(nodes, b)) && Homed(Split(nodes, b), contents, transformKey)
    ensures var c := ChildFor(b, transformKey(key));
            && FindWalk(Split(nodes, b), 2 * b + 1, transformKey(key)) == (if b >= 127 then -1 else c)
            && Contains(Interval(c), transformKey(key)) && Present(Split(nodes, b), c)
            && (b < 127 ==> contents[c] == [])
  {
    var h := transformKey(key);
    PathStep(nodes, b, h);
    assert Family(nodes, b);
    SplitKeepsTree(nodes, b);
    SplitHomed(nodes, contents, transformKey, b);
    FindWalkFromChild(Split(nodes, b), b, h);
    ChildrenPartition(b, h);
    IntervalShape(2 * b + 1);
    IntervalShape(2 * b + 2);
    assert BucketHomed(nodes, contents, transformKey, ChildFor(b, h));
  }

  lemma Halves(nodes: Nodes, b: nat)
    requires Tree(nodes) && b < INNER && Present(nodes, b)
    ensures var n := nodes[b];
            var mean := n.min + (n.max - n.min) / 2;
            && Interval(2 * b + 1) == Node(n.min, mean) && Interval(2 * b + 2) == Node(mean + 1, n.max)
            && n.min <= mean && mean + 1 <= n.max
  {
    hide InsertWalk, Family;
    IntervalShape(2 * b + 1);
    IntervalShape(2 * b + 2);
    assert nodes[b] == Interval(b);
    ChildIntervals(b);
    hide Interval;
  }

  lemma ChildIntervals(b: nat)
    ensures Interval(2 * b + 1) == Node(Interval(b).min, Mean(Interval(b)))
    ensures Interval(2 * b + 2) == Node(Mean(Interval(b)) + 1, Interval(b).max)
  {
    hide Mean;
    assert Parent(2 * b + 1) == b == Parent(2 * b + 2);
  }

  lemma SplitIs(nodes: Nodes, b: nat)
    requires b < INNER
    ensures NODE_LIMIT == 511 && INNER == 255 && 2 * b + 2 < |nodes|
    ensures Split(nodes, b) ==
            if Present(nodes, 2 * b + 1) then nodes
            else nodes[2 * b + 1 := Interval(2 * b + 1)][2 * b + 2 := Interval(2 * b + 2)]
  {
    hide Interval;
  }

  lemma {:induction false} NothingStored(contents: seq<seq<Pair>>)
    requires forall i :: 0 <= i < |contents| ==> contents[i] == []
    ensures Stored(contents) == multiset{}
    decreases |contents|
  {
    if contents != [] {
      NothingStored(contents[1..]);
    }
  }

  // ----- whole runs: the index agrees with the multimap of what was inserted

  function Successful(items: seq<Pair>, ok: seq<bool>): multiset<Pair>
    requires |items| == |ok|
  {
    if items == [] then multiset{}
    else Successful(items[..|items| - 1], ok[..|ok| - 1]) + if ok[|ok| - 1] then multiset{items[|items| - 1]}
      else multiset{}
  }

  lemma SuccessfulStep(items: seq<Pair>, n: nat, ok: seq<bool>, success: bool)
    requires n < |items| && |ok| == n
    ensures Successful(items[..n + 1], ok + [success]) ==
            Successful(items[..n], ok) + if success then multiset{items[n]} else multiset{}
  {
    assert items[..n + 1][..n] == items[..n] && (ok + [success])[..n] == ok;
  }

  /** Any run of insertions stores exactly the pairs whose insertion reported success. */
  method InsertAll(transformKey: key -> key, items: seq<Pair>) returns (heap: Heap, ok: seq<bool>)
    ensures fresh(heap) && heap.Valid() && heap.transformKey == transformKey && |ok| == |items|
    ensures fresh(heap.nodes) && fresh(heap.buckets) && fresh(heap.nextFreeSlot)
    ensures Stored(heap.contents) == Successful(items, ok)
  {
    hide Split, ChildFor, Tree, Homed, Written, Deepest, Path;
    heap := new Heap(transformKey);
    ok := [];
    for n := 0 to |items|
      invariant heap.Valid() && |ok| == n && Stored(heap.contents) == Successful(items[..n], ok)
    {
      hide Stored, Successful;
      var success := heap.InsertItem(items[n].key, items[n].value);
      SuccessfulStep(items, n, ok, success);
      ok := ok + [success];
    }
    assert items[..|items|] == items;
  }

  // ----- searches, followed to their end

  /** Every result is the value of a pair stored under some key, one for each position. */
  ghost predicate ValuesAt(contents: seq<seq<Pair>>, found: seq<Position>, values: seq<key>) {
    && |values| == |found|
    && forall n :: 0 <= n < |found| ==>
         && found[n].bucket < |contents| && found[n].slot < |contents[found[n].bucket]|
         && contents[found[n].bucket][found[n].slot].value == values[n]
  }

  lemma NoValues(contents: seq<seq<Pair>>)
    ensures ValuesAt(contents, [], [])
  {
  }

  lemma KeyOfKey(k: key)
    ensures KeyOf(k) == k
  {
  }

  /** An equality search: a fresh iterator's first result is a value inserted under the key, and
      there is none exactly when nothing was inserted under it. */
  method FindFirst(heap: Heap, key: key) returns (r: Option<key>)
    requires heap.Valid()
    ensures r.Some? ==> Pair(key, r.value) in Stored(heap.contents)
    ensures r.None? ==> forall p :: p in Stored(heap.contents) ==> p.key != key
  {
    hide Heap.Valid, Heap.Ready, Heap.Left, Heap.AtPosition, KeyOf, Stored, Span;
    var it := new Iterator(key, key);
    var cache := new SearchCache();
    heap.FirstOfKey(it, cache, key);
    r := heap.GetNext(it, cache, false);
    if r.Some? {
      heap.StoredAt(it, cache, r.value);
    }
  }

  /** A search followed to its end returns the values of exactly the results of its range, in order. */
  method Drain(heap: Heap, min: long, max: long, unique: bool) returns (values: seq<key>)
    requires heap.Valid()
    ensures ValuesAt(heap.contents, heap.Abstract().Results(min, max, unique), values)
  {
    hide Heap.Valid, Heap.Ready, Heap.Left, Index.Results, Heap.AtPosition, ValuesAt, KeyOf, Hit, Stored;
    var it := new Iterator(min, max);
    var cache := new SearchCache();
    heap.FreshLeft(it, cache, unique);
    values := [];
    ghost var results := heap.Abstract().Results(min, max, unique);
    ghost var n := 0;
    assert results[..0] == [] && ValuesAt(heap.contents, [], []) by { NoValues(heap.contents); }
    while true
      invariant heap.Valid() && heap.Ready(it, cache)
      invariant n <= |results| && heap.Left(it, cache, unique) == results[n..]
      invariant ValuesAt(heap.contents, results[..n], values)
      decreases |results| - n
    {
      var r := heap.IndexGetNext(it, cache, unique);
      if r.None? {
        break;
      }
      assert results[n] == results[n..][0] == LastPosition(cache);
      heap.ValueMore(it, cache, results, n, values, r.value);
      values, n := values + [r.value], n + 1;
    }
    assert results[..n] == results;
  }
}
