/** What repeated calls of get_next (dep/apps/antelope/index-maxheap.c) return, as positions in the
    buckets: in which order the pairs of a key are found, and when some of them are missed. */
module HeapSearch {
  import opened Buckets
  import opened HeapTree
  import opened Lvm

  /** The pair in the given slot of the given bucket. */
  datatype Position = Position(bucket: nat, slot: nat)

  ghost predicate HitAt(contents: seq<seq<Pair>>, at: Position, k: key) { Hit(contents, at.bucket, at.slot, k) }

  ghost predicate OnDisk(path: seq<nat>, contents: seq<seq<Pair>>) {
    forall n :: 0 <= n < |path| ==> path[n] < |contents|
  }

  /** Where the two loops of get_next find the pairs of key k, from slot j of bucket path[p] on. start
      is cache.start, the slot at which every further bucket is entered: it is moved behind the pair
      found last and never taken back. The first skip pairs are only counted. */
  ghost function Scan(path: seq<nat>, contents: seq<seq<Pair>>, p: int, j: nat, start: nat, skip: nat,
                      k: key): seq<Position>
    requires p < |path| && OnDisk(path, contents)
    decreases p, if p < 0 then 0 else |contents[path[p]]| - j
  {
    if p < 0 then []
    else if j >= |contents[path[p]]| then Scan(path, contents, p - 1, start, start, skip, k)
    else if contents[path[p]][j].key != k then Scan(path, contents, p, j + 1, start, skip, k)
    else if skip > 0 then Scan(path, contents, p, j + 1, start, skip - 1, k)
    else [Position(path[p], j)] + Scan(path, contents, p, j + 1, j + 1, 0, k)
  }

  // ----- the pairs of one key

  /** A pair of key k in slot s of bucket path[q] lies ahead of slot j of bucket path[p]. */
  ghost predicate Ahead(path: seq<nat>, contents: seq<seq<Pair>>, p: int, j: nat, q: nat, s: nat, k: key)
    requires p < |path|
  {
    q <= p && (q == p ==> j <= s) && Hit(contents, path[q], s, k)
  }

  ghost predicate FoundAhead(path: seq<nat>, contents: seq<seq<Pair>>, p: int, j: nat, at: Position, k: key)
    requires p < |path|
  {
    exists q: nat :: Ahead(path, contents, p, j, q, at.slot, k) && at.bucket == path[q]
  }

  /** The slots of the pairs found increase from pair to pair, even from bucket to bucket. */
  ghost predicate Ascending(found: seq<Position>) {
    forall m, n :: 0 <= m < n < |found| ==> found[m].slot < found[n].slot
  }

  lemma {:induction false} ScanAscends(path: seq<nat>, contents: seq<seq<Pair>>, p: int, j: nat, start: nat, k: key)
    requires p < |path| && OnDisk(path, contents) && start <= j
    ensures var found := Scan(path, contents, p, j, start, 0, k);
            Ascending(found) && forall at :: at in found ==> start <= at.slot && FoundAhead(path, contents, p, j, at, k)
    decreases p, if p < 0 then 0 else |contents[path[p]]| - j
  {
    var found := Scan(path, contents, p, j, start, 0, k);
    if p < 0 {
    } else if j >= |contents[path[p]]| {
      ScanAscends(path, contents, p - 1, start, start, k);
      forall at | at in found ensures FoundAhead(path, contents, p, j, at, k) {
        var q: nat :| Ahead(path, contents, p - 1, start, q, at.slot, k) && at.bucket == path[q];
        assert Ahead(path, contents, p, j, q, at.slot, k);
      }
    } else {
      var hit := contents[path[p]][j].key == k;
      var rest := Scan(path, contents, p, j + 1, if hit then j + 1 else start, 0, k);
      ScanAscends(path, contents, p, j + 1, if hit then j + 1 else start, k);
      forall at | at in rest ensures FoundAhead(path, contents, p, j, at, k) {
        var q: nat :| Ahead(path, contents, p, j + 1, q, at.slot, k) && at.bucket == path[q];
        assert Ahead(path, contents, p, j, q, at.slot, k);
      }
      if hit {
        assert Ahead(path, contents, p, j, p, j, k);
        assert found == [Position(path[p], j)] + rest;
      }
    }
  }

  type Region = iset<(nat, nat)>

  /** The pairs ahead, each as an index into the path and a slot. */
  ghost function Rest(path: seq<nat>, contents: seq<seq<Pair>>, p: int, j: nat, k: key): Region
    requires p < |path|
  {
    iset q: nat, s: nat | Ahead(path, contents, p, j, q, s, k) :: (q, s)
  }

  ghost predicate AllFound(path: seq<nat>, rest: Region, found: seq<Position>) {
    forall q: nat, s: nat :: (q, s) in rest && q < |path| ==> Position(path[q], s) in found
  }

  /** Of two pairs the one nearer the root is in the later slot; below bucket path[p] no slot is
      before start. */
  ghost predicate InStep(rest: Region, p: int, start: nat) {
    && (forall q: nat, s: nat :: (q, s) in rest && q < p ==> start <= s)
    && forall q: nat, s: nat, q': nat, s': nat :: (q, s) in rest && (q', s') in rest && q' < q ==> s < s'
  }

  ghost predicate Injective(path: seq<nat>) { forall m, n :: 0 <= m < n < |path| ==> path[m] != path[n] }

  /** The scan finds all pairs ahead of it exactly when they are in step. */
  lemma {:induction false} AllFoundIff(path: seq<nat>, contents: seq<seq<Pair>>, p: int, j: nat, start: nat, k: key)
    requires p < |path| && OnDisk(path, contents) && Injective(path) && start <= j
    ensures var rest := Rest(path, contents, p, j, k);
            AllFound(path, rest, Scan(path, contents, p, j, start, 0, k)) <==> InStep(rest, p, start)
    decreases p, if p < 0 then 0 else |contents[path[p]]| - j
  {
    if p < 0 {
      assert Rest(path, contents, p, j, k) == iset{};
    } else {
      var rest := Rest(path, contents, p, j, k);
      if j >= |contents[path[p]]| {
        AllFoundIff(path, contents, p - 1, start, start, k);
        ScanAscends(path, contents, p - 1, start, start, k);
        var inner := Rest(path, contents, p - 1, start, k);
        RestOfBucket(path, contents, p, j, start, k);
        BucketDone(path, rest, inner, p, start, Scan(path, contents, p - 1, start, start, 0, k));
      } else if contents[path[p]][j].key != k {
        AllFoundIff(path, contents, p, j + 1, start, k);
        assert rest == Rest(path, contents, p, j + 1, k);
      } else {
        AllFoundIff(path, contents, p, j + 1, j + 1, k);
        var inner := Rest(path, contents, p, j + 1, k);
        assert rest == inner + iset{(p, j)};
        HitPassed(path, inner, p, j, start, Scan(path, contents, p, j + 1, j + 1, 0, k));
      }
    }
  }

  lemma RestOfBucket(path: seq<nat>, contents: seq<seq<Pair>>, p: nat, j: nat, start: nat, k: key)
    requires p < |path| && OnDisk(path, contents) && j >= |contents[path[p]]|
    ensures var rest, inner := Rest(path, contents, p, j, k), Rest(path, contents, p - 1, start, k);
            && (forall q: nat, s: nat :: (q, s) in rest ==> q < p)
            && (forall q: nat, s: nat :: (q, s) in inner <==> (q, s) in rest && (q == p - 1 ==> start <= s))
  {
  }

  lemma BucketDone(path: seq<nat>, rest: Region, inner: Region, p: nat, start: nat, found: seq<Position>)
    requires p < |path| && forall q: nat, s: nat :: (q, s) in rest ==> q < p
    requires forall q: nat, s: nat :: (q, s) in inner <==> (q, s) in rest && (q == p - 1 ==> start <= s)
    requires AllFound(path, inner, found) <==> InStep(inner, p - 1, start)
    requires forall at :: at in found ==> start <= at.slot
    ensures AllFound(path, rest, found) <==> InStep(rest, p, start)
  {
    if AllFound(path, rest, found) || InStep(rest, p, start) {
      forall q: nat, s: nat | (q, s) in rest ensures start <= s {
        assert AllFound(path, rest, found) ==> Position(path[q], s) in found;
      }
      forall at ensures at in rest <==> at in inner {
        assert at == (at.0, at.1);
      }
      assert rest == inner;
    }
  }

  lemma HitPassed(path: seq<nat>, inner: Region, p: nat, j: nat, start: nat, found: seq<Position>)
    requires p < |path| && Injective(path) && start <= j
    requires forall q: nat, s: nat :: (q, s) in inner ==> q <= p && (q == p ==> j < s)
    ensures var rest := inner + iset{(p, j)};
            && (AllFound(path, rest, [Position(path[p], j)] + found) <==> AllFound(path, inner, found))
            && (InStep(rest, p, start) <==> InStep(inner, p, j + 1))
  {
    var rest := inner + iset{(p, j)};
    if AllFound(path, rest, [Position(path[p], j)] + found) {
      forall q: nat, s: nat | (q, s) in inner && q < |path| ensures Position(path[q], s) in found {
        assert (q, s) in rest;
      }
    }
    if InStep(rest, p, start) {
      forall q: nat, s: nat | (q, s) in inner && q < p ensures j + 1 <= s {
        assert (q, s) in rest && (p, j) in rest;
      }
      assert forall q: nat, s: nat :: (q, s) in inner ==> (q, s) in rest;
    }
  }

  /** A scan that finds nothing has only passed over pairs in slots before start. */
  lemma {:induction false} NothingFound(path: seq<nat>, contents: seq<seq<Pair>>, p: int, j: nat, start: nat, k: key)
    requires p < |path| && OnDisk(path, contents) && start <= j && Scan(path, contents, p, j, start, 0, k) == []
    ensures forall q: nat, s: nat :: Ahead(path, contents, p, j, q, s, k) ==> s < start
    decreases p, if p < 0 then 0 else |contents[path[p]]| - j
  {
    if p < 0 {
    } else if j >= |contents[path[p]]| {
      NothingFound(path, contents, p - 1, start, start, k);
      forall q: nat, s: nat | Ahead(path, contents, p, j, q, s, k) ensures s < start {
        assert s >= start ==> Ahead(path, contents, p - 1, start, q, s, k);
      }
    } else {
      NothingFound(path, contents, p, j + 1, start, k);
      forall q: nat, s: nat | Ahead(path, contents, p, j, q, s, k) ensures s < start {
        assert Ahead(path, contents, p, j + 1, q, s, k);
      }
    }
  }

  // ----- a whole search

  /** Each step of an iterator increments its minimum, which wraps round. */
  function Successor(v: long): long { Wrap(v + 1) }

  /** max - min in unsigned long arithmetic: the number of increments from min to max. */
  function Span(min: long, max: long): nat { (max - min) % 0x1_0000_0000 }

  lemma SpanStep(min: long, max: long)
    ensures Span(min, max) == 0 <==> min == max
    ensures min != max ==> Span(Successor(min), max) == Span(min, max) - 1
  {
  }

  /** How many increments from v on the key k is reached first. */
  function Offset(k: key, v: long): (n: nat)
    ensures n < 65536
  {
    (k - v) % 65536
  }

  /** The key is that of one of the values from min on, up to max. */
  predicate InKeyRange(k: key, min: long, max: long) { Offset(k, min) <= Span(min, max) }

  lemma ModUnique(x: int, q: int, r: int)
    requires x == 65536 * q + r && 0 <= r < 65536
    ensures x % 65536 == r
  {
  }

  lemma OffsetStep(k: key, v: long)
    ensures Offset(k, v) == 0 <==> k == KeyOf(v)
    ensures Offset(k, Successor(v)) == if k == KeyOf(v) then 65535 else Offset(k, v) - 1
  {
    var q, r := (k - v) / 65536, (k - v) % 65536;
    ModUnique(v, v / 65536, KeyOf(v));
    assert k - KeyOf(v) == 65536 * (q + v / 65536) + r;
    var wrap := if v == LONG_MAX then 65536 else 0;
    assert Successor(v) == v + 1 - 65536 * wrap;
    if r == 0 {
      ModUnique(k - Successor(v), q + wrap - 1, 65535);
    } else {
      ModUnique(k - Successor(v), q + wrap, r - 1);
    }
  }

  lemma KeyRangeStep(k: key, min: long, max: long)
    requires Span(min, max) < 65536
    ensures min == max ==> (InKeyRange(k, min, max) <==> k == KeyOf(max))
    ensures min != max ==> (InKeyRange(k, min, max) <==> k == KeyOf(min) || InKeyRange(k, Successor(min), max))
    ensures min != max ==> !InKeyRange(KeyOf(min), Successor(min), max)
  {
    hide Span, Offset, Successor, KeyOf;
    SpanStep(min, max);
    OffsetStep(k, min);
    OffsetStep(KeyOf(min), min);
  }

  /** The value is reached from min on, before or after the minimum wraps round, and not behind max. */
  predicate Between(v: long, min: long, max: long) { if min <= max then min <= v <= max else v >= min || v <= max }

  /** The keys looked up from min to max are those of the values between them. */
  lemma KeyRangeIff(k: key, min: long, max: long)
    ensures InKeyRange(k, min, max) <==> exists v: long :: Between(v, min, max) && KeyOf(v) == k
  {
    hide Offset, KeyOf, Span;
    SpanOfRange(min, max);
    if InKeyRange(k, min, max) {
      var x := min + Offset(k, min);
      OffsetReaches(k, min);
      SameKey(x);
      var v: long := if x <= LONG_MAX then x else x - 0x1_0000_0000;
      assert Between(v, min, max) && KeyOf(v) == k;
    }
    forall v: long | Between(v, min, max) && KeyOf(v) == k ensures InKeyRange(k, min, max) {
      SameKey(v + 0x1_0000_0000);
      OffsetIsLeast(k, min, if v >= min then v else v + 0x1_0000_0000);
    }
  }

  lemma SpanOfRange(min: long, max: long)
    ensures Span(min, max) == if min <= max then max - min else max - min + 0x1_0000_0000
  {
  }

  lemma SameKey(x: int)
    ensures KeyOf(x - 0x1_0000_0000) == KeyOf(x)
  {
    ModUnique(x - 0x1_0000_0000, x / 65536 - 65536, x % 65536);
  }

  lemma OffsetReaches(k: key, min: long)
    ensures KeyOf(min + Offset(k, min)) == k
  {
    var q := (k - min) / 65536;
    assert min + Offset(k, min) == 65536 * (-q) + k;
    ModUnique(min + Offset(k, min), -q, k);
  }

  lemma OffsetIsLeast(k: key, min: long, u: int)
    requires min <= u && KeyOf(u) == k
    ensures Offset(k, min) <= u - min
  {
    var q := (u - min) / 65536;
    assert k - min == 65536 * (q - u / 65536) + (u - min) % 65536;
    ModUnique(k - min, q - u / 65536, (u - min) % 65536);
  }

  /** What get_next reads: the nodes, the buckets, and the hash function. */
  datatype Index = Index(nodes: Nodes, contents: seq<seq<Pair>>, transformKey: key -> key) {

    ghost predicate Valid() { |contents| == NODE_LIMIT && Tree(nodes) && Homed(nodes, contents, transformKey) }

    ghost function PathOf(k: key): seq<nat> { Path(nodes, 0, transformKey(k)) }

    /** The pairs of one key, in the order a fresh search finds them. */
    ghost function HitsOf(k: key): seq<Position>
      requires Valid()
    {
      Scan(PathOf(k), contents, |PathOf(k)| - 1, 0, 0, 0, k)
    }

    /** The results of an iterator over min and max that is followed to its end. On an attribute with
        unique values index_get_next stops after one pair of the last key. */
    ghost function Results(min: long, max: long, unique: bool): seq<Position>
      requires Valid()
      decreases Span(min, max)
    {
      SpanStep(min, max);
      if min == max then AtMostOne(HitsOf(KeyOf(max)), unique)
      else HitsOf(KeyOf(min)) + Results(Successor(min), max, unique)
    }

    /** Of two pairs of the key in different buckets the one nearer the root is in the later slot. */
    ghost predicate Readable(k: key) {
      forall i: nat, s: nat, i': nat, s': nat :: Hit(contents, i, s, k) && Hit(contents, i', s', k) && i' < i ==> s < s'
    }

    /** All pairs of the key are read, although only one may be. */
    ghost predicate Answers(k: key, single: bool) { if single then UniqueKey(contents, k) else Readable(k) }
  }

  ghost function AtMostOne(found: seq<Position>, unique: bool): seq<Position> {
    if unique && |found| > 1 then found[..1] else found
  }

  lemma PathInjective(index: Index, k: key)
    requires index.Valid()
    ensures OnDisk(index.PathOf(k), index.contents) && Injective(index.PathOf(k))
  {
    var path := index.PathOf(k);
    forall m, n | 0 <= m < n < |path| ensures path[m] != path[n] {
      PathIncreasing(index.nodes, 0, index.transformKey(k), m, n);
    }
  }

  /** What is found under a key are pairs of that key, each once. */
  lemma HitsSound(index: Index, k: key)
    requires index.Valid()
    ensures Ascending(index.HitsOf(k)) && forall at :: at in index.HitsOf(k) ==> HitAt(index.contents, at, k)
  {
    PathInjective(index, k);
    ScanAscends(index.PathOf(k), index.contents, |index.PathOf(k)| - 1, 0, 0, k);
  }

  /** Nothing is found under a key exactly when no pair of that key is stored. */
  lemma NoHitsIff(index: Index, k: key)
    requires index.Valid()
    ensures index.HitsOf(k) == [] <==> !HasKey(index.contents, k)
  {
    HitsSound(index, k);
    if index.HitsOf(k) == [] {
      var path := index.PathOf(k);
      NothingFound(path, index.contents, |path| - 1, 0, 0, k);
      forall i: nat, s: nat | Hit(index.contents, i, s, k) ensures false {
        HitOnPath(index.nodes, index.contents, index.transformKey, i, s, k);
        var q :| 0 <= q < |path| && path[q] == i;
        assert Ahead(path, index.contents, |path| - 1, 0, q, s, k);
      }
    } else {
      assert index.HitsOf(k)[0] in index.HitsOf(k);
    }
  }

  /** All pairs of a key are found exactly when the key is readable. */
  lemma HitsCompleteIff(index: Index, k: key)
    requires index.Valid()
    ensures (forall at :: HitAt(index.contents, at, k) ==> at in index.HitsOf(k)) <==> index.Readable(k)
  {
    var path, contents, found := index.PathOf(k), index.contents, index.HitsOf(k);
    var rest := Rest(path, contents, |path| - 1, 0, k);
    PathInjective(index, k);
    AllFoundIff(path, contents, |path| - 1, 0, 0, k);
    FoundOnPath(index, k);
    ReadableOnPath(index, k);
  }

  lemma FoundOnPath(index: Index, k: key)
    requires index.Valid()
    ensures var path := index.PathOf(k);
            (forall at :: HitAt(index.contents, at, k) ==> at in index.HitsOf(k)) <==>
            AllFound(path, Rest(path, index.contents, |path| - 1, 0, k), index.HitsOf(k))
  {
    var path, found := index.PathOf(k), index.HitsOf(k);
    var rest := Rest(path, index.contents, |path| - 1, 0, k);
    hide Scan;
    if AllFound(path, rest, found) {
      forall at | HitAt(index.contents, at, k) ensures at in found {
        HitOnPath(index.nodes, index.contents, index.transformKey, at.bucket, at.slot, k);
        var q: nat :| q < |path| && path[q] == at.bucket;
        assert (q, at.slot) in rest && at == Position(path[q], at.slot);
      }
    }
    if forall at :: HitAt(index.contents, at, k) ==> at in found {
      forall q: nat, s: nat | (q, s) in rest && q < |path| ensures Position(path[q], s) in found {
        assert HitAt(index.contents, Position(path[q], s), k);
      }
    }
  }

  lemma ReadableOnPath(index: Index, k: key)
    requires index.Valid()
    ensures var path := index.PathOf(k);
            index.Readable(k) <==> InStep(Rest(path, index.contents, |path| - 1, 0, k), |path| - 1, 0)
  {
    hide Path, Tree, Homed, Scan;
    var path := index.PathOf(k);
    var rest := Rest(path, index.contents, |path| - 1, 0, k);
    if index.Readable(k) {
      forall q: nat, s: nat, q': nat, s': nat | (q, s) in rest && (q', s') in rest && q' < q ensures s < s' {
        PathIncreasing(index.nodes, 0, index.transformKey(k), q', q);
      }
    }
    if InStep(rest, |path| - 1, 0) {
      forall i: nat, s: nat, i': nat, s': nat | Hit(index.contents, i, s, k) && Hit(index.contents, i', s', k) && i' < i
        ensures s < s'
      {
        var q := RestHas(index, k, i, s);
        var q' := RestHas(index, k, i', s');
        if q < q' {
          PathIncreasing(index.nodes, 0, index.transformKey(k), q, q');
        }
      }
    }
  }

  /** A hit lies ahead of a search that begins at the end of the path. */
  lemma RestHas(index: Index, k: key, i: nat, s: nat) returns (q: nat)
    requires index.Valid() && Hit(index.contents, i, s, k)
    ensures var path := index.PathOf(k);
            q < |path| && path[q] == i && (q, s) in Rest(path, index.contents, |path| - 1, 0, k)
  {
    hide Path, Tree, Homed, Scan;
    HitOnPath(index.nodes, index.contents, index.transformKey, i, s, k);
    var path := index.PathOf(k);
    q :| q < |path| && path[q] == i;
  }

  // ----- what a search over a range of keys misses

  /** A pair whose key lies in the range is stored there. */
  ghost predicate Wanted(contents: seq<seq<Pair>>, at: Position, min: long, max: long) {
    && at.bucket < |contents| && at.slot < |contents[at.bucket]|
    && InKeyRange(contents[at.bucket][at.slot].key, min, max)
  }

  ghost predicate Distinct(found: seq<Position>) { forall m, n :: 0 <= m < n < |found| ==> found[m] != found[n] }

  lemma WantedStep(contents: seq<seq<Pair>>, at: Position, min: long, max: long)
    requires Span(min, max) < 65536
    ensures min == max ==> (Wanted(contents, at, min, max) <==> HitAt(contents, at, KeyOf(max)))
    ensures min != max ==>
              && (Wanted(contents, at, min, max) <==>
                 HitAt(contents, at, KeyOf(min)) || Wanted(contents, at, Successor(min), max))
              && !(HitAt(contents, at, KeyOf(min)) && Wanted(contents, at, Successor(min), max))
  {
    hide InKeyRange, Successor, Span, KeyOf;
    if at.bucket < |contents| && at.slot < |contents[at.bucket]| {
      KeyRangeStep(contents[at.bucket][at.slot].key, min, max);
    }
  }

  lemma ResultsUnfold(index: Index, min: long, max: long, unique: bool)
    requires index.Valid()
    ensures min == max ==> index.Results(min, max, unique) == AtMostOne(index.HitsOf(KeyOf(max)), unique)
    ensures min != max ==>
              index.Results(min, max, unique) == index.HitsOf(KeyOf(min)) + index.Results(Successor(min), max, unique)
  {
  }

  lemma DistinctConcat(a: seq<Position>, b: seq<Position>)
    requires Ascending(a) && Distinct(b) && forall at :: at in b ==> at !in a
    ensures Distinct(a + b)
  {
    forall m, n | 0 <= m < n < |a + b| ensures (a + b)[m] != (a + b)[n] {
      if m < |a| <= n {
        assert a[m] in a && b[n - |a|] in b;
      }
    }
  }

  /** A search returns pairs whose keys lie in its range, each once. */
  lemma {:induction false} ResultsSound(index: Index, min: long, max: long, unique: bool)
    requires index.Valid() && Span(min, max) < 65536
    ensures Distinct(index.Results(min, max, unique))
    ensures forall at :: at in index.Results(min, max, unique) ==> Wanted(index.contents, at, min, max)
    decreases Span(min, max)
  {
    hide Span, Successor, Index.HitsOf, Index.Valid, Index.Results, KeyOf, Wanted, HitAt;
    SpanStep(min, max);
    HitsSound(index, KeyOf(min));
    ResultsUnfold(index, min, max, unique);
    forall at ensures at in index.HitsOf(KeyOf(min)) ==> Wanted(index.contents, at, min, max) {
      WantedStep(index.contents, at, min, max);
    }
    if min != max {
      var rest := index.Results(Successor(min), max, unique);
      ResultsSound(index, Successor(min), max, unique);
      forall at | at in rest ensures Wanted(index.contents, at, min, max) && at !in index.HitsOf(KeyOf(min)) {
        WantedStep(index.contents, at, min, max);
      }
      DistinctConcat(index.HitsOf(KeyOf(min)), rest);
    }
  }

  ghost predicate AllWanted(index: Index, min: long, max: long, found: seq<Position>) {
    forall at :: Wanted(index.contents, at, min, max) ==> at in found
  }

  ghost predicate AllHits(index: Index, k: key, found: seq<Position>) {
    forall at :: HitAt(index.contents, at, k) ==> at in found
  }

  /** Every key of the range can be read completely, and the last one is there at most once if only
      one of its pairs is asked for. */
  ghost predicate Searchable(index: Index, min: long, max: long, unique: bool) {
    forall k :: InKeyRange(k, min, max) ==> index.Answers(k, unique && k == KeyOf(max))
  }

  lemma TwoFound(found: seq<Position>)
    requires Ascending(found) && |found| > 1
    ensures exists a, b :: a in found && b in found && a != b
  {
    assert found[0] in found && found[1] in found && found[0] != found[1];
  }

  lemma AnswersIff(index: Index, k: key, single: bool)
    requires index.Valid()
    ensures AllHits(index, k, AtMostOne(index.HitsOf(k), single)) <==> index.Answers(k, single)
  {
    hide Index.HitsOf, Index.Valid;
    var found := index.HitsOf(k);
    HitsSound(index, k);
    HitsCompleteIff(index, k);
    if |found| > 1 {
      TwoFound(found);
    }
    if single && AllHits(index, k, AtMostOne(found, single)) {
      forall i: nat, j: nat, i': nat, j': nat | Hit(index.contents, i, j, k) && Hit(index.contents, i', j', k)
        ensures i == i' && j == j' {
        assert HitAt(index.contents, Position(i, j), k) && HitAt(index.contents, Position(i', j'), k);
      }
    }
  }

  lemma {:induction false} LastInRange(min: long, max: long)
    requires Span(min, max) < 65536
    ensures InKeyRange(KeyOf(max), min, max)
    decreases Span(min, max)
  {
    hide Span, Successor, KeyOf, InKeyRange;
    SpanStep(min, max);
    KeyRangeStep(KeyOf(max), min, max);
    if min != max {
      LastInRange(Successor(min), max);
    }
  }

  lemma SearchableStep(index: Index, min: long, max: long, unique: bool)
    requires Span(min, max) < 65536
    ensures min == max ==> (Searchable(index, min, max, unique) <==> index.Answers(KeyOf(max), unique))
    ensures min != max ==>
              (Searchable(index, min, max, unique) <==>
               index.Answers(KeyOf(min), false) && Searchable(index, Successor(min), max, unique))
  {
    hide Span, Successor, KeyOf, InKeyRange, Index.Answers;
    SpanStep(min, max);
    forall k: key
      ensures min == max ==> (InKeyRange(k, min, max) <==> k == KeyOf(max))
      ensures min != max ==> (InKeyRange(k, min, max) <==> k == KeyOf(min) || InKeyRange(k, Successor(min), max))
    {
      KeyRangeStep(k, min, max);
    }
    KeyRangeStep(KeyOf(min), min, max);
    if min != max {
      LastInRange(Successor(min), max);
    }
  }

  /** A search returns every pair whose key lies in its range exactly when no bucket nearer the root
      holds a pair of one of these keys in an earlier slot. */
  lemma {:induction false} ResultsCompleteIff(index: Index, min: long, max: long, unique: bool)
    requires index.Valid() && Span(min, max) < 65536
    ensures AllWanted(index, min, max, index.Results(min, max, unique)) <==> Searchable(index, min, max, unique)
    decreases Span(min, max)
  {
    hide Span, Successor, Index.HitsOf, Index.Valid, Index.Results, KeyOf, Wanted, HitAt, Searchable, Index.Answers;
    SpanStep(min, max);
    ResultsUnfold(index, min, max, unique);
    SearchableStep(index, min, max, unique);
    forall at
      ensures min == max ==> (Wanted(index.contents, at, min, max) <==> HitAt(index.contents, at, KeyOf(max)))
    {
      WantedStep(index.contents, at, min, max);
    }
    if min == max {
      AnswersIff(index, KeyOf(max), unique);
    } else {
      AnswersIff(index, KeyOf(min), false);
      ResultsCompleteIff(index, Successor(min), max, unique);
      AllWantedStep(index, min, max, unique);
    }
  }

  lemma AllWantedStep(index: Index, min: long, max: long, unique: bool)
    requires index.Valid() && Span(min, max) < 65536 && min != max
    ensures var hits, rest := index.HitsOf(KeyOf(min)), index.Results(Successor(min), max, unique);
            AllWanted(index, min, max, hits + rest) <==>
            AllHits(index, KeyOf(min), hits) && AllWanted(index, Successor(min), max, rest)
  {
    hide Span, Successor, Index.HitsOf, Index.Valid, Index.Results, KeyOf, Wanted, HitAt;
    SpanStep(min, max);
    var hits, rest := index.HitsOf(KeyOf(min)), index.Results(Successor(min), max, unique);
    HitsSound(index, KeyOf(min));
    ResultsSound(index, Successor(min), max, unique);
    forall at
      ensures Wanted(index.contents, at, min, max) <==>
              HitAt(index.contents, at, KeyOf(min)) || Wanted(index.contents, at, Successor(min), max)
      ensures !(HitAt(index.contents, at, KeyOf(min)) && Wanted(index.contents, at, Successor(min), max))
    {
      WantedStep(index.contents, at, min, max);
    }
  }
}
