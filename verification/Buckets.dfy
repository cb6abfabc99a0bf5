/** The buckets of the max-heap index (dep/apps/antelope/index-maxheap.c): what they store, how that
    is written, and where a key's pairs may lie. */
module Buckets {
  import opened HeapTree

  const BUCKET_SIZE := 128

  type key = x: int | 0 <= x <= KEY_MAX
  datatype Pair = Pair(key: key, value: key)

  /** The conversion of a long attribute value to maxheap_key_t. */
  function KeyOf(v: int): key { v % 65536 }

  /** A value of 16 bits is its own key; two values share a key exactly when they are a multiple of 65536 apart. */
  lemma KeyIff(u: int, v: int)
    ensures 0 <= v < 65536 ==> KeyOf(v) == v
    ensures KeyOf(u) == KeyOf(v) <==> exists n: int :: u - v == 65536 * n
  {
    if KeyOf(u) == KeyOf(v) {
      assert u - v == 65536 * (u / 65536 - v / 65536);
    } else {
      forall n: int ensures u - v != 65536 * n {
        assert u == 65536 * (u / 65536) + KeyOf(u) && v == 65536 * (v / 65536) + KeyOf(v);
      }
    }
  }

  // ----- what a sequence of buckets stores

  function Stored(contents: seq<seq<Pair>>): multiset<Pair> {
    if contents == [] then multiset{} else multiset(contents[0]) + Stored(contents[1..])
  }

  lemma {:induction false} StoredAppend(contents: seq<seq<Pair>>, i: nat, p: Pair)
    requires i < |contents|
    ensures Stored(contents[i := contents[i] + [p]]) == Stored(contents) + multiset{p}
    decreases |contents|
  {
    var after := contents[i := contents[i] + [p]];
    if i == 0 {
      assert after[1..] == contents[1..];
    } else {
      assert after[1..] == contents[1..][i - 1 := contents[1..][i - 1] + [p]];
      StoredAppend(contents[1..], i - 1, p);
    }
  }

  lemma {:induction false} StoredSomewhere(contents: seq<seq<Pair>>, p: Pair)
    requires p in Stored(contents)
    ensures exists i :: 0 <= i < |contents| && p in contents[i]
    decreases |contents|
  {
    if p in contents[0] {
    } else {
      StoredSomewhere(contents[1..], p);
      var i :| 0 <= i < |contents[1..]| && p in contents[1..][i];
      assert p in contents[i + 1];
    }
  }

  lemma {:induction false} InBucketIsStored(contents: seq<seq<Pair>>, i: nat, p: Pair)
    requires i < |contents| && p in contents[i]
    ensures p in Stored(contents)
    decreases |contents|
  {
    if i > 0 {
      InBucketIsStored(contents[1..], i - 1, p);
    }
  }

  /** The bucket file holds the contents of bucket i. */
  ghost predicate BucketWritten(buckets: seq<Pair>, free: seq<nat>, contents: seq<seq<Pair>>, i: nat)
    requires i < |free| == |contents| && |buckets| == BUCKET_SIZE * |contents|
  {
    && free[i] == |contents[i]| <= BUCKET_SIZE
    && forall j :: 0 <= j < |contents[i]| ==> buckets[i * BUCKET_SIZE + j] == contents[i][j]
  }

  ghost predicate Written(buckets: seq<Pair>, free: seq<nat>, contents: seq<seq<Pair>>)
    requires |free| == |contents| && |buckets| == BUCKET_SIZE * |contents|
  {
    forall i :: 0 <= i < |contents| ==> BucketWritten(buckets, free, contents, i)
  }

  /** Bucket i only holds keys whose hash lies in its interval; a missing node holds nothing, a
      split node is full. */
  ghost predicate BucketHomed(nodes: Nodes, contents: seq<seq<Pair>>, transformKey: key -> key, i: nat)
    requires i < |contents| == NODE_LIMIT
  {
    && (contents[i] != [] ==> i < INNER && Present(nodes, i))
    && (i < INNER && Present(nodes, 2 * i + 1) ==> |contents[i]| == BUCKET_SIZE)
    && forall p :: p in contents[i] ==> Contains(Interval(i), transformKey(p.key))
  }

  ghost predicate Homed(nodes: Nodes, contents: seq<seq<Pair>>, transformKey: key -> key)
    requires |contents| == NODE_LIMIT
  {
    forall i :: 0 <= i < NODE_LIMIT ==> BucketHomed(nodes, contents, transformKey, i)
  }

  lemma AppendWritten(buckets: seq<Pair>, free: seq<nat>, contents: seq<seq<Pair>>, b: nat, pair: Pair)
    requires b < |free| == |contents| && |buckets| == BUCKET_SIZE * |contents| && Written(buckets, free, contents)
    requires free[b] < BUCKET_SIZE
    ensures Written(buckets[b * BUCKET_SIZE + free[b] := pair], free[b := free[b] + 1],
                    contents[b := contents[b] + [pair]])
  {
    var buckets', free', contents' := buckets[b * BUCKET_SIZE + free[b] := pair], free[b := free[b] + 1],
      contents[b := contents[b] + [pair]];
    forall i | 0 <= i < |contents| ensures BucketWritten(buckets', free', contents', i) {
      assert BucketWritten(buckets, free, contents, i);
    }
  }

  lemma AppendHomed(nodes: Nodes, contents: seq<seq<Pair>>, transformKey: key -> key, b: nat, pair: Pair)
    requires |contents| == NODE_LIMIT && Homed(nodes, contents, transformKey)
    requires b < INNER && |contents[b]| < BUCKET_SIZE && Present(nodes, b)
             && Contains(Interval(b), transformKey(pair.key))
    ensures Homed(nodes, contents[b := contents[b] + [pair]], transformKey)
  {
    var after := contents[b := contents[b] + [pair]];
    forall i | 0 <= i < NODE_LIMIT ensures BucketHomed(nodes, after, transformKey, i) {
      assert BucketHomed(nodes, contents, transformKey, i);
    }
  }

  lemma SplitHomed(nodes: Nodes, contents: seq<seq<Pair>>, transformKey: key -> key, b: nat)
    requires |contents| == NODE_LIMIT && Homed(nodes, contents, transformKey)
    requires b < INNER && |contents[b]| == BUCKET_SIZE
    ensures Homed(Split(nodes, b), contents, transformKey)
  {
    IntervalShape(2 * b + 1);
    IntervalShape(2 * b + 2);
    forall i | 0 <= i < NODE_LIMIT ensures BucketHomed(Split(nodes, b), contents, transformKey, i) {
      assert BucketHomed(nodes, contents, transformKey, i);
    }
  }

  // ----- which keys are stored, by position

  ghost predicate Hit(contents: seq<seq<Pair>>, i: nat, j: nat, k: key) {
    i < |contents| && j < |contents[i]| && contents[i][j].key == k
  }

  ghost predicate HasKey(contents: seq<seq<Pair>>, k: key) { exists i: nat, j: nat :: Hit(contents, i, j, k) }

  ghost predicate UniqueKey(contents: seq<seq<Pair>>, k: key) {
    forall i: nat, j: nat, i': nat, j': nat :: Hit(contents, i, j, k) && Hit(contents, i', j', k) ==> i == i' && j == j'
  }

  /** A key is stored exactly when some pair of the multimap has it. */
  lemma HasKeyIsStored(contents: seq<seq<Pair>>, k: key)
    ensures HasKey(contents, k) <==> exists p :: p in Stored(contents) && p.key == k
  {
    if HasKey(contents, k) {
      var i: nat, j: nat :| Hit(contents, i, j, k);
      InBucketIsStored(contents, i, contents[i][j]);
    }
    forall p | p in Stored(contents) && p.key == k ensures HasKey(contents, k) {
      StoredSomewhere(contents, p);
      var i :| 0 <= i < |contents| && p in contents[i];
      var j :| 0 <= j < |contents[i]| && contents[i][j] == p;
      assert Hit(contents, i, j, k);
    }
  }

  /** Every pair of a key lies in a bucket on the key's path. */
  lemma HitOnPath(nodes: Nodes, contents: seq<seq<Pair>>, transformKey: key -> key, i: nat, j: nat, k: key)
    requires |contents| == NODE_LIMIT && Tree(nodes) && Homed(nodes, contents, transformKey) && Hit(contents, i, j, k)
    ensures i in Path(nodes, 0, transformKey(k))
  {
    assert BucketHomed(nodes, contents, transformKey, i);
    assert contents[i][j] in contents[i];
    PathComplete(nodes, i, transformKey(k));
  }

  /** A pair that stands in two places is stored twice. */
  lemma {:induction false} TwoPlaces(contents: seq<seq<Pair>>, i: nat, j: nat, i': nat, j': nat, p: Pair)
    requires i < |contents| && j < |contents[i]| && contents[i][j] == p
    requires i' < |contents| && j' < |contents[i']| && contents[i'][j'] == p && (i != i' || j != j')
    ensures Stored(contents)[p] >= 2
    decreases |contents|
  {
    var rest := contents[1..];
    if i == 0 && i' == 0 {
      TwoInOne(contents[0], j, j', p);
    } else if i > 0 && i' > 0 {
      TwoPlaces(rest, i - 1, j, i' - 1, j', p);
    } else {
      assert p in contents[0];
      InBucketIsStored(rest, i + i' - 1, p);
    }
  }

  lemma TwoInOne(bucket: seq<Pair>, j: nat, j': nat, p: Pair)
    requires j < |bucket| && j' < |bucket| && j != j' && bucket[j] == p == bucket[j']
    ensures multiset(bucket)[p] >= 2
  {
    var m := if j < j' then j' else j;
    assert bucket == bucket[..m] + bucket[m..];
    assert p in bucket[..m] && p in bucket[m..] by {
      assert bucket[..m][j + j' - m] == p && bucket[m..][0] == p;
    }
  }
}
