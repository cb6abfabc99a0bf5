/** The wire format of CoAP draft-07 options as dep/apps/er-coap-07/er-coap-07.c writes it: option
    headers, integer options, fence posts, and strings split into repeated options. */
module CoapWire {
  import opened Bytes

  datatype Opt = Opt(number: nat, value: seq<byte>)

  const FENCE_POST: nat := 14

  // ----- option headers

  /** coap_set_option_header: four bits of delta, four bits of length, 15 meaning one more byte. */
  function Header(delta: nat, length: nat): (h: seq<byte>)
    ensures |h| == if length < 15 then 1 else 2
  {
    if length < 15 then [(delta % 16 * 16 + length) as byte]
    else [(delta % 16 * 16 + 15) as byte, ((length - 15) % 256) as byte]
  }

  function EncodeOpt(cur: nat, o: Opt): seq<byte>
    requires cur <= o.number
  {
    Header(o.number - cur, |o.value|) + o.value
  }

  predicate Ascending(cur: nat, opts: seq<Opt>)
    decreases |opts|
  {
    opts == [] || (cur <= opts[0].number && Ascending(opts[0].number, opts[1..]))
  }

  function Encode(cur: nat, opts: seq<Opt>): seq<byte>
    requires Ascending(cur, opts)
    decreases |opts|
  {
    if opts == [] then [] else EncodeOpt(cur, opts[0]) + Encode(opts[0].number, opts[1..])
  }

  function LastNumber(cur: nat, opts: seq<Opt>): nat { if opts == [] then cur else opts[|opts| - 1].number }

  /** What fits the format: deltas of four bits, lengths of at most 15 + 255. */
  predicate Encodable(cur: nat, opts: seq<Opt>)
    decreases |opts|
  {
    opts == [] ||
    (cur <= opts[0].number <= cur + 15 && |opts[0].value| <= 270 && Encodable(opts[0].number, opts[1..]))
  }

  lemma {:induction false} EncodeConcat(cur: nat, a: seq<Opt>, b: seq<Opt>)
    requires Ascending(cur, a) && Ascending(LastNumber(cur, a), b)
    ensures Ascending(cur, a + b) && Encode(cur, a + b) == Encode(cur, a) + Encode(LastNumber(cur, a), b)
    ensures LastNumber(cur, a + b) == LastNumber(LastNumber(cur, a), b)
    decreases |a|
  {
    hide EncodeOpt;
    if a == [] {
      assert a + b == b;
    } else {
      assert (a + b)[0] == a[0] && (a + b)[1..] == a[1..] + b;
      EncodeConcat(a[0].number, a[1..], b);
      LastOfConcat(cur, a, b);
    }
  }

  lemma LastOfConcat(cur: nat, a: seq<Opt>, b: seq<Opt>)
    ensures LastNumber(cur, a + b) == LastNumber(LastNumber(cur, a), b)
    ensures a != [] ==> LastNumber(a[0].number, a[1..]) == LastNumber(cur, a)
  {
  }

  // ----- integer options

  /** Big-endian without leading zero bytes; zero is the empty string. */
  function IntBytes(v: nat): seq<byte> {
    if v == 0 then [] else IntBytes(v / 256) + [(v % 256) as byte]
  }

  /** coap_parse_int_option, in 32-bit arithmetic. */
  function ParseInt(s: seq<byte>): word {
    if s == [] then 0 else (ParseInt(s[..|s| - 1]) * 256 + s[|s| - 1] as int) % 0x1_0000_0000
  }

  lemma {:induction false} IntRoundTrip(v: word)
    ensures ParseInt(IntBytes(v)) == v
    decreases v
  {
    if v > 0 {
      IntRoundTrip(v / 256);
      assert IntBytes(v)[..|IntBytes(v)| - 1] == IntBytes(v / 256);
    }
  }

  lemma IntBytesLength(v: word)
    ensures |IntBytes(v)| == if v >= 0x100_0000 then 4 else if v >= 0x1_0000 then 3 else if v >= 0x100 then 2
            else if v >= 1 then 1 else 0
  {
    var w1 := v / 256;
    var w2 := w1 / 256;
    var w3 := w2 / 256;
    assert w3 / 256 == 0;
    assert |IntBytes(w3)| == if w3 > 0 then 1 else 0;
    assert |IntBytes(w2)| == if w2 > 0 then |IntBytes(w3)| + 1 else 0;
    assert |IntBytes(w1)| == if w1 > 0 then |IntBytes(w2)| + 1 else 0;
  }

  // ----- fence posts

  /** The posts coap_insert_option_fence_posts puts between two option numbers. */
  function FencePosts(cur: nat, number: nat): (posts: seq<Opt>)
    decreases if number > cur then number - cur else 0
  {
    if number - cur > 15 then
      var next := cur + (FENCE_POST - cur % FENCE_POST);
      [Opt(next, [])] + FencePosts(next, number)
    else []
  }

  /** The posts land on multiples of 14, never pass the target, and leave a delta of at most 15. */
  lemma {:induction false} FencePostsBridge(cur: nat, number: nat)
    requires cur <= number
    ensures var posts := FencePosts(cur, number);
            && Encodable(cur, posts) && Ascending(cur, posts)
            && cur <= LastNumber(cur, posts) <= number && number - LastNumber(cur, posts) <= 15
            && forall i :: 0 <= i < |posts| ==> posts[i].number % FENCE_POST == 0 && posts[i].value == []
    decreases number - cur
  {
    var posts := FencePosts(cur, number);
    if number - cur > 15 {
      var next := cur + (FENCE_POST - cur % FENCE_POST);
      FencePostsBridge(next, number);
      assert next % FENCE_POST == 0;
      assert posts[1..] == FencePosts(next, number);
      assert LastNumber(cur, posts) == LastNumber(next, posts[1..]);
    }
  }

  /** The count coap_serialize_message adds for an option in front of which posts may be needed,
      against the posts really written: equal exactly when the gap is neither 14 nor 15. */
  lemma FencePostCountIff(cur: nat, number: nat)
    requires cur <= number <= 21
    ensures |FencePosts(cur, number)| == (if number - cur > 15 then 1 else 0)
    ensures (number - cur) / FENCE_POST == |FencePosts(cur, number)| <==> number - cur != 14 && number - cur != 15
    ensures number - cur == 14 || number - cur == 15 ==> (number - cur) / FENCE_POST == |FencePosts(cur, number)| + 1
  {
    if number - cur > 15 {
      assert FencePosts(14, number) == [];
    }
  }

  // ----- splitting a string into option values, and joining them again

  const SLASH: byte := 0x2f

  function SkipSlashes(s: seq<byte>, k: nat): (r: nat)
    ensures r >= k && (k <= |s| ==> r <= |s|) && (r == k <==> k >= |s| || s[k] != SLASH)
    decreases if k < |s| then |s| - k else 0
  {
    if k < |s| && s[k] == SLASH then SkipSlashes(s, k + 1) else k
  }

  /** The loop of coap_serialize_array_option: the first character after a split is skipped over
      before the next test, and slashes after any separator are dropped. */
  function Split(s: seq<byte>, sep: byte, start: nat, j: nat): seq<seq<byte>>
    requires start <= j && start <= |s|
    decreases |s| + 1 - j
  {
    if j > |s| then []
    else if j == |s| then [s[start..]]
    else if s[j] == sep then
      var k := SkipSlashes(s, j + 1);
      [s[start..j]] + Split(s, sep, k, k + 1)
    else Split(s, sep, start, j + 1)
  }

  function Segments(s: seq<byte>, sep: byte): seq<seq<byte>> { Split(s, sep, 0, 0) }

  /** coap_merge_multi_option on values. */
  function Merge(dst: seq<byte>, part: seq<byte>, sep: byte): seq<byte> {
    if |dst| > 0 then dst + [sep] + part else part
  }

  function MergeAll(dst: seq<byte>, parts: seq<seq<byte>>, sep: byte): seq<byte>
    decreases |parts|
  {
    if parts == [] then dst else MergeAll(Merge(dst, parts[0], sep), parts[1..], sep)
  }

  /** From j on, every separator the loop stops at is followed by something other than a slash. The
      character behind such a separator is not tested itself, so "a&&" passes for '&'. */
  predicate SafeFrom(s: seq<byte>, sep: byte, j: nat)
    decreases |s| + 1 - j
  {
    if j > |s| then false
    else if j == |s| then true
    else if s[j] == sep then j + 1 < |s| && s[j + 1] != SLASH && SafeFrom(s, sep, j + 2)
    else SafeFrom(s, sep, j + 1)
  }

  /** A string that survives being split and joined. */
  predicate Safe(s: seq<byte>, sep: byte) { s == [] || (s[0] != sep && SafeFrom(s, sep, 1)) }

  lemma Resume(s: seq<byte>, sep: byte, start: nat, j: nat)
    requires start <= j < |s| && s[j] == sep
    ensures s[start..j] + [sep] + s[j + 1..] == s[start..]
  {
  }

  lemma SplitStep(s: seq<byte>, sep: byte, dst: seq<byte>, start: nat, j: nat)
    requires start < j < |s| && s[j] == sep
    ensures var k := SkipSlashes(s, j + 1);
            MergeAll(dst, Split(s, sep, start, j), sep) ==
              MergeAll(Merge(dst, s[start..j], sep), Split(s, sep, k, k + 1), sep)
  {
    hide Merge, SkipSlashes, SafeFrom;
    var k := SkipSlashes(s, j + 1);
    var rest := Split(s, sep, k, k + 1);
    assert Split(s, sep, start, j) == [s[start..j]] + rest;
    hide Split;
    MergeFirst(dst, s[start..j], rest, sep);
  }

  lemma MergeFirst(dst: seq<byte>, part: seq<byte>, rest: seq<seq<byte>>, sep: byte)
    ensures MergeAll(dst, [part] + rest, sep) == MergeAll(Merge(dst, part, sep), rest, sep)
  {
    hide Merge;
    assert ([part] + rest)[1..] == rest;
  }

  /** One separator the loop stops at: the rest of the string starts at k, and nothing is lost
      exactly when k comes right after the separator. */
  lemma JoinStep(s: seq<byte>, sep: byte, dst: seq<byte>, start: nat, j: nat)
    requires start < j < |s| && s[j] == sep && (dst == [] ==> start == 0)
    ensures var k := SkipSlashes(s, j + 1);
            var dst' := Merge(dst, s[start..j], sep);
            && k <= |s| && dst' != []
            && (k == j + 1 ==> Whole(s, sep, dst', k) == Whole(s, sep, dst, start))
            && (k > j + 1 ==> |Whole(s, sep, dst', k)| < |Whole(s, sep, dst, start)|)
            && (SafeFrom(s, sep, j) <==> k == j + 1 && SafeFrom(s, sep, k + 1))
  {
    hide SafeFrom, SkipSlashes, Whole, Merge;
    SafeStep(s, sep, j);
    var k := SkipSlashes(s, j + 1);
    WholeLengths(s, sep, dst, start, j, k);
    if k == j + 1 {
      WholeNext(s, sep, dst, start, j);
    }
  }

  lemma Regroup(a: seq<byte>, b: seq<byte>, c: seq<byte>, d: seq<byte>)
    ensures a + b + c + d == a + (b + c + d)
  {
  }

  /** Going on right behind the separator loses nothing. */
  lemma WholeNext(s: seq<byte>, sep: byte, dst: seq<byte>, start: nat, j: nat)
    requires start < j < |s| && s[j] == sep && (dst == [] ==> start == 0)
    ensures Whole(s, sep, Merge(dst, s[start..j], sep), j + 1) == Whole(s, sep, dst, start)
  {
    Resume(s, sep, start, j);
    var part, rest := s[start..j], s[j + 1..];
    if dst == [] {
      assert s[start..] == s;
    } else {
      Regroup(dst + [sep], part, [sep], rest);
    }
  }

  lemma WholeLengths(s: seq<byte>, sep: byte, dst: seq<byte>, start: nat, j: nat, k: nat)
    requires start < j < k <= |s| && (dst == [] ==> start == 0)
    ensures Merge(dst, s[start..j], sep) != []
    ensures |Whole(s, sep, Merge(dst, s[start..j], sep), k)| == |Whole(s, sep, dst, start)| - (k - j - 1)
  {
  }

  lemma SafeStep(s: seq<byte>, sep: byte, j: nat)
    requires j < |s| && s[j] == sep
    ensures var k := SkipSlashes(s, j + 1);
            k <= |s| && (SafeFrom(s, sep, j) <==> k == j + 1 && SafeFrom(s, sep, k + 1))
  {
    assert !SafeFrom(s, sep, |s| + 1);
  }

  function Whole(s: seq<byte>, sep: byte, dst: seq<byte>, start: nat): seq<byte>
    requires start <= |s|
  {
    if dst == [] then s else dst + [sep] + s[start..]
  }

  lemma JoinEnd(s: seq<byte>, sep: byte, dst: seq<byte>, start: nat, j: nat)
    requires start < j && start <= |s| <= j && (dst == [] ==> start == 0 && j <= |s|)
    ensures var joined := MergeAll(dst, Split(s, sep, start, j), sep);
            if SafeFrom(s, sep, j) then joined == Whole(s, sep, dst, start) else |joined| < |Whole(s, sep, dst, start)|
  {
    if j == |s| {
      assert MergeAll(Merge(dst, s[start..], sep), [], sep) == Merge(dst, s[start..], sep);
    }
  }

  lemma SplitSkip(s: seq<byte>, sep: byte, start: nat, j: nat)
    requires start < j < |s| && s[j] != sep
    ensures Split(s, sep, start, j) == Split(s, sep, start, j + 1) && SafeFrom(s, sep, j) == SafeFrom(s, sep, j + 1)
  {
  }

  lemma {:induction false} JoinSplit(s: seq<byte>, sep: byte, dst: seq<byte>, start: nat, j: nat)
    requires start < j && start <= |s| && (dst == [] ==> start == 0 && j <= |s|)
    ensures var joined := MergeAll(dst, Split(s, sep, start, j), sep);
            if SafeFrom(s, sep, j) then joined == Whole(s, sep, dst, start) else |joined| < |Whole(s, sep, dst, start)|
    decreases |s| + 1 - j
  {
    hide Split, MergeAll, Merge, SafeFrom, SkipSlashes;
    if j >= |s| {
      JoinEnd(s, sep, dst, start, j);
    } else if s[j] == sep {
      var k := SkipSlashes(s, j + 1);
      SplitStep(s, sep, dst, start, j);
      JoinStep(s, sep, dst, start, j);
      JoinSplit(s, sep, Merge(dst, s[start..j], sep), k, k + 1);
    } else {
      SplitSkip(s, sep, start, j);
      JoinSplit(s, sep, dst, start, j + 1);
    }
  }

  /** Splitting and joining gives the string back exactly when it is Safe: no leading separator,
      no separator the loop stops at that ends the string or precedes a slash. */
  lemma SplitJoinIff(s: seq<byte>, sep: byte)
    ensures MergeAll([], Segments(s, sep), sep) == s <==> Safe(s, sep)
  {
    if s == [] {
      assert Segments(s, sep) == [[]];
    } else if s[0] == sep {
      var k := SkipSlashes(s, 1);
      var parts := Segments(s, sep);
      assert parts == [[]] + Split(s, sep, k, k + 1);
      assert parts[1..] == Split(s, sep, k, k + 1);
      JoinDropped(s, sep, k, k + 1);
    } else {
      assert Segments(s, sep) == Split(s, sep, 0, 1);
      JoinSplit(s, sep, [], 0, 1);
    }
  }

  lemma JoinLast(s: seq<byte>, sep: byte, start: nat, j: nat)
    requires start < j && start <= |s| <= j
    ensures |MergeAll([], Split(s, sep, start, j), sep)| <= |s| - start
  {
    if j == |s| {
      assert MergeAll([], [s[start..]], sep) == MergeAll(s[start..], [], sep) == s[start..];
    }
  }

  /** Whatever comes after the start, joining it cannot make up for what was dropped before. */
  lemma {:induction false} JoinDropped(s: seq<byte>, sep: byte, start: nat, j: nat)
    requires start < j && start <= |s|
    ensures |MergeAll([], Split(s, sep, start, j), sep)| <= |s| - start
    decreases |s| + 1 - j
  {
    hide Split, MergeAll, SkipSlashes;
    if j >= |s| {
      JoinLast(s, sep, start, j);
    } else if s[j] == sep {
      var k := SkipSlashes(s, j + 1);
      SplitStep(s, sep, [], start, j);
      JoinSplit(s, sep, s[start..j], k, k + 1);
    } else {
      SplitSkip(s, sep, start, j);
      JoinDropped(s, sep, start, j + 1);
    }
  }
}
