/** coap_serialize_message of dep/apps/er-coap-07/er-coap-07.c and its helpers, writing into the
    transmit buffer in place. */
module CoapSerializer {
  import opened Bytes
  import opened CoapWire
  import opened CoapMessage

  /** coap_set_option_header. */
  method SetOptionHeader(delta: nat, length: nat, buffer: array<byte>, at: nat) returns (n: nat)
    requires at + |Header(delta, length)| <= buffer.Length
    modifies buffer
    ensures n == |Header(delta, length)| && buffer[..] == Overwrite(old(buffer[..]), at, Header(delta, length))
  {
    if length < 15 {
      buffer[at] := (delta % 16 * 16 + length) as byte;
      return 1;
    } else {
      buffer[at] := (delta % 16 * 16 + 15) as byte;
      buffer[at + 1] := ((length - 15) % 256) as byte;
      return 2;
    }
  }

  method Copy(bytes: seq<byte>, buffer: array<byte>, at: nat)
    requires at + |bytes| <= buffer.Length
    modifies buffer
    ensures buffer[..] == Overwrite(old(buffer[..]), at, bytes)
  {
    forall i | 0 <= i < |bytes| {
      buffer[at + i] := bytes[i];
    }
  }

  /** The encoding of a row: fence posts, then the values of one option number. */
  function RowOptions(cur: nat, n: nat, values: seq<seq<byte>>): seq<Opt> {
    if values == [] then [] else FencePosts(cur, n) + Repeated(n, values)
  }

  lemma RowAscending(cur: nat, n: nat, values: seq<seq<byte>>)
    requires cur <= n
    ensures Ascending(cur, RowOptions(cur, n, values)) && Ascending(cur, FencePosts(cur, n))
    ensures values != [] ==> LastNumber(cur, RowOptions(cur, n, values)) == n
  {
    FencePostsBridge(cur, n);
    if values != [] {
      RepeatedAscending(LastNumber(cur, FencePosts(cur, n)), n, values);
      EncodeConcat(cur, FencePosts(cur, n), Repeated(n, values));
    }
  }

  lemma {:induction false} RepeatedAscending(cur: nat, n: nat, values: seq<seq<byte>>)
    requires cur <= n
    ensures Ascending(cur, Repeated(n, values)) && (values != [] ==> LastNumber(cur, Repeated(n, values)) == n)
    decreases |values|
  {
    if values != [] {
      assert Repeated(n, values)[1..] == Repeated(n, values[1..]);
      RepeatedAscending(n, n, values[1..]);
    }
  }

  function EncodeRow(cur: nat, n: nat, values: seq<seq<byte>>): seq<byte>
    requires cur <= n
  {
    RowAscending(cur, n, values);
    Encode(cur, RowOptions(cur, n, values))
  }

  function EncodePosts(cur: nat, n: nat): seq<byte>
    requires cur <= n
  {
    RowAscending(cur, n, []);
    Encode(cur, FencePosts(cur, n))
  }

  /** The option number in front of the first value of a row. */
  function Bridge(cur: nat, n: nat): nat { LastNumber(cur, FencePosts(cur, n)) }

  lemma BridgeBounds(cur: nat, n: nat)
    requires cur <= n
    ensures cur <= Bridge(cur, n) <= n && n - Bridge(cur, n) <= 15
  {
    FencePostsBridge(cur, n);
  }

  lemma RowOptionsGrow(cur: nat, n: nat, values: seq<seq<byte>>, value: seq<byte>)
    ensures RowOptions(cur, n, values + [value]) ==
            (if values == [] then FencePosts(cur, n) else RowOptions(cur, n, values)) + [Opt(n, value)]
  {
    hide FencePosts;
    assert Repeated(n, values + [value]) == Repeated(n, values) + [Opt(n, value)];
  }

  lemma EncodeLast(cur: nat, opts: seq<Opt>, last: Opt)
    requires Ascending(cur, opts) && Ascending(cur, opts + [last]) && LastNumber(cur, opts) <= last.number
    ensures Encode(cur, opts + [last]) == Encode(cur, opts) + EncodeOpt(LastNumber(cur, opts), last)
  {
    hide EncodeOpt;
    EncodeConcat(cur, opts, [last]);
    assert [last][1..] == [];
    var l := LastNumber(cur, opts);
    assert Encode(l, [last]) == EncodeOpt(l, last) + [];
  }

  /** One more value at the end of a row. */
  lemma RowGrows(cur: nat, n: nat, values: seq<seq<byte>>, value: seq<byte>)
    requires cur <= n
    ensures Bridge(cur, n) <= n
    ensures EncodeRow(cur, n, values + [value]) ==
            if values == [] then EncodePosts(cur, n) + EncodeOpt(Bridge(cur, n), Opt(n, value))
            else EncodeRow(cur, n, values) + EncodeOpt(n, Opt(n, value))
  {
    hide Encode, EncodeOpt, RowOptions, FencePosts, LastNumber, Ascending;
    BridgeBounds(cur, n);
    RowAscending(cur, n, values);
    RowAscending(cur, n, values + [value]);
    RowOptionsGrow(cur, n, values, value);
    EncodeLast(cur, if values == [] then FencePosts(cur, n) else RowOptions(cur, n, values), Opt(n, value));
  }

  /** coap_insert_option_fence_posts. */
  method InsertFencePosts(number: nat, cur: nat, buffer: array<byte>, at: nat) returns (i: nat, current: nat)
    requires cur <= number && at + |EncodePosts(cur, number)| <= buffer.Length
    modifies buffer
    ensures i == |EncodePosts(cur, number)| && current == Bridge(cur, number)
    ensures buffer[..] == Overwrite(old(buffer[..]), at, EncodePosts(cur, number))
  {
    hide *;
    i, current := 0, cur;
    ghost var before := buffer[..];
    ghost var done: seq<byte> := [];
    OverwriteNothing(before, at);
    while number - current > 15
      invariant cur <= current <= number && i == |done|
      invariant done + EncodePosts(current, number) == EncodePosts(cur, number)
      invariant Bridge(current, number) == Bridge(cur, number)
      invariant buffer[..] == Overwrite(before, at, done)
      decreases number - current
    {
      PostsStep(current, number);
      var delta := FENCE_POST - current % FENCE_POST;
      ghost var s1 := buffer[..];
      var _ := SetOptionHeader(delta, 0, buffer, at + i);
      Appended(before, at, done, Header(delta, 0), s1, buffer[..]);
      i := i + 1;
      current := current + delta;
      done := done + Header(delta, 0);
    }
    NoPosts(current, number);
    assert done + [] == done;
  }

  lemma Appended(before: seq<byte>, at: nat, done: seq<byte>, more: seq<byte>, s1: seq<byte>, s2: seq<byte>)
    requires at + |done| + |more| <= |before|
    requires s1 == Overwrite(before, at, done) && s2 == Overwrite(s1, at + |done|, more)
    ensures s2 == Overwrite(before, at, done + more)
  {
  }

  lemma PostsStep(cur: nat, n: nat)
    requires cur <= n && n - cur > 15
    ensures FENCE_POST == 14
    ensures var delta := FENCE_POST - cur % FENCE_POST;
            && delta > 0 && cur + delta <= n && |Header(delta, 0)| == 1
            && EncodePosts(cur, n) == Header(delta, 0) + EncodePosts(cur + delta, n)
            && Bridge(cur, n) == Bridge(cur + delta, n)
  {
    var delta := FENCE_POST - cur % FENCE_POST;
    var next := cur + delta;
    RowAscending(next, n, []);
    assert FencePosts(cur, n)[1..] == FencePosts(next, n);
    assert EncodeOpt(cur, Opt(next, [])) == Header(delta, 0);
  }

  lemma NoPosts(cur: nat, n: nat)
    requires cur <= n && n - cur <= 15
    ensures EncodePosts(cur, n) == [] && Bridge(cur, n) == cur
  {
  }

  /** coap_serialize_int_option: the value bytes are stored first, behind the place of the header. */
  method SerializeInt(number: nat, cur: nat, buffer: array<byte>, at: nat, value: word) returns (i: nat)
    requires cur <= number && at + |EncodeRow(cur, number, [IntBytes(value)])| <= buffer.Length
    modifies buffer
    ensures i == |EncodeRow(cur, number, [IntBytes(value)])|
    ensures buffer[..] == Overwrite(old(buffer[..]), at, EncodeRow(cur, number, [IntBytes(value)]))
  {
    hide *;
    ghost var before := buffer[..];
    var current;
    SingleRow(cur, number, IntBytes(value));
    IntBytesLength(value);
    i, current := InsertFencePosts(number, cur, buffer, at);
    ghost var s1 := buffer[..];
    var n := WriteIntBytes(value, buffer, at + i + 1);
    ghost var s2 := buffer[..];
    var h := SetOptionHeader(number - current, n, buffer, at + i);
    HeaderAfterValue(before, at, EncodePosts(cur, number), Header(number - current, n), IntBytes(value), s1, s2,
                     buffer[..]);
    i := i + h + n;
  }

  lemma SingleRow(cur: nat, n: nat, value: seq<byte>)
    requires cur <= n
    ensures Bridge(cur, n) <= n
    ensures EncodeRow(cur, n, [value]) == EncodePosts(cur, n) + (Header(n - Bridge(cur, n), |value|) + value)
  {
    hide *;
    RowGrows(cur, n, [], value);
    assert [] + [value] == [value];
    OptionParts(Bridge(cur, n), n, value);
  }

  lemma OptionParts(cur: nat, n: nat, value: seq<byte>)
    requires cur <= n
    ensures EncodeOpt(cur, Opt(n, value)) == Header(n - cur, |value|) + value
  {
  }

  /** Writing the posts, the value, and then the header in front of the value. */
  lemma HeaderAfterValue(before: seq<byte>, at: nat, posts: seq<byte>, header: seq<byte>, value: seq<byte>,
                         s1: seq<byte>, s2: seq<byte>, s3: seq<byte>)
    requires at + |posts| + |header| + |value| <= |before|
    requires s1 == Overwrite(before, at, posts)
    requires s2 == Overwrite(s1, at + |posts| + |header|, value)
    requires s3 == Overwrite(s2, at + |posts|, header)
    ensures s3 == Overwrite(before, at, posts + (header + value))
  {
  }

  lemma HeaderBeforeValue(before: seq<byte>, at: nat, posts: seq<byte>, header: seq<byte>, value: seq<byte>,
                          s1: seq<byte>, s2: seq<byte>, s3: seq<byte>)
    requires at + |posts| + |header| + |value| <= |before|
    requires s1 == Overwrite(before, at, posts)
    requires s2 == Overwrite(s1, at + |posts|, header)
    requires s3 == Overwrite(s2, at + |posts| + |header|, value)
    ensures s3 == Overwrite(before, at, posts + (header + value))
  {
  }

  /** The four conditional byte stores of coap_serialize_int_option. */
  method WriteIntBytes(value: word, buffer: array<byte>, at: nat) returns (n: nat)
    requires at + |IntBytes(value)| <= buffer.Length
    modifies buffer
    ensures n == |IntBytes(value)| && buffer[..] == Overwrite(old(buffer[..]), at, IntBytes(value))
  {
    ghost var before := buffer[..];
    IntBytesLength(value);
    IntBytesValue(value);
    n := 0;
    if value >= 0x100_0000 {
      buffer[at + n] := (value / 0x100_0000) as byte;
      n := n + 1;
    }
    if value >= 0x1_0000 {
      buffer[at + n] := (value / 0x1_0000 % 256) as byte;
      n := n + 1;
    }
    if value >= 0x100 {
      buffer[at + n] := (value / 0x100 % 256) as byte;
      n := n + 1;
    }
    if value >= 1 {
      buffer[at + n] := (value % 256) as byte;
      n := n + 1;
    }
  }

  lemma IntBytesValue(v: word)
    ensures var w1 := v / 0x100;
            var w2 := v / 0x1_0000;
            var w3 := v / 0x100_0000;
            IntBytes(v) ==
              if v >= 0x100_0000 then [w3 as byte, (w2 % 256) as byte, (w1 % 256) as byte, (v % 256) as byte]
              else if v >= 0x1_0000 then [(w2 % 256) as byte, (w1 % 256) as byte, (v % 256) as byte]
              else if v >= 0x100 then [(w1 % 256) as byte, (v % 256) as byte]
              else if v >= 1 then [(v % 256) as byte] else []
  {
    var w1 := v / 256;
    var w2 := w1 / 256;
    var w3 := w2 / 256;
    assert w2 == v / 0x1_0000 && w3 == v / 0x100_0000 && w3 / 256 == 0;
    assert IntBytes(w3) == if w3 > 0 then [w3 as byte] else [];
    assert IntBytes(w2) == if w2 > 0 then IntBytes(w3) + [(w2 % 256) as byte] else [];
    assert IntBytes(w1) == if w1 > 0 then IntBytes(w2) + [(w1 % 256) as byte] else [];
  }

  /** coap_serialize_array_option without a split character. */
  method SerializeArray(number: nat, cur: nat, buffer: array<byte>, at: nat, bytes: seq<byte>) returns (i: nat)
    requires cur <= number && at + |EncodeRow(cur, number, [bytes])| <= buffer.Length
    modifies buffer
    ensures i == |EncodeRow(cur, number, [bytes])|
    ensures buffer[..] == Overwrite(old(buffer[..]), at, EncodeRow(cur, number, [bytes]))
  {
    hide *;
    ghost var before := buffer[..];
    var current;
    SingleRow(cur, number, bytes);
    i, current := InsertFencePosts(number, cur, buffer, at);
    ghost var s1 := buffer[..];
    var h := SetOptionHeader(number - current, |bytes|, buffer, at + i);
    ghost var s2 := buffer[..];
    Copy(bytes, buffer, at + i + h);
    HeaderBeforeValue(before, at, EncodePosts(cur, number), Header(number - current, |bytes|), bytes, s1, s2,
                      buffer[..]);
    i := i + h + |bytes|;
  }

  // ----- rows with several values

  /** What is in the buffer when some values of a row have been written. */
  function Partial(cur: nat, n: nat, done: seq<seq<byte>>): seq<byte>
    requires cur <= n
  {
    if done == [] then EncodePosts(cur, n) else EncodeRow(cur, n, done)
  }

  function CurrentNumber(cur: nat, n: nat, done: seq<seq<byte>>): nat { if done == [] then Bridge(cur, n) else n }

  lemma PartialGrows(cur: nat, n: nat, done: seq<seq<byte>>, value: seq<byte>)
    requires cur <= n
    ensures CurrentNumber(cur, n, done) <= n && CurrentNumber(cur, n, done + [value]) == n
    ensures Partial(cur, n, done + [value]) ==
            Partial(cur, n, done) + (Header(n - CurrentNumber(cur, n, done), |value|) + value)
  {
    hide EncodeRow, EncodePosts, Bridge, Header;
    RowGrows(cur, n, done, value);
    BridgeBounds(cur, n);
  }

  lemma {:induction false} PartialMonotone(cur: nat, n: nat, a: seq<seq<byte>>, b: seq<seq<byte>>)
    requires cur <= n
    ensures |Partial(cur, n, a)| <= |Partial(cur, n, a + b)|
    decreases |b|
  {
    hide *;
    if b == [] {
      assert a + b == a;
    } else {
      PartialGrows(cur, n, a, b[0]);
      PartialMonotone(cur, n, a + [b[0]], b[1..]);
      assert a + [b[0]] + b[1..] == a + b;
    }
  }

  /** Behind position at, the buffer holds the row up to the values in done. */
  ghost predicate Progress(cur: nat, n: nat, before: seq<byte>, after: seq<byte>, at: nat, done: seq<seq<byte>>, i: nat,
                           current: nat) {
    && cur <= n && current == CurrentNumber(cur, n, done) <= n && |after| == |before|
    && i == |Partial(cur, n, done)| && at + i <= |before| && after == Overwrite(before, at, Partial(cur, n, done))
  }

  /** An option header followed by the copied value. */
  method WriteOption(delta: nat, value: seq<byte>, buffer: array<byte>, at: nat) returns (i: nat)
    requires at + |Header(delta, |value|)| + |value| <= buffer.Length
    modifies buffer
    ensures i == |Header(delta, |value|) + value|
    ensures buffer[..] == Overwrite(old(buffer[..]), at, Header(delta, |value|) + value)
  {
    hide Header;
    ghost var s0 := buffer[..];
    i := SetOptionHeader(delta, |value|, buffer, at);
    ghost var s1 := buffer[..];
    Copy(value, buffer, at + i);
    i := i + |value|;
    Appended(s0, at, Header(delta, |value|), value, s1, buffer[..]);
  }

  lemma ProgressOpen(cur: nat, n: nat, before: seq<byte>, after: seq<byte>, at: nat, done: seq<seq<byte>>,
                     value: seq<byte>, i: nat, current: nat)
    requires Progress(cur, n, before, after, at, done, i, current)
    requires at + |Partial(cur, n, done + [value])| <= |before|
    ensures current <= n && |after| == |before| && at + i + |Header(n - current, |value|)| + |value| <= |after|
  {
    PartialGrows(cur, n, done, value);
    hide Partial, Header, Overwrite;
  }

  /** One more header and value in the buffer. */
  lemma ProgressStep(cur: nat, n: nat, before: seq<byte>, at: nat, done: seq<seq<byte>>, value: seq<byte>, current: nat,
                     i: nat, s1: seq<byte>, s2: seq<byte>)
    requires Progress(cur, n, before, s1, at, done, i, current)
    requires at + |Partial(cur, n, done + [value])| <= |before| && |s1| == |before| && current <= n
    requires var more := Header(n - current, |value|) + value;
             at + i + |more| <= |before| && s2 == Overwrite(s1, at + i, more)
    ensures Progress(cur, n, before, s2, at, done + [value], i + |Header(n - current, |value|) + value|, n)
  {
    hide *;
    ProgressFacts(cur, n, before, s1, at, done, i, current);
    PartialGrows(cur, n, done, value);
    var more := Header(n - current, |value|) + value;
    Appended(before, at, Partial(cur, n, done), more, s1, s2);
    ProgressFold(cur, n, before, s2, at, done + [value], i + |more|, n);
  }

  lemma ProgressFacts(cur: nat, n: nat, before: seq<byte>, after: seq<byte>, at: nat, done: seq<seq<byte>>, i: nat,
                      current: nat)
    requires Progress(cur, n, before, after, at, done, i, current)
    ensures cur <= n && current == CurrentNumber(cur, n, done) <= n && |after| == |before|
    ensures i == |Partial(cur, n, done)| && at + i <= |before| && after == Overwrite(before, at, Partial(cur, n, done))
  {
    hide Partial, Overwrite, CurrentNumber;
  }

  lemma ProgressFold(cur: nat, n: nat, before: seq<byte>, after: seq<byte>, at: nat, done: seq<seq<byte>>, i: nat,
                     current: nat)
    requires cur <= n && current == CurrentNumber(cur, n, done) <= n && |after| == |before|
    requires i == |Partial(cur, n, done)| && at + i <= |before| && after == Overwrite(before, at, Partial(cur, n, done))
    ensures Progress(cur, n, before, after, at, done, i, current)
  {
    hide Partial, Overwrite, CurrentNumber;
  }

  /** The state of the splitting loop: the parts in done are in the buffer, the others are still to come. */
  ghost predicate Splitting(cur: nat, n: nat, before: seq<byte>, after: seq<byte>, at: nat, s: seq<byte>, sep: byte,
                            done: seq<seq<byte>>, i: nat, current: nat, start: nat, j: nat) {
    && start <= j && (j <= |s| ==> start <= |s|)
    && done + Remaining(s, sep, start, j) == Segments(s, sep)
    && Progress(cur, n, before, after, at, done, i, current)
    && at + |Partial(cur, n, Segments(s, sep))| <= |before|
  }

  /** coap_serialize_array_option with a split character; parts is what it leaves in *split_option. */
  method SerializeSplit(number: nat, cur: nat, buffer: array<byte>, at: nat, bytes: seq<byte>, splitChar: byte)
    returns (i: nat, parts: nat)
    requires cur <= number && at + |EncodeRow(cur, number, Segments(bytes, splitChar))| <= buffer.Length
    modifies buffer
    ensures i == |EncodeRow(cur, number, Segments(bytes, splitChar))| && parts == |Segments(bytes, splitChar)|
    ensures buffer[..] == Overwrite(old(buffer[..]), at, EncodeRow(cur, number, Segments(bytes, splitChar)))
  {
    hide *;
    ghost var before := buffer[..];
    ghost var done: seq<seq<byte>> := [];
    SplitStarts(cur, number, bytes, splitChar);
    var current;
    i, current := StartRow(number, cur, buffer, at);
    var j: nat, partStart: nat := 0, 0;
    parts := 0;
    SplitBegins(cur, number, before, buffer[..], at, bytes, splitChar, i, current);
    while j <= |bytes|
      invariant parts == |done|
                && Splitting(cur, number, before, buffer[..], at, bytes, splitChar, done, i, current, partStart, j)
      decreases |bytes| + 1 - j
    {
      if j == |bytes| || bytes[j] == splitChar {
        done, i, j := WritePart(cur, number, before, buffer, at, bytes, splitChar, done, i, current, partStart, j);
        parts := parts + 1;
        current := number;
        partStart := j;
      } else {
        CharacterSkipped(cur, number, before, buffer[..], at, bytes, splitChar, done, i, current, partStart, j);
      }
      j := j + 1;
    }
    SplitEnds(cur, number, before, buffer[..], at, bytes, splitChar, done, i, current, partStart, j);
  }

  /** One part, and the slashes behind its separator skipped. */
  method WritePart(ghost cur: nat, number: nat, ghost before: seq<byte>, buffer: array<byte>, at: nat, bytes: seq<byte>,
                   ghost sep: byte, ghost done: seq<seq<byte>>, i: nat, current: nat, partStart: nat, j: nat)
    returns (ghost done': seq<seq<byte>>, i': nat, k: nat)
    requires Splitting(cur, number, before, buffer[..], at, bytes, sep, done, i, current, partStart, j)
    requires j <= |bytes| && (j == |bytes| || bytes[j] == sep)
    modifies buffer
    ensures |done'| == |done| + 1 && j < k
    ensures Splitting(cur, number, before, buffer[..], at, bytes, sep, done', i', number, k, k + 1)
  {
    hide *;
    ghost var s1 := buffer[..];
    PartFits(cur, number, before, s1, at, bytes, sep, done, i, current, partStart, j);
    var n := WriteOption(number - current, bytes[partStart..j], buffer, at + i);
    PartWritten(cur, number, before, s1, buffer[..], at, bytes, sep, done, i, current, partStart, j);
    i' := i + n;
    done' := done + [bytes[partStart..j]];
    k := SkipSlashesFrom(bytes, j + 1);
  }

  lemma SplitBegins(cur: nat, n: nat, before: seq<byte>, after: seq<byte>, at: nat, s: seq<byte>, sep: byte, i: nat,
                    current: nat)
    requires cur <= n && Progress(cur, n, before, after, at, [], i, current)
    requires at + |Partial(cur, n, Segments(s, sep))| <= |before|
    ensures Splitting(cur, n, before, after, at, s, sep, [], i, current, 0, 0)
  {
    hide Progress, Partial;
  }

  lemma PartFits(cur: nat, n: nat, before: seq<byte>, after: seq<byte>, at: nat, s: seq<byte>, sep: byte,
                 done: seq<seq<byte>>, i: nat, current: nat, start: nat, j: nat)
    requires Splitting(cur, n, before, after, at, s, sep, done, i, current, start, j)
    requires j <= |s| && (j == |s| || s[j] == sep)
    ensures start <= j && current <= n && at + i + |Header(n - current, j - start)| + (j - start) <= |after| == |before|
    ensures at + |Partial(cur, n, done + [s[start..j]])| <= |before|
  {
    hide Progress, Partial, Segments, Remaining, Header;
    ProgressFacts(cur, n, before, after, at, done, i, current);
    EmitPart(cur, n, s, sep, start, j, done, Segments(s, sep));
    ProgressOpen(cur, n, before, after, at, done, s[start..j], i, current);
  }

  lemma PartWritten(cur: nat, n: nat, before: seq<byte>, s1: seq<byte>, s2: seq<byte>, at: nat, s: seq<byte>, sep: byte,
                    done: seq<seq<byte>>, i: nat, current: nat, start: nat, j: nat)
    requires Splitting(cur, n, before, s1, at, s, sep, done, i, current, start, j)
    requires start <= j <= |s| && (j == |s| || s[j] == sep) && current <= n
    requires var more := Header(n - current, j - start) + s[start..j];
             at + i + |more| <= |s1| && s2 == Overwrite(s1, at + i, more)
    ensures var k := SkipSlashes(s, j + 1);
            && j < k
            && Splitting(cur, n, before, s2, at, s, sep, done + [s[start..j]],
                         i + |Header(n - current, j - start) + s[start..j]|, n, k, k + 1)
  {
    hide Progress, Partial, Segments, Remaining, Header, Overwrite;
    ProgressFacts(cur, n, before, s1, at, done, i, current);
    PartFits(cur, n, before, s1, at, s, sep, done, i, current, start, j);
    EmitPart(cur, n, s, sep, start, j, done, Segments(s, sep));
    ProgressStep(cur, n, before, at, done, s[start..j], current, i, s1, s2);
  }

  lemma CharacterSkipped(cur: nat, n: nat, before: seq<byte>, after: seq<byte>, at: nat, s: seq<byte>, sep: byte,
                         done: seq<seq<byte>>, i: nat, current: nat, start: nat, j: nat)
    requires Splitting(cur, n, before, after, at, s, sep, done, i, current, start, j)
    requires j < |s| && s[j] != sep
    ensures Splitting(cur, n, before, after, at, s, sep, done, i, current, start, j + 1)
  {
    hide Progress, Partial, Segments, Remaining;
    SkipCharacter(s, sep, start, j);
  }

  lemma SplitEnds(cur: nat, n: nat, before: seq<byte>, after: seq<byte>, at: nat, s: seq<byte>, sep: byte,
                  done: seq<seq<byte>>, i: nat, current: nat, start: nat, j: nat)
    requires Splitting(cur, n, before, after, at, s, sep, done, i, current, start, j) && j > |s|
    ensures var all := Segments(s, sep);
            && cur <= n && done == all && i == |EncodeRow(cur, n, all)|
            && at + i <= |before| && after == Overwrite(before, at, EncodeRow(cur, n, all))
  {
    hide Progress, Partial, Segments, Remaining, Overwrite, EncodeRow;
    ProgressFacts(cur, n, before, after, at, done, i, current);
    NoneRemaining(s, sep, start, j);
    SplitStarts(cur, n, s, sep);
    RowDone(cur, n, before, after, at, done, i, current);
  }

  lemma RowDone(cur: nat, n: nat, before: seq<byte>, after: seq<byte>, at: nat, all: seq<seq<byte>>, i: nat,
                current: nat)
    requires Progress(cur, n, before, after, at, all, i, current) && all != []
    ensures i == |EncodeRow(cur, n, all)| && at + i <= |before|
            && after == Overwrite(before, at, EncodeRow(cur, n, all))
  {
  }

  /** The parts that are still to be written. */
  function Remaining(s: seq<byte>, sep: byte, start: nat, j: nat): seq<seq<byte>>
    requires start <= j
  {
    if start <= |s| then Split(s, sep, start, j) else []
  }

  lemma SplitStarts(cur: nat, n: nat, s: seq<byte>, sep: byte)
    requires cur <= n
    ensures [] + Remaining(s, sep, 0, 0) == Segments(s, sep) != []
    ensures Partial(cur, n, Segments(s, sep)) == EncodeRow(cur, n, Segments(s, sep))
    ensures |Partial(cur, n, [])| <= |Partial(cur, n, Segments(s, sep))|
  {
    SegmentsExist(s, sep, 0, 0);
    PartialMonotone(cur, n, [], Segments(s, sep));
    assert [] + Segments(s, sep) == Segments(s, sep);
  }

  lemma EmitPart(cur: nat, n: nat, s: seq<byte>, sep: byte, start: nat, j: nat, done: seq<seq<byte>>,
                 all: seq<seq<byte>>)
    requires cur <= n && start <= j <= |s| && (j == |s| || s[j] == sep) && done + Remaining(s, sep, start, j) == all
    ensures var part := s[start..j];
            var k := SkipSlashes(s, j + 1);
            && j < k && (j < |s| ==> k <= |s|) && (j == |s| ==> k == j + 1)
            && (done + [part]) + Remaining(s, sep, k, k + 1) == all
            && |Partial(cur, n, done + [part])| <= |Partial(cur, n, all)|
            && CurrentNumber(cur, n, done) <= n && CurrentNumber(cur, n, done + [part]) == n
  {
    hide *;
    var part := s[start..j];
    var k := SkipSlashes(s, j + 1);
    RemainingStep(s, sep, start, j);
    var rest := Remaining(s, sep, k, k + 1);
    assert done + ([part] + rest) == (done + [part]) + rest;
    PartialMonotone(cur, n, done + [part], rest);
    PartialGrows(cur, n, done, part);
  }

  lemma RemainingStep(s: seq<byte>, sep: byte, start: nat, j: nat)
    requires start <= j <= |s| && (j == |s| || s[j] == sep)
    ensures var k := SkipSlashes(s, j + 1);
            Remaining(s, sep, start, j) == [s[start..j]] + Remaining(s, sep, k, k + 1)
  {
    SplitUnfold(s, sep, start, j);
    if j < |s| {
      hide Split;
    }
  }

  lemma SkipCharacter(s: seq<byte>, sep: byte, start: nat, j: nat)
    requires start <= j < |s| && s[j] != sep
    ensures Remaining(s, sep, start, j + 1) == Remaining(s, sep, start, j)
  {
  }

  lemma NoneRemaining(s: seq<byte>, sep: byte, start: nat, j: nat)
    requires start <= j && j > |s|
    ensures Remaining(s, sep, start, j) == []
  {
  }

  method StartRow(number: nat, cur: nat, buffer: array<byte>, at: nat) returns (i: nat, current: nat)
    requires cur <= number && at + |Partial(cur, number, [])| <= buffer.Length
    modifies buffer
    ensures Progress(cur, number, old(buffer[..]), buffer[..], at, [], i, current)
  {
    BridgeBounds(cur, number);
    i, current := InsertFencePosts(number, cur, buffer, at);
  }

  /** The inner loop over slashes; behind the string stands its terminator. */
  method SkipSlashesFrom(s: seq<byte>, k: nat) returns (r: nat)
    ensures r == SkipSlashes(s, k)
  {
    r := k;
    while r < |s| && s[r] == SLASH
      invariant SkipSlashes(s, r) == SkipSlashes(s, k)
    {
      r := r + 1;
    }
  }

  lemma SplitUnfold(s: seq<byte>, sep: byte, start: nat, j: nat)
    requires start <= j && start <= |s|
    ensures j > |s| ==> Split(s, sep, start, j) == []
    ensures j == |s| ==> Split(s, sep, start, j) == [s[start..j]] && SkipSlashes(s, j + 1) == j + 1
    ensures j < |s| && s[j] == sep ==>
              var k := SkipSlashes(s, j + 1);
              && j < k <= |s| && Split(s, sep, start, j) == [s[start..j]] + Split(s, sep, k, k + 1)
              && Split(s, sep, start, j)[1..] == Split(s, sep, k, k + 1)
    ensures j < |s| && s[j] != sep ==> Split(s, sep, start, j) == Split(s, sep, start, j + 1)
  {
    assert s[start..|s|] == s[start..];
  }

  // ----- rows whose values are written one call at a time

  function NumberAfter(cur: nat, n: nat, done: seq<seq<byte>>): nat { if done == [] then cur else n }

  lemma RowExtends(cur: nat, n: nat, done: seq<seq<byte>>, value: seq<byte>)
    requires cur <= n
    ensures NumberAfter(cur, n, done) <= n
    ensures EncodeRow(cur, n, done + [value]) ==
            EncodeRow(cur, n, done) + EncodeRow(NumberAfter(cur, n, done), n, [value])
  {
    if done == [] {
      assert EncodeRow(cur, n, []) == [] && [] + [value] == [value];
    } else {
      RowGrows(cur, n, done, value);
      SingleRow(n, n, value);
      NoPosts(n, n);
    }
  }

  lemma {:induction false} RowMonotone(cur: nat, n: nat, a: seq<seq<byte>>, b: seq<seq<byte>>)
    requires cur <= n
    ensures |EncodeRow(cur, n, a)| <= |EncodeRow(cur, n, a + b)|
    decreases |b|
  {
    hide *;
    if b == [] {
      assert a + b == a;
    } else {
      RowExtends(cur, n, a, b[0]);
      RowMonotone(cur, n, a + [b[0]], b[1..]);
      assert a + [b[0]] + b[1..] == a + b;
    }
  }

  /** From position at on, the buffer holds the row up to the values in done; those in todo fit behind. */
  ghost predicate RowWritten(cur: nat, n: nat, before: seq<byte>, after: seq<byte>, at: nat, done: seq<seq<byte>>,
                             todo: seq<seq<byte>>, i: nat, current: nat) {
    && cur <= n && current == NumberAfter(cur, n, done) && i == |EncodeRow(cur, n, done)|
    && at + |EncodeRow(cur, n, done + todo)| <= |before| && at + i <= |before|
    && after == Overwrite(before, at, EncodeRow(cur, n, done))
  }

  lemma RowBegins(cur: nat, n: nat, before: seq<byte>, at: nat, todo: seq<seq<byte>>)
    requires cur <= n && at + |EncodeRow(cur, n, todo)| <= |before|
    ensures RowWritten(cur, n, before, before, at, [], todo, 0, cur)
  {
    hide EncodeRow;
    EmptyRow(cur, n);
    OverwriteNothing(before, at);
    assert [] + todo == todo;
  }

  lemma EmptyRow(cur: nat, n: nat)
    requires cur <= n
    ensures EncodeRow(cur, n, []) == []
  {
  }

  lemma ValueFits(cur: nat, n: nat, before: seq<byte>, after: seq<byte>, at: nat, done: seq<seq<byte>>,
                  todo: seq<seq<byte>>, i: nat, current: nat)
    requires RowWritten(cur, n, before, after, at, done, todo, i, current) && todo != []
    ensures current <= n && |after| == |before| && at + i + |EncodeRow(current, n, [todo[0]])| <= |after|
  {
    hide EncodeRow;
    RowExtends(cur, n, done, todo[0]);
    RowMonotone(cur, n, done + [todo[0]], todo[1..]);
    assert done + [todo[0]] + todo[1..] == done + todo;
  }

  lemma ValueWritten(cur: nat, n: nat, before: seq<byte>, s1: seq<byte>, s2: seq<byte>, at: nat, done: seq<seq<byte>>,
                     todo: seq<seq<byte>>, i: nat, current: nat)
    requires RowWritten(cur, n, before, s1, at, done, todo, i, current) && todo != []
    requires current <= n && at + i + |EncodeRow(current, n, [todo[0]])| <= |s1|
    requires s2 == Overwrite(s1, at + i, EncodeRow(current, n, [todo[0]]))
    ensures RowWritten(cur, n, before, s2, at, done + [todo[0]], todo[1..], i + |EncodeRow(current, n, [todo[0]])|, n)
  {
    hide EncodeRow, Overwrite;
    ValueFits(cur, n, before, s1, at, done, todo, i, current);
    RowExtends(cur, n, done, todo[0]);
    assert done + [todo[0]] + todo[1..] == done + todo;
    Appended(before, at, EncodeRow(cur, n, done), EncodeRow(current, n, [todo[0]]), s1, s2);
  }

  lemma RowEnds(cur: nat, n: nat, before: seq<byte>, after: seq<byte>, at: nat, done: seq<seq<byte>>,
                all: seq<seq<byte>>, i: nat, current: nat)
    requires RowWritten(cur, n, before, after, at, done, [], i, current) && done == all
    ensures cur <= n && i == |EncodeRow(cur, n, all)| && at + i <= |before|
            && after == Overwrite(before, at, EncodeRow(cur, n, all))
    ensures current == if all == [] then cur else n
  {
    hide EncodeRow, Overwrite;
  }

  /** The loop over the Accept options. */
  method SerializeAccept(cur: nat, accept: seq<nat>, buffer: array<byte>, at: nat) returns (i: nat, current: nat)
    requires cur <= ACCEPT && (forall k :: 0 <= k < |accept| ==> accept[k] < 0x1_0000)
    requires at + |EncodeRow(cur, ACCEPT, AcceptValues(accept))| <= buffer.Length
    modifies buffer
    ensures i == |EncodeRow(cur, ACCEPT, AcceptValues(accept))|
    ensures current == if accept == [] then cur else ACCEPT
    ensures buffer[..] == Overwrite(old(buffer[..]), at, EncodeRow(cur, ACCEPT, AcceptValues(accept)))
  {
    hide *;
    ghost var before, all := buffer[..], AcceptValues(accept);
    RowBegins(cur, ACCEPT, before, at, all);
    AcceptTail(accept, 0);
    var k := 0;
    i, current := 0, cur;
    while k < |accept|
      invariant k <= |accept| == |all|
      invariant RowWritten(cur, ACCEPT, before, buffer[..], at, all[..k], all[k..], i, current)
    {
      ghost var s1 := buffer[..];
      AcceptTail(accept, k);
      ValueFits(cur, ACCEPT, before, s1, at, all[..k], all[k..], i, current);
      var n := SerializeInt(ACCEPT, current, buffer, at + i, accept[k]);
      ValueWritten(cur, ACCEPT, before, s1, buffer[..], at, all[..k], all[k..], i, current);
      i, current := i + n, ACCEPT;
      k := k + 1;
    }
    assert all[k..] == [];
    RowEnds(cur, ACCEPT, before, buffer[..], at, all[..k], all, i, current);
  }

  lemma AcceptTail(accept: seq<nat>, k: nat)
    requires k <= |accept|
    ensures var all := AcceptValues(accept);
            && |all| == |accept| && all[..0] == [] && all[0..] == all
            && (k < |accept| ==> all[k..] != [] && all[k..][0] == IntBytes(accept[k]) && all[k..][1..] == all[k + 1..]
                                 && all[..k] + [all[k..][0]] == all[..k + 1])
            && (accept == [] <==> all == [])
  {
  }

  /** The loop that cuts Proxy-Uri into pieces of at most 270 bytes; parts is what it adds to the option count. */
  method SerializeProxy(cur: nat, uri: seq<byte>, buffer: array<byte>, at: nat)
    returns (i: nat, parts: nat, current: nat)
    requires cur <= PROXY_URI && at + |EncodeRow(cur, PROXY_URI, Chunks(uri))| <= buffer.Length
    modifies buffer
    ensures i == |EncodeRow(cur, PROXY_URI, Chunks(uri))| && parts == |Chunks(uri)|
    ensures current == if Chunks(uri) == [] then cur else PROXY_URI
    ensures buffer[..] == Overwrite(old(buffer[..]), at, EncodeRow(cur, PROXY_URI, Chunks(uri)))
  {
    hide *;
    ghost var before := buffer[..];
    ghost var done: seq<seq<byte>> := [];
    RowBegins(cur, PROXY_URI, before, at, Chunks(uri));
    var from := 0;
    i, parts, current := 0, 0, cur;
    assert uri[0..] == uri && [] + Chunks(uri) == Chunks(uri);
    while from < |uri|
      invariant from <= |uri| && parts == |done| && done + Chunks(uri[from..]) == Chunks(uri)
      invariant RowWritten(cur, PROXY_URI, before, buffer[..], at, done, Chunks(uri[from..]), i, current)
    {
      ghost var s1, todo := buffer[..], Chunks(uri[from..]);
      var end := ChunkEnd(uri, from);
      ValueFits(cur, PROXY_URI, before, s1, at, done, todo, i, current);
      var n := SerializeArray(PROXY_URI, current, buffer, at + i, uri[from..end]);
      ValueWritten(cur, PROXY_URI, before, s1, buffer[..], at, done, todo, i, current);
      assert done + [todo[0]] + todo[1..] == done + todo;
      done := done + [todo[0]];
      i, parts, current := i + n, parts + 1, PROXY_URI;
      from := end;
    }
    NoChunks(uri, from, done);
    RowEnds(cur, PROXY_URI, before, buffer[..], at, done, Chunks(uri), i, current);
  }

  method ChunkEnd(uri: seq<byte>, from: nat) returns (end: nat)
    requires from < |uri|
    ensures from < end <= |uri|
    ensures var todo := Chunks(uri[from..]);
            todo != [] && todo[0] == uri[from..end] && todo[1..] == Chunks(uri[end..])
  {
    end := if |uri| - from < PROXY_CHUNK then |uri| else from + PROXY_CHUNK;
    assert |uri| - from > PROXY_CHUNK ==> uri[from..][PROXY_CHUNK..] == uri[end..];
    assert uri[from..][..end - from] == uri[from..end];
    assert end == |uri| ==> uri[end..] == [];
    assert uri[from..end] == uri[from..] || end == from + PROXY_CHUNK;
    assert Chunks([]) == [];
  }

  lemma NoChunks(uri: seq<byte>, from: nat, done: seq<seq<byte>>)
    requires from == |uri| && done + Chunks(uri[from..]) == Chunks(uri)
    ensures Chunks(uri[from..]) == [] && done == Chunks(uri)
  {
    assert uri[from..] == [];
    assert done + [] == done;
  }

  // ----- whole messages

  /** The field of option n as the integer its row writes. */
  function IntValue(v: View, n: nat): nat {
    match KindOf(n)
    case Int(_) => IntOf(v, n)
    case Blockwise => EncodeBlock(BlockOf(v, n))
    case _ => 0
  }

  function BytesValue(v: View, n: nat): seq<byte> { if KindOf(n) == Copied then CopyOf(v, n) else TextOf(v, n) }

  lemma ValuesByKind(v: View, k: nat)
    requires Typed(v) && k < |ORDER|
    ensures var n := ORDER[k];
            && n !in v.options ==> Values(v, n) == []
    ensures var n := ORDER[k];
            n in v.options ==>
              match KindOf(n)
              case Int(_) => IntValue(v, n) < 0x1_0000_0000 && Values(v, n) == [IntBytes(IntValue(v, n))]
              case Blockwise => IntValue(v, n) < 0x1_0000_0000 && Values(v, n) == [IntBytes(IntValue(v, n))]
              case Flag => IntValue(v, n) == 0 && Values(v, n) == [IntBytes(0)]
              case Copied => Values(v, n) == [BytesValue(v, n)]
              case Pointed => Values(v, n) == [BytesValue(v, n)]
              case Joined(sep) => Values(v, n) == Segments(BytesValue(v, n), sep) != []
              case Accepts => n == ACCEPT && Values(v, n) == AcceptValues(v.accept)
                && forall i :: 0 <= i < |v.accept| ==> v.accept[i] < 0x1_0000
              case Proxy => n == PROXY_URI && Values(v, n) == Chunks(BytesValue(v, n))
              case _ => false
  {
    OrderAt(k);
    hide IntBytes, Split, EncodeBlock, ORDER, Chunks, AcceptValues;
    var n := ORDER[k];
    if KindOf(n).Joined? {
      SegmentsExist(TextOf(v, n), KindOf(n).sep, 0, 0);
    }
  }

  /** What one row adds to the option count. */
  function RowCount(cur: nat, n: nat, values: seq<seq<byte>>): nat {
    if values == [] then 0 else |values| + if n >= 15 && n >= cur then (n - cur) / FENCE_POST else 0
  }

  lemma RowCountFacts(cur: nat, n: nat)
    ensures FENCE_POST > 0
    ensures RowCount(cur, n, []) == 0
    ensures forall values: seq<seq<byte>> :: values != [] ==>
              RowCount(cur, n, values) == |values| + if n >= 15 && n >= cur then (n - cur) / FENCE_POST else 0
  {
  }

  /** One of the blocks of coap_serialize_message guarded by IS_OPTION. */
  method SerializeOption(v: View, k: nat, cur: nat, buffer: array<byte>, at: nat)
    returns (i: nat, count: nat, current: nat)
    requires Typed(v) && k < |ORDER| && cur < ORDER[k]
             && at + |EncodeRow(cur, ORDER[k], Values(v, ORDER[k]))| <= buffer.Length
    modifies buffer
    ensures var values := Values(v, ORDER[k]);
            && i == |EncodeRow(cur, ORDER[k], values)| && count == RowCount(cur, ORDER[k], values)
            && current == (if values == [] then cur else ORDER[k])
            && buffer[..] == Overwrite(old(buffer[..]), at, EncodeRow(cur, ORDER[k], values))
  {
    hide *;
    var n := ORDER[k];
    ValuesByKind(v, k);
    RowCountFacts(cur, n);
    NoValues(cur, n, buffer[..], at);
    i, count, current := 0, 0, cur;
    if n in v.options {
      count, current := 1, n;
      match KindOf(n) {
      case Int(_) => i := SerializeInt(n, cur, buffer, at, IntValue(v, n));
      case Blockwise => i := SerializeInt(n, cur, buffer, at, IntValue(v, n));
      case Flag => i := SerializeInt(n, cur, buffer, at, 0);
      case Copied => i := SerializeArray(n, cur, buffer, at, BytesValue(v, n));
      case Pointed => i := SerializeArray(n, cur, buffer, at, BytesValue(v, n));
      case Joined(sep) => i, count := SerializeSplit(n, cur, buffer, at, BytesValue(v, n), sep);
      case Accepts =>
        i, current := SerializeAccept(cur, v.accept, buffer, at);
        AcceptTail(v.accept, 0);
        count := |v.accept|;
      case Proxy => i, count, current := SerializeProxy(cur, BytesValue(v, n), buffer, at);
      case _ =>
      }
      count := count + if n >= 15 && count > 0 then (n - cur) / FENCE_POST else 0;
    }
  }

  lemma NoValues(cur: nat, n: nat, before: seq<byte>, at: nat)
    requires cur <= n && at <= |before|
    ensures EncodeRow(cur, n, []) == [] && Overwrite(before, at, []) == before
  {
    OverwriteNothing(before, at);
  }

  /** The encoding of the rows from the k-th on. */
  function Rest(v: View, k: nat, cur: nat): seq<byte>
    requires Passed(k, cur)
  {
    OptionsClose(v, k, cur);
    CloseIsAscending(cur, OptionsFrom(v, k, cur));
    Encode(cur, OptionsFrom(v, k, cur))
  }

  lemma RestUnfold(v: View, k: nat, cur: nat)
    requires k < |ORDER| && Passed(k, cur)
    ensures cur < ORDER[k]
    ensures var n := ORDER[k];
            var values := Values(v, n);
            var next := if values == [] then cur else n;
            && Passed(k + 1, next)
            && Rest(v, k, cur) == EncodeRow(cur, n, values) + Rest(v, k + 1, next)
            && CountFrom(v, k, cur) == RowCount(cur, n, values) + CountFrom(v, k + 1, next)
  {
    PassedNext(k, cur);
    var n := ORDER[k];
    hide Values, Encode, ORDER;
    var values := Values(v, n);
    if values != [] {
      RowAscending(cur, n, values);
      OptionsClose(v, k + 1, n);
      CloseIsAscending(n, OptionsFrom(v, k + 1, n));
      RowConcat(cur, n, values, OptionsFrom(v, k + 1, n));
    } else {
      NoValues(cur, n, [], 0);
    }
  }

  lemma RowConcat(cur: nat, n: nat, values: seq<seq<byte>>, rest: seq<Opt>)
    requires cur <= n && values != [] && Ascending(n, rest)
    ensures Ascending(cur, RowOptions(cur, n, values) + rest)
    ensures Encode(cur, RowOptions(cur, n, values) + rest) == EncodeRow(cur, n, values) + Encode(n, rest)
  {
    RowAscending(cur, n, values);
    hide RowOptions, Ascending, Encode;
    EncodeConcat(cur, RowOptions(cur, n, values), rest);
  }

  /** The state between two rows: done is what has been written behind the header. */
  ghost predicate Sending(m: Message, before: seq<byte>, after: seq<byte>, done: seq<byte>, k: nat, cur: nat,
                          option: nat, count: nat) {
    && Passed(k, cur) && k <= |ORDER| && option == COAP_HEADER_LEN + |done|
    && done + Rest(m.view, k, cur) == Encode0(m) && count + CountFrom(m.view, k, cur) == m.Count()
    && COAP_HEADER_LEN + |Encode0(m)| <= |before| && after == Overwrite(before, COAP_HEADER_LEN, done)
  }

  lemma SendingBegins(m: Message, before: seq<byte>)
    requires COAP_HEADER_LEN + |Encode0(m)| <= |before|
    ensures Sending(m, before, before, [], 0, 0, COAP_HEADER_LEN, 0)
  {
    OverwriteNothing(before, COAP_HEADER_LEN);
    hide OptionsFrom, CountFrom, Overwrite, Encode;
    assert [] + Encode0(m) == Encode0(m);
  }

  lemma RowFits(m: Message, before: seq<byte>, after: seq<byte>, done: seq<byte>, k: nat, cur: nat, option: nat,
                count: nat)
    requires Sending(m, before, after, done, k, cur, option, count) && k < |ORDER|
    ensures cur < ORDER[k] && |after| == |before|
    ensures option + |EncodeRow(cur, ORDER[k], Values(m.view, ORDER[k]))| <= |after|
  {
    hide ORDER, Rest, CountFrom, Encode0, EncodeRow, Values;
    RestUnfold(m.view, k, cur);
  }

  lemma RowSent(m: Message, before: seq<byte>, s1: seq<byte>, s2: seq<byte>, done: seq<byte>, k: nat, cur: nat,
                option: nat, count: nat)
    requires Sending(m, before, s1, done, k, cur, option, count) && k < |ORDER| && cur < ORDER[k]
    requires var row := EncodeRow(cur, ORDER[k], Values(m.view, ORDER[k]));
             option + |row| <= |s1| && s2 == Overwrite(s1, option, row)
    ensures var n := ORDER[k];
            var row := EncodeRow(cur, n, Values(m.view, n));
            Sending(m, before, s2, done + row, k + 1, if Values(m.view, n) == [] then cur else n, option + |row|,
                    count + RowCount(cur, n, Values(m.view, n)))
  {
    hide ORDER, Rest, CountFrom, Encode0, EncodeRow, Values, Overwrite, Passed, RowCount;
    RestUnfold(m.view, k, cur);
    var n := ORDER[k];
    var row := EncodeRow(cur, n, Values(m.view, n));
    var next := if Values(m.view, n) == [] then cur else n;
    Appended(before, COAP_HEADER_LEN, done, row, s1, s2);
    assert done + (row + Rest(m.view, k + 1, next)) == done + row + Rest(m.view, k + 1, next);
  }

  lemma AllSent(m: Message, before: seq<byte>, after: seq<byte>, done: seq<byte>, cur: nat, option: nat, count: nat)
    requires Sending(m, before, after, done, |ORDER|, cur, option, count)
    ensures done == Encode0(m) && count == m.Count() && option == COAP_HEADER_LEN + |Encode0(m)| <= |before| == |after|
    ensures after == Overwrite(before, COAP_HEADER_LEN, Encode0(m))
  {
    hide Encode0, Overwrite, ORDER, Values;
    assert Rest(m.view, |ORDER|, cur) == [];
    assert done + [] == done;
  }

  method WriteHeader(m: Message, count: nat, buffer: array<byte>)
    requires m.typ < 4 && m.mid < 0x1_0000 && COAP_HEADER_LEN <= buffer.Length
    modifies buffer
    ensures buffer[..] == Overwrite(old(buffer[..]), 0, HeaderBytes(m.typ, count, m.code, m.mid))
  {
    buffer[0] := (64 + 16 * m.typ + count % 16) as byte;
    buffer[1] := m.code;
    buffer[2] := (m.mid / 256) as byte;
    buffer[3] := (m.mid % 256) as byte;
  }

  /** coap_serialize_message: zero when the options do not fit the header limit, otherwise the length of the datagram,
      which then stands at the start of the buffer. */
  method Serialize(m: Message, buffer: array<byte>) returns (length: nat)
    requires m.Valid() && COAP_HEADER_LEN + |Encode0(m)| <= buffer.Length
    requires COAP_HEADER_LEN + |Encode0(m)| <= COAP_MAX_HEADER_SIZE ==>
               COAP_HEADER_LEN + |Encode0(m)| + |m.payload| <= buffer.Length
    modifies buffer
    ensures COAP_HEADER_LEN + |Encode0(m)| > COAP_MAX_HEADER_SIZE ==> length == 0
    ensures COAP_HEADER_LEN + |Encode0(m)| <= COAP_MAX_HEADER_SIZE ==>
              length == |Serialized(m)| <= buffer.Length && buffer[..] == Overwrite(old(buffer[..]), 0, Serialized(m))
  {
    hide *;
    ghost var before := buffer[..];
    ghost var done: seq<byte> := [];
    SendingBegins(m, before);
    ValidFacts(m);
    var k, cur: nat, option: nat, count: nat := 0, 0, COAP_HEADER_LEN, 0;
    while k < |ORDER|
      invariant k <= |ORDER| && Sending(m, before, buffer[..], done, k, cur, option, count)
    {
      ghost var s1 := buffer[..];
      RowFits(m, before, s1, done, k, cur, option, count);
      var i, c, next := SerializeOption(m.view, k, cur, buffer, option);
      RowSent(m, before, s1, buffer[..], done, k, cur, option, count);
      done := done + EncodeRow(cur, ORDER[k], Values(m.view, ORDER[k]));
      k, cur, option, count := k + 1, next, option + i, count + c;
    }
    AllSent(m, before, buffer[..], done, cur, option, count);
    if option <= COAP_MAX_HEADER_SIZE {
      ghost var s1 := buffer[..];
      Copy(m.payload, buffer, option);
      ghost var s2 := buffer[..];
      WriteHeader(m, count, buffer);
      length := option + |m.payload|;
      Assembled(m, before, s1, s2, buffer[..]);
    } else {
      length := 0;
    }
  }

  lemma ValidFacts(m: Message)
    requires m.Valid()
    ensures Typed(m.view) && m.typ < 4 && m.mid < 0x1_0000 && COAP_HEADER_LEN == 4
  {
  }

  lemma Assembled(m: Message, before: seq<byte>, s1: seq<byte>, s2: seq<byte>, s3: seq<byte>)
    requires m.Valid() && COAP_HEADER_LEN + |Encode0(m)| + |m.payload| <= |before|
    requires s1 == Overwrite(before, COAP_HEADER_LEN, Encode0(m))
    requires s2 == Overwrite(s1, COAP_HEADER_LEN + |Encode0(m)|, m.payload)
    requires s3 == Overwrite(s2, 0, HeaderBytes(m.typ, m.Count(), m.code, m.mid))
    ensures |Serialized(m)| == COAP_HEADER_LEN + |Encode0(m)| + |m.payload| <= |before|
    ensures s3 == Overwrite(before, 0, Serialized(m))
  {
    hide OptionsFrom, CountFrom, Encode, Typed;
    OptionsAscending(m);
    assert Serialized(m) == HeaderBytes(m.typ, m.Count(), m.code, m.mid) + Encode0(m) + m.payload;
    hide Serialized, HeaderBytes, Encode0;
  }
}
