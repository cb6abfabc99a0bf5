/** Messages with more options than the four-bit count can tell: the parser stops early, takes the remaining options for
    payload, and some field of the sender is missing. */
module CoapCount {
  import opened Bytes
  import opened CoapWire
  import opened CoapMessage
  import opened CoapFields

  // ----- the values of one option among those written

  lemma {:induction false} ValuesConcat(a: seq<Opt>, b: seq<Opt>, n: nat)
    ensures ValuesOf(a + b, n) == ValuesOf(a, n) + ValuesOf(b, n)
    decreases |a|
  {
    if a == [] {
      assert a + b == b;
    } else {
      assert (a + b)[1..] == a[1..] + b;
      ValuesConcat(a[1..], b, n);
    }
  }

  lemma {:induction false} OtherNumbers(opts: seq<Opt>, n: nat)
    requires forall i :: 0 <= i < |opts| ==> opts[i].number != n
    ensures ValuesOf(opts, n) == []
    decreases |opts|
  {
    if opts != [] {
      OtherNumbers(opts[1..], n);
    }
  }

  lemma {:induction false} RepeatedValues(m: nat, values: seq<seq<byte>>, n: nat)
    ensures ValuesOf(Repeated(m, values), n) == if m == n then values else []
    decreases |values|
  {
    if values != [] {
      assert Repeated(m, values)[1..] == Repeated(m, values[1..]);
      RepeatedValues(m, values[1..], n);
    }
  }

  lemma PostsValues(cur: nat, number: nat, j: nat)
    requires cur <= number && j < |ORDER|
    ensures ValuesOf(FencePosts(cur, number), ORDER[j]) == []
  {
    hide FencePosts;
    FencePostsBridge(cur, number);
    assert ORDER[j] % FENCE_POST != 0;
    OtherNumbers(FencePosts(cur, number), ORDER[j]);
  }

  /** The values written for a row of the table that is still to come; none for a row that has passed. */
  lemma {:induction false} RowValues(v: View, i: nat, cur: nat, j: nat)
    requires Passed(i, cur) && j < |ORDER|
    ensures ValuesOf(OptionsFrom(v, i, cur), ORDER[j]) == if j < i then [] else Values(v, ORDER[j])
    decreases |ORDER| - i
  {
    hide Values, FencePosts, Repeated, ValuesOf, ORDER;
    NoOptions(v, i, cur, j);
    if i < |ORDER| {
      var n := ORDER[i];
      var values := Values(v, n);
      PassedNext(i, cur);
      RowValues(v, i + 1, if values == [] then cur else n, j);
      if values != [] {
        PostsValues(cur, n, j);
        RepeatedValues(n, values, ORDER[j]);
        ValuesConcat(FencePosts(cur, n), Repeated(n, values), ORDER[j]);
        ValuesConcat(FencePosts(cur, n) + Repeated(n, values), OptionsFrom(v, i + 1, n), ORDER[j]);
      }
      DifferentRows(i, j);
    }
  }

  lemma NoOptions(v: View, i: nat, cur: nat, j: nat)
    requires j < |ORDER|
    ensures i >= |ORDER| ==> j < i && ValuesOf(OptionsFrom(v, i, cur), ORDER[j]) == []
  {
  }

  function Flat(parts: seq<seq<byte>>): seq<byte> { if parts == [] then [] else parts[0] + Flat(parts[1..]) }

  /** Pieces of 270 bytes, the last of which may be shorter. */
  ghost predicate Pieces(parts: seq<seq<byte>>) {
    forall i :: 0 <= i < |parts| ==> 0 < |parts[i]| <= 270 && (i < |parts| - 1 ==> |parts[i]| == 270)
  }

  lemma {:induction false} ChunksArePieces(s: seq<byte>)
    ensures Pieces(Chunks(s)) && Flat(Chunks(s)) == s
    decreases |s|
  {
    if 0 < |s| <= PROXY_CHUNK {
      assert [s][1..] == [];
    } else if |s| > PROXY_CHUNK {
      var rest := Chunks(s[PROXY_CHUNK..]);
      ChunksArePieces(s[PROXY_CHUNK..]);
      assert Chunks(s)[1..] == rest;
      forall i | 0 < i < |Chunks(s)| ensures Chunks(s)[i] == rest[i - 1] {
      }
    }
  }

  /** A Proxy-Uri is written in pieces of 270 bytes that make it up. */
  lemma ProxyIsCut(v: View)
    requires PROXY_URI in v.options
    ensures var pieces := ValuesOf(OptionsFrom(v, 0, 0), 3); Pieces(pieces) && Flat(pieces) == TextOf(v, 3)
  {
    hide Chunks, Flat, Pieces, OptionsFrom, ValuesOf, TextOf, Passed;
    ChunksArePieces(TextOf(v, PROXY_URI));
    FromTheStart();
    assert ORDER[2] == PROXY_URI && Values(v, PROXY_URI) == Chunks(TextOf(v, PROXY_URI));
    RowValues(v, 0, 0, 2);
  }

  lemma DifferentRows(i: nat, j: nat)
    requires i < |ORDER| && j < |ORDER|
    ensures ORDER[i] == ORDER[j] <==> i == j
  {
    if i < j {
      OrderLess(i, j);
    } else if j < i {
      OrderLess(j, i);
    }
  }

  /** The row of the option written last. */
  lemma {:induction false} LastRow(v: View, i: nat, cur: nat) returns (j: nat)
    requires OptionsFrom(v, i, cur) != []
    ensures var opts := OptionsFrom(v, i, cur);
            j < |ORDER| && Values(v, ORDER[j]) != [] && opts[|opts| - 1].number == ORDER[j]
    decreases |ORDER| - i
  {
    hide Values, FencePosts, OptionsFrom, Repeated, ORDER;
    FirstRow(v, i, cur);
    var n := ORDER[i];
    var values := Values(v, n);
    var rest := OptionsFrom(v, i + 1, if values == [] then cur else n);
    if values == [] {
      j := LastRow(v, i + 1, cur);
    } else if rest == [] {
      j := i;
      LastRepeated(FencePosts(cur, n), n, values);
    } else {
      j := LastRow(v, i + 1, n);
    }
  }

  lemma FirstRow(v: View, i: nat, cur: nat)
    requires OptionsFrom(v, i, cur) != []
    ensures i < |ORDER|
    ensures var n := ORDER[i];
            OptionsFrom(v, i, cur) == if Values(v, n) == [] then OptionsFrom(v, i + 1, cur)
                                      else FencePosts(cur, n) + Repeated(n, Values(v, n)) + OptionsFrom(v, i + 1, n)
  {
    hide Values, FencePosts, Repeated;
  }

  lemma LastRepeated(posts: seq<Opt>, n: nat, values: seq<seq<byte>>)
    requires values != []
    ensures var opts := posts + Repeated(n, values) + [];
            opts[|opts| - 1].number == n
  {
  }

  lemma {:induction false} LastHasValue(opts: seq<Opt>, n: nat)
    requires opts != [] && opts[|opts| - 1].number == n
    ensures ValuesOf(opts, n) != []
    decreases |opts|
  {
    if |opts| > 1 {
      LastHasValue(opts[1..], n);
    }
  }

  // ----- what a part of the options leaves of a field

  lemma {:induction false} FieldIsSet(v: View, opts: seq<Opt>, n: nat)
    requires ApplyAll(v, opts).Accepted?
    ensures n in ApplyAll(v, opts).view.options <==> n in v.options || ValuesOf(opts, n) != []
    decreases |opts|
  {
    hide KindOf, ParseInt, DecodeBlock, Merge, Truncate;
    if opts != [] {
      FieldIsSet(Apply(v, opts[0].number, opts[0].value).view, opts[1..], n);
    }
  }

  lemma {:induction false} AcceptIsShort(v: View, opts: seq<Opt>)
    requires ApplyAll(v, opts).Accepted?
    ensures |ApplyAll(v, opts).view.accept| <= |v.accept| + |ValuesOf(opts, ACCEPT)|
    decreases |opts|
  {
    hide KindOf, ParseInt, DecodeBlock, Merge, Truncate;
    if opts != [] {
      AcceptsIsAccept(opts[0].number);
      AcceptIsShort(Apply(v, opts[0].number, opts[0].value).view, opts[1..]);
    }
  }

  lemma {:induction false} ProxyIsRefused(v: View, opts: seq<Opt>)
    requires ValuesOf(opts, PROXY_URI) != []
    ensures ApplyAll(v, opts).Rejected?
    decreases |opts|
  {
    if opts[0].number != PROXY_URI && Apply(v, opts[0].number, opts[0].value).Accepted? {
      ProxyIsRefused(Apply(v, opts[0].number, opts[0].value).view, opts[1..]);
    }
  }

  lemma {:induction false} MergeGrows(dst: seq<byte>, parts: seq<seq<byte>>, sep: byte)
    requires dst != []
    ensures |MergeAll(dst, parts, sep)| >= |dst| + |parts|
    decreases |parts|
  {
    if parts != [] {
      MergeGrows(Merge(dst, parts[0], sep), parts[1..], sep);
    }
  }

  lemma {:induction false} MergeConcat(dst: seq<byte>, a: seq<seq<byte>>, b: seq<seq<byte>>, sep: byte)
    ensures MergeAll(dst, a + b, sep) == MergeAll(MergeAll(dst, a, sep), b, sep)
    decreases |a|
  {
    hide Merge;
    if a == [] {
      assert a + b == b;
    } else {
      assert (a + b)[1..] == a[1..] + b;
      MergeConcat(Merge(dst, a[0], sep), a[1..], b, sep);
    }
  }

  /** Joining the parts of a string never gives more than the string. */
  lemma SegmentsAreShort(s: seq<byte>, sep: byte)
    ensures |MergeAll([], Segments(s, sep), sep)| <= |s|
  {
    hide MergeAll, SafeFrom;
    if s == [] {
      NothingJoined(sep);
    } else if s[0] == sep {
      var k := SkipSlashes(s, 1);
      FirstSplit(s, sep, k);
      JoinDropped(s, sep, k, k + 1);
    } else {
      assert Segments(s, sep) == Split(s, sep, 0, 1);
      JoinSplit(s, sep, [], 0, 1);
    }
  }

  lemma NothingJoined(sep: byte)
    ensures Segments([], sep) == [[]] && MergeAll([], [[]], sep) == []
  {
    assert MergeAll([], [[]], sep) == MergeAll([], [], sep);
  }

  lemma FirstSplit(s: seq<byte>, sep: byte, k: nat)
    requires s != [] && s[0] == sep && k == SkipSlashes(s, 1)
    ensures MergeAll([], Segments(s, sep), sep) == MergeAll([], Split(s, sep, k, k + 1), sep)
  {
    var rest := Split(s, sep, k, k + 1);
    assert Segments(s, sep) == [s[0..0]] + rest && s[0..0] == [];
    hide Split;
    MergeFirst([], [], rest, sep);
  }

  /** Fewer parts than the string was split into never join to the string. */
  lemma FewerParts(s: seq<byte>, sep: byte, a: seq<seq<byte>>, b: seq<seq<byte>>)
    requires Segments(s, sep) == a + b && a != [] && b != []
    ensures MergeAll([], a, sep) != s
  {
    hide Split, MergeAll;
    assert |a + b| == |a| + |b|;
    SegmentsAreShort(s, sep);
    MergeConcat([], a, b, sep);
    var joined := MergeAll([], a, sep);
    if joined != [] {
      MergeGrows(joined, b, sep);
    } else if s == [] {
      NothingJoined(sep);
    }
  }

  // ----- too many options

  /** A field of which only some values have been received differs from the sender's. */
  lemma PartialFieldDiffers(v: View, w: View, opts: seq<Opt>, n: nat, rest: seq<seq<byte>>)
    requires Typed(v) && n in ORDER && n in v.options && ApplyAll(EMPTY_VIEW, opts) == Accepted(w)
    requires ValuesOf(opts, n) + rest == Values(v, n) && rest != []
    ensures !FieldEquals(w, v, n)
  {
    hide Segments, MergeAll, IntBytes, EncodeBlock, DecodeBlock, Chunks, ApplyAll, ValuesOf;
    FieldIsSet(EMPTY_VIEW, opts, n);
    var got := ValuesOf(opts, n);
    if got != [] {
      assert |Values(v, n)| > 1;
      match KindOf(n)
      case Joined(sep) =>
        FieldAfter(EMPTY_VIEW, opts, n, sep);
        FewerParts(TextOf(v, n), sep, got, rest);
      case Accepts =>
        AcceptsIsAccept(n);
        AcceptIsShort(EMPTY_VIEW, opts);
        assert |AcceptValues(v.accept)| == |v.accept|;
      case Proxy =>
        ProxyIsRefused(EMPTY_VIEW, opts);
      case _ =>
    }
  }

  /** Fewer options than were written leave some field different. */
  lemma FewerOptionsDiffer(v: View, k: nat)
    requires Typed(v) && k < |OptionsFrom(v, 0, 0)| && ApplyAll(EMPTY_VIEW, OptionsFrom(v, 0, 0)[..k]).Accepted?
    ensures exists j ::
              0 <= j < |ORDER| && !FieldEquals(ApplyAll(EMPTY_VIEW, OptionsFrom(v, 0, 0)[..k]).view, v, ORDER[j])
  {
    hide Values, OptionsFrom, ApplyAll, FieldEquals, Typed, ValuesOf, ORDER;
    var opts := OptionsFrom(v, 0, 0);
    var j := LastRow(v, 0, 0);
    var n := ORDER[j];
    FromTheStart();
    RowValues(v, 0, 0, j);
    ValuesConcat(opts[..k], opts[k..], n);
    assert opts[..k] + opts[k..] == opts;
    LastHasValue(opts[k..], n);
    OnlySetHaveValues(v, n);
    PartialFieldDiffers(v, ApplyAll(EMPTY_VIEW, opts[..k]).view, opts[..k], n, ValuesOf(opts[k..], n));
  }

  lemma FromTheStart()
    ensures Passed(0, 0)
  {
  }

  lemma OnlySetHaveValues(v: View, n: nat)
    ensures Values(v, n) != [] ==> n in v.options
  {
  }

  lemma {:induction false} PrefixEncoding(cur: nat, opts: seq<Opt>, k: nat, data: seq<byte>, pos: nat)
    requires Ascending(cur, opts) && Encodable(cur, opts) && k <= |opts| && At(data, pos, Encode(cur, opts))
    ensures Ascending(cur, opts[..k]) && Encodable(cur, opts[..k]) && At(data, pos, Encode(cur, opts[..k]))
    decreases k
  {
    hide EncodeOpt;
    if k > 0 {
      var o, rest := opts[0], opts[1..];
      assert opts[..k][0] == o && opts[..k][1..] == rest[..k - 1];
      AtSplit(data, pos, EncodeOpt(cur, o), Encode(o.number, rest));
      PrefixEncoding(o.number, rest, k - 1, data, pos + |EncodeOpt(cur, o)|);
      AtJoin(data, pos, EncodeOpt(cur, o), Encode(o.number, rest[..k - 1]));
    }
  }

  lemma AtJoin(s: seq<byte>, i: nat, a: seq<byte>, b: seq<byte>)
    requires At(s, i, a) && At(s, i + |a|, b)
    ensures At(s, i, a + b)
  {
    assert s[i..i + |a| + |b|] == s[i..i + |a|] + s[i + |a|..i + |a| + |b|];
  }

  /** A message whose option count does not fit its field is never delivered. */
  lemma TooManyOptionsAreNotDelivered(m: Message, chunk: nat)
    requires m.Valid() && COAP_HEADER_LEN + |Encode0(m)| <= COAP_MAX_HEADER_SIZE && m.Count() > 15
    ensures !Delivered(m, ParseMessage(Serialized(m), chunk))
  {
    hide *;
    MessageFacts(m);
    var opts, k := m.Options(), m.Count() % 16;
    OptionsClose(m.view, 0, 0);
    CloseIsAscending(0, opts);
    CountIff(m.view, 0, 0);
    PrefixEncoding(0, opts, k, Serialized(m), COAP_HEADER_LEN);
    ParseEncoded(Serialized(m), COAP_HEADER_LEN, opts[..k], 0, 0, EMPTY_VIEW);
    assert |opts[..k]| + 0 == k;
    var a := ApplyAll(EMPTY_VIEW, opts[..k]);
    if a.Accepted? {
      FewerOptionsDiffer(m.view, k);
      NoMore(Serialized(m), COAP_HEADER_LEN + |Encode(0, opts[..k])|, LastNumber(0, opts[..k]), a.view);
    }
    PartlyParsed(m, chunk, a);
  }

  lemma PartlyParsed(m: Message, chunk: nat, a: Applied)
    requires m.Valid()
    requires var parsed := ParseOptions(Serialized(m), COAP_HEADER_LEN, m.Count() % 16, 0, EMPTY_VIEW);
             if a.Accepted? then parsed.Parsed? && parsed.view == a.view else parsed.Failed?
    requires a.Accepted? ==> exists j :: 0 <= j < |ORDER| && !FieldEquals(a.view, m.view, ORDER[j])
    ensures !Delivered(m, ParseMessage(Serialized(m), chunk))
  {
    hide ParseOptions, Serialized, Typed, CountFrom, Encode0, FieldEquals, ORDER;
    SerializedHeader(m);
  }

  /** Parsing undoes serialising, for every message whose options fit the header limit, exactly when there are at most
      15 options, no Proxy-Uri, only strings that survive splitting, block sizes that are powers of two with a more flag
      of 0 or 1, and no gap of 14 or 15 between option numbers. */
  lemma DeliveredExactlyWhen(m: Message, chunk: nat)
    requires m.Valid() && FilledBySetters(m.view)
    requires COAP_HEADER_LEN + |Encode0(m)| <= COAP_MAX_HEADER_SIZE && |m.payload| <= chunk
    ensures Delivered(m, ParseMessage(Serialized(m), chunk)) <==>
            m.Count() <= 15 && GapsFrom(m.view, 0, 0) && AllTransportable(m.view)
  {
    hide *;
    if m.Count() <= 15 {
      RoundTripIff(m, chunk);
    } else {
      TooManyOptionsAreNotDelivered(m, chunk);
    }
  }
}
