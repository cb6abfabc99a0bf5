/** CoAP draft-07 messages as values: the option fields of coap_packet_t, the list of options they
    are serialised to, what parsing that list does to the fields, and the round trip. */
module CoapMessage {
  import opened Bytes
  import opened CoapWire

  const CONTENT_TYPE: nat := 1
  const MAX_AGE: nat := 2
  const PROXY_URI: nat := 3
  const ETAG: nat := 4
  const URI_HOST: nat := 5
  const LOCATION_PATH: nat := 6
  const URI_PORT: nat := 7
  const LOCATION_QUERY: nat := 8
  const URI_PATH: nat := 9
  const OBSERVE: nat := 10
  const TOKEN: nat := 11
  const ACCEPT: nat := 12
  const IF_MATCH: nat := 13
  const URI_QUERY: nat := 15
  const BLOCK2: nat := 17
  const BLOCK1: nat := 19
  const IF_NONE_MATCH: nat := 21

  const COAP_HEADER_LEN: nat := 4
  /** 4 + 3 + 5 + (1 + 8) + 3 + (1 + 8) + 4 + 10. */
  const COAP_MAX_HEADER_SIZE: nat := 47
  const ETAG_LEN: nat := 8
  const MAX_ACCEPT_NUM: nat := 2
  const AMPERSAND: byte := 0x26

  /** The cases of the two switch statements, by how the option's field is stored. */
  datatype Kind =
    | Int(wide: bool)         // a 32-bit or 16-bit unsigned field
    | Copied                  // at most eight bytes copied into the packet
    | Pointed                 // a pointer into the datagram
    | Joined(sep: byte)       // a pointer to the values of all repetitions, joined in place
    | Accepts                 // an array of at most two content types
    | Blockwise               // a Block1 or Block2 value
    | Flag
    | Fence
    | Proxy
    | Unknown

  function KindOf(number: nat): Kind {
    if number == CONTENT_TYPE || number == MAX_AGE then Int(true)
    else if number == URI_PORT || number == OBSERVE then Int(false)
    else if number == ETAG || number == TOKEN || number == IF_MATCH then Copied
    else if number == URI_HOST then Pointed
    else if number == LOCATION_PATH || number == URI_PATH then Joined(SLASH)
    else if number == LOCATION_QUERY || number == URI_QUERY then Joined(AMPERSAND)
    else if number == ACCEPT then Accepts
    else if number == BLOCK1 || number == BLOCK2 then Blockwise
    else if number == IF_NONE_MATCH then Flag
    else if number == FENCE_POST then Fence
    else if number == PROXY_URI then Proxy
    else Unknown
  }

  datatype Block = Block(num: nat, more: nat, size: nat, offset: nat)

  /** The option fields of a packet, indexed by option number, with the strings that its pointers
      point to. options is the bitmap of options that are set. */
  datatype View = View(options: set<nat>, ints: map<nat, nat>, copies: map<nat, seq<byte>>, texts: map<nat, seq<byte>>,
                       accept: seq<nat>, blocks: map<nat, Block>)

  const EMPTY_VIEW := View({}, map[], map[], map[], [], map[])

  // memset(0) leaves every field zero or empty
  function IntOf(v: View, n: nat): nat { if n in v.ints then v.ints[n] else 0 }
  function CopyOf(v: View, n: nat): seq<byte> { if n in v.copies then v.copies[n] else [] }
  function TextOf(v: View, n: nat): seq<byte> { if n in v.texts then v.texts[n] else [] }
  function BlockOf(v: View, n: nat): Block { if n in v.blocks then v.blocks[n] else Block(0, 0, 0, 0) }

  // ----- Block values

  /** 1 << e for the three-bit exponent of a block size. */
  function BlockScale(e: nat): nat
    requires e <= 7
  {
    if e == 0 then 1 else if e == 1 then 2 else if e == 2 then 4 else if e == 3 then 8
    else if e == 4 then 16 else if e == 5 then 32 else if e == 6 then 64 else 128
  }

  /** coap_log_2: the position of the highest bit. */
  function Log2(v: nat): nat { if v < 2 then 0 else 1 + Log2(v / 2) }

  /** num << 4 | (more ? 0x8 : 0) | (0xF & log2(size / 16)), in 32 bits. */
  function EncodeBlock(b: Block): word {
    var low := Log2(b.size / 16) % 16;
    b.num % 0x1000_0000 * 16 + low + (if b.more != 0 && low < 8 then 8 else 0)
  }

  function DecodeBlock(w: word): Block {
    Block(w / 16, w / 8 % 2, 16 * BlockScale(w % 8), BlockOffset(w / 16, w % 8))
  }

  /** (value & ~0xF) << exponent, in 32 bits. */
  function BlockOffset(num: nat, e: nat): nat
    requires e <= 7
  {
    BlockScale(e) * (num * 16) % 0x1_0000_0000
  }

  /** What coap_set_header_block2 accepts; it also turns more into 0 or 1, which block1 does not. */
  predicate BlockInRange(b: Block) { b.num <= 0xF_FFFF && 16 <= b.size <= 2048 }

  predicate PowerOfTwoSize(size: nat) {
    size == 16 || size == 32 || size == 64 || size == 128 || size == 256 || size == 512 || size == 1024 || size == 2048
  }

  lemma {:induction false} LogTable(v: nat)
    requires 1 <= v < 256
    ensures Log2(v) == if v < 2 then 0 else if v < 4 then 1 else if v < 8 then 2 else if v < 16 then 3
                       else if v < 32 then 4 else if v < 64 then 5 else if v < 128 then 6 else 7
    decreases v
  {
    if v >= 2 {
      LogTable(v / 2);
    }
  }

  lemma LogOfSize(size: nat)
    requires 16 <= size <= 2048
    ensures Log2(size / 16) <= 7
    ensures 16 * BlockScale(Log2(size / 16)) == size <==> PowerOfTwoSize(size)
  {
    LogTable(size / 16);
  }

  lemma BlockWord(b: Block)
    requires BlockInRange(b)
    ensures EncodeBlock(b) == b.num * 16 + (if b.more != 0 then 8 else 0) + Log2(b.size / 16) && Log2(b.size / 16) <= 7
  {
    LogOfSize(b.size);
    hide Log2, BlockScale, PowerOfTwoSize;
    assert Log2(b.size / 16) % 16 == Log2(b.size / 16);
    assert b.num % 0x1000_0000 == b.num;
  }

  lemma SplitWord(num: nat, more: nat, e: nat)
    requires more <= 1 && e <= 7
    ensures var w := num * 16 + more * 8 + e;
            w % 8 == e && w / 16 == num && w / 8 % 2 == more
  {
    var w := num * 16 + more * 8 + e;
    assert w / 8 == 2 * num + more;
  }

  lemma OffsetValue(num: nat, e: nat)
    requires num <= 0xF_FFFF && e <= 7
    ensures BlockOffset(num, e) == num * (16 * BlockScale(e)) < 0x8000_0000
  {
    var p := BlockScale(e);
    assert p == 1 || p == 2 || p == 4 || p == 8 || p == 16 || p == 32 || p == 64 || p == 128;
    hide BlockScale;
    assert p * (num * 16) == num * (16 * p) < 0x8000_0000;
  }

  lemma DecodeWord(num: nat, more: nat, e: nat)
    requires num <= 0xF_FFFF && more <= 1 && e <= 7
    ensures DecodeBlock(num * 16 + more * 8 + e) == Block(num, more, 16 * BlockScale(e), num * (16 * BlockScale(e)))
  {
    OffsetValue(num, e);
    SplitWord(num, more, e);
    hide BlockScale, BlockOffset;
  }

  /** A Block value keeps number and more flag, and keeps the size exactly when it is a power of two;
      the offset the receiver computes is number times size and stays below 2^31. */
  lemma BlockRoundTrip(b: Block)
    requires BlockInRange(b)
    ensures var r := DecodeBlock(EncodeBlock(b));
            && r.num == b.num && r.more == (if b.more != 0 then 1 else 0)
            && (r.size == b.size <==> PowerOfTwoSize(b.size))
            && r.offset == b.num * r.size < 0x8000_0000
  {
    hide Log2, BlockScale, EncodeBlock, DecodeBlock, PowerOfTwoSize, BlockOffset;
    BlockWord(b);
    LogOfSize(b.size);
    DecodeWord(b.num, if b.more != 0 then 1 else 0, Log2(b.size / 16));
    OffsetValue(b.num, Log2(b.size / 16));
  }

  // ----- receiving one option

  datatype Applied = Accepted(view: View) | Rejected(status: nat)

  const BAD_REQUEST_4_00: nat := 128
  const BAD_OPTION_4_02: nat := 130
  const PROXYING_NOT_SUPPORTED_5_05: nat := 165

  function Truncate(s: seq<byte>, n: nat): seq<byte> { if |s| <= n then s else s[..n] }

  /** The body of coap_parse_message's loop, after the option's header has been read. */
  function Apply(v: View, number: nat, value: seq<byte>): Applied {
    var w := v.(options := v.options + {number});
    match KindOf(number)
    case Int(wide) =>
      Accepted(w.(ints := v.ints[number := if wide then ParseInt(value) else ParseInt(value) % 0x1_0000]))
    case Copied => Accepted(w.(copies := v.copies[number := Truncate(value, ETAG_LEN)]))
    case Pointed => Accepted(w.(texts := v.texts[number := value]))
    case Joined(sep) => Accepted(w.(texts := v.texts[number := Merge(TextOf(v, number), value, sep)]))
    case Accepts =>
      Accepted(if |v.accept| < MAX_ACCEPT_NUM then w.(accept := v.accept + [ParseInt(value) % 0x1_0000]) else w)
    case Blockwise => Accepted(w.(blocks := v.blocks[number := DecodeBlock(ParseInt(value))]))
    case Flag => Accepted(w)
    case Fence => Accepted(w)
    case Proxy => Rejected(PROXYING_NOT_SUPPORTED_5_05)
    case Unknown => if number % 2 == 1 then Rejected(BAD_OPTION_4_02) else Accepted(w)
  }

  function ApplyAll(v: View, opts: seq<Opt>): Applied
    decreases |opts|
  {
    if opts == [] then Accepted(v) else
    match Apply(v, opts[0].number, opts[0].value)
    case Rejected(status) => Rejected(status)
    case Accepted(w) => ApplyAll(w, opts[1..])
  }

  lemma {:induction false} ApplyConcat(v: View, a: seq<Opt>, b: seq<Opt>)
    ensures ApplyAll(v, a + b) ==
            match ApplyAll(v, a)
            case Rejected(status) => Rejected(status)
            case Accepted(w) => ApplyAll(w, b)
    decreases |a|
  {
    if a == [] {
      assert a + b == b;
    } else {
      assert (a + b)[1..] == a[1..] + b;
      match Apply(v, a[0].number, a[0].value)
      case Rejected(_) =>
      case Accepted(w) => ApplyConcat(w, a[1..], b);
    }
  }

  // ----- parsing the options of a datagram

  /** Overread: an option reaches past the datagram, where the C code goes on with whatever the
      packet buffer holds. */
  datatype ParseResult = Overread | Failed(status: nat) | Parsed(view: View, end: nat)

  function HeaderLength(b: byte): nat { if b as int % 16 < 15 then 1 else 2 }

  function ParseOptions(data: seq<byte>, pos: nat, count: nat, cur: nat, v: View): ParseResult
    decreases count
  {
    if count == 0 then Parsed(v, pos)
    else if pos >= |data| || pos + HeaderLength(data[pos]) > |data| then Overread
    else
      var number := cur + data[pos] as int / 16;
      var length := if data[pos] as int % 16 < 15 then data[pos] as int % 16 else data[pos + 1] as int + 15;
      var start := pos + HeaderLength(data[pos]);
      if start + length > |data| then Overread else
      match Apply(v, number, data[start..start + length])
      case Rejected(status) => Failed(status)
      case Accepted(w) => ParseOptions(data, start + length, count - 1, number, w)
  }

  lemma ReadHeader(data: seq<byte>, pos: nat, cur: nat, o: Opt)
    requires cur <= o.number <= cur + 15 && |o.value| <= 270 && At(data, pos, EncodeOpt(cur, o))
    ensures pos < |data| && pos + HeaderLength(data[pos]) <= |data|
    ensures cur + data[pos] as int / 16 == o.number
    ensures (if data[pos] as int % 16 < 15 then data[pos] as int % 16 else data[pos + 1] as int + 15) == |o.value|
    ensures HeaderLength(data[pos]) == |Header(o.number - cur, |o.value|)|
    ensures At(data, pos + HeaderLength(data[pos]), o.value)
  {
    var h := Header(o.number - cur, |o.value|);
    AtSplit(data, pos, h, o.value);
    assert data[pos] == data[pos..pos + |h|][0] == h[0];
    if |h| == 2 {
      assert data[pos + 1] == data[pos..pos + 2][1] == h[1];
    }
  }

  lemma ParseStep(data: seq<byte>, pos: nat, count: nat, cur: nat, o: Opt, v: View)
    requires cur <= o.number <= cur + 15 && |o.value| <= 270 && At(data, pos, EncodeOpt(cur, o)) && count > 0
    ensures ParseOptions(data, pos, count, cur, v) ==
            match Apply(v, o.number, o.value)
            case Rejected(status) => Failed(status)
            case Accepted(w) => ParseOptions(data, pos + |EncodeOpt(cur, o)|, count - 1, o.number, w)
  {
    hide Apply, Header, EncodeOpt;
    ReadHeader(data, pos, cur, o);
    EncodeOptLength(cur, o);
  }

  lemma EncodeOptLength(cur: nat, o: Opt)
    requires cur <= o.number
    ensures |EncodeOpt(cur, o)| == |Header(o.number - cur, |o.value|)| + |o.value|
  {
  }

  /** Parsing undoes encoding, whatever follows: the parser reads exactly the encoded options, applies
      them in order, and goes on behind them. */
  lemma {:induction false} ParseEncoded(data: seq<byte>, pos: nat, opts: seq<Opt>, more: nat, cur: nat, v: View)
    requires Ascending(cur, opts) && Encodable(cur, opts) && At(data, pos, Encode(cur, opts))
    ensures ParseOptions(data, pos, |opts| + more, cur, v) ==
            match ApplyAll(v, opts)
            case Rejected(status) => Failed(status)
            case Accepted(w) => ParseOptions(data, pos + |Encode(cur, opts)|, more, LastNumber(cur, opts), w)
    decreases |opts|
  {
    hide *;
    Unfold(cur, opts, v);
    if opts != [] {
      var o, rest := opts[0], opts[1..];
      AtSplit(data, pos, EncodeOpt(cur, o), Encode(o.number, rest));
      ParseStep(data, pos, |opts| + more, cur, o, v);
      var applied := Apply(v, o.number, o.value);
      if applied.Accepted? {
        ParseEncoded(data, pos + |EncodeOpt(cur, o)|, rest, more, o.number, applied.view);
      }
    }
  }

  lemma Unfold(cur: nat, opts: seq<Opt>, v: View)
    requires Ascending(cur, opts) && Encodable(cur, opts)
    ensures opts == [] ==> Encode(cur, opts) == [] && LastNumber(cur, opts) == cur && ApplyAll(v, opts) == Accepted(v)
    ensures opts != [] ==>
              var o, rest := opts[0], opts[1..];
              && cur <= o.number <= cur + 15 && |o.value| <= 270 && Ascending(o.number, rest)
              && Encodable(o.number, rest)
              && Encode(cur, opts) == EncodeOpt(cur, o) + Encode(o.number, rest)
              && LastNumber(cur, opts) == LastNumber(o.number, rest)
              && ApplyAll(v, opts) ==
                 (var a := Apply(v, o.number, o.value); if a.Rejected? then a else ApplyAll(a.view, rest))
  {
    hide Apply, EncodeOpt;
  }

  // ----- sending: the options a packet is serialised to

  const ORDER: seq<nat> := [CONTENT_TYPE, MAX_AGE, PROXY_URI, ETAG, URI_HOST, LOCATION_PATH, URI_PORT, LOCATION_QUERY,
                            URI_PATH, OBSERVE, TOKEN, ACCEPT, IF_MATCH, URI_QUERY, BLOCK2, BLOCK1, IF_NONE_MATCH]

  const PROXY_CHUNK: nat := 270

  function Chunks(s: seq<byte>): seq<seq<byte>> {
    if s == [] then [] else if |s| <= PROXY_CHUNK then [s] else [s[..PROXY_CHUNK]] + Chunks(s[PROXY_CHUNK..])
  }

  function AcceptValues(accept: seq<nat>): seq<seq<byte>> {
    seq(|accept|, i requires 0 <= i < |accept| => IntBytes(accept[i]))
  }

  /** The values coap_serialize_message writes for one option number. */
  function Values(v: View, n: nat): seq<seq<byte>> {
    if n !in v.options then [] else
    match KindOf(n)
    case Int(_) => [IntBytes(IntOf(v, n))]
    case Copied => [CopyOf(v, n)]
    case Pointed => [TextOf(v, n)]
    case Joined(sep) => Segments(TextOf(v, n), sep)
    case Accepts => AcceptValues(v.accept)
    case Blockwise => [IntBytes(EncodeBlock(BlockOf(v, n)))]
    case Flag => [[]]
    case Proxy => Chunks(TextOf(v, n))
    case _ => []
  }

  function Repeated(n: nat, values: seq<seq<byte>>): (opts: seq<Opt>)
    ensures |opts| == |values|
  {
    seq(|values|, i requires 0 <= i < |values| => Opt(n, values[i]))
  }

  /** The options written from the i-th row of the table on, after option number cur. */
  function OptionsFrom(v: View, i: nat, cur: nat): seq<Opt>
    decreases |ORDER| - i
  {
    if i >= |ORDER| then [] else
    var n := ORDER[i];
    var values := Values(v, n);
    if values == [] then OptionsFrom(v, i + 1, cur)
    else FencePosts(cur, n) + Repeated(n, values) + OptionsFrom(v, i + 1, n)
  }

  /** The option count the serialiser adds up meanwhile. */
  function CountFrom(v: View, i: nat, cur: nat): nat
    decreases |ORDER| - i
  {
    if i >= |ORDER| then 0 else
    var n := ORDER[i];
    var values := Values(v, n);
    if values == [] then CountFrom(v, i + 1, cur)
    else |values| + (if n >= 15 && n >= cur then (n - cur) / FENCE_POST else 0) + CountFrom(v, i + 1, n)
  }

  /** No two consecutive option numbers, starting from cur, are 14 or 15 apart. */
  predicate GapsFrom(v: View, i: nat, cur: nat)
    decreases |ORDER| - i
  {
    if i >= |ORDER| then true else
    var n := ORDER[i];
    if Values(v, n) == [] then GapsFrom(v, i + 1, cur)
    else n != cur + 14 && n != cur + 15 && GapsFrom(v, i + 1, n)
  }

  /** cur is a number the table has already passed. */
  predicate Passed(i: nat, cur: nat) { cur <= 21 && (i < |ORDER| ==> cur < ORDER[i]) }

  lemma PassedNext(i: nat, cur: nat)
    requires i < |ORDER| && Passed(i, cur)
    ensures Passed(i + 1, cur) && Passed(i + 1, ORDER[i]) && cur < ORDER[i] <= 21
  {
  }

  /** The count agrees with the options written exactly when no gap is 14 or 15; otherwise it is one
      too high. */
  lemma {:induction false} CountIff(v: View, i: nat, cur: nat)
    requires Passed(i, cur)
    ensures CountFrom(v, i, cur) == |OptionsFrom(v, i, cur)| + if GapsFrom(v, i, cur) then 0 else 1
    ensures cur >= 8 ==> GapsFrom(v, i, cur)
    decreases |ORDER| - i
  {
    if i < |ORDER| {
      var n := ORDER[i];
      PassedNext(i, cur);
      FencePostCountIff(cur, n);
      CountIff(v, i + 1, if Values(v, n) == [] then cur else n);
    }
  }

  // ----- the options written can be encoded

  predicate Close(cur: nat, opts: seq<Opt>)
    decreases |opts|
  {
    opts == [] || (cur <= opts[0].number <= cur + 15 && Close(opts[0].number, opts[1..]))
  }

  lemma {:induction false} CloseConcat(cur: nat, a: seq<Opt>, b: seq<Opt>)
    requires Close(cur, a) && Close(LastNumber(cur, a), b)
    ensures Close(cur, a + b) && LastNumber(cur, a + b) == LastNumber(LastNumber(cur, a), b)
    decreases |a|
  {
    if a == [] {
      assert a + b == b;
    } else {
      assert (a + b)[1..] == a[1..] + b;
      assert LastNumber(a[0].number, a[1..]) == LastNumber(cur, a);
      CloseConcat(a[0].number, a[1..], b);
    }
  }

  lemma {:induction false} CloseIsAscending(cur: nat, opts: seq<Opt>)
    requires Close(cur, opts)
    ensures Ascending(cur, opts)
    ensures |Encode(cur, opts)| <= 270 ==> Encodable(cur, opts)
    ensures |opts| <= |Encode(cur, opts)|
    decreases |opts|
  {
    if opts != [] {
      CloseIsAscending(opts[0].number, opts[1..]);
    }
  }

  lemma {:induction false} EncodableIsClose(cur: nat, opts: seq<Opt>)
    requires Encodable(cur, opts)
    ensures Close(cur, opts)
    decreases |opts|
  {
    if opts != [] {
      EncodableIsClose(opts[0].number, opts[1..]);
    }
  }

  lemma {:induction false} RepeatedClose(cur: nat, n: nat, values: seq<seq<byte>>)
    requires cur <= n <= cur + 15
    ensures Close(cur, Repeated(n, values)) && (values != [] ==> LastNumber(cur, Repeated(n, values)) == n)
    decreases |values|
  {
    if values != [] {
      assert Repeated(n, values)[1..] == Repeated(n, values[1..]);
      RepeatedClose(n, n, values[1..]);
    }
  }

  lemma {:induction false} OptionsClose(v: View, i: nat, cur: nat)
    requires Passed(i, cur)
    ensures Close(cur, OptionsFrom(v, i, cur))
    decreases |ORDER| - i
  {
    if i < |ORDER| {
      var n := ORDER[i];
      var values := Values(v, n);
      PassedNext(i, cur);
      if values == [] {
        OptionsClose(v, i + 1, cur);
      } else {
        OptionsClose(v, i + 1, n);
        var posts := FencePosts(cur, n);
        FencePostsBridge(cur, n);
        EncodableIsClose(cur, posts);
        RepeatedClose(LastNumber(cur, posts), n, values);
        CloseConcat(cur, posts, Repeated(n, values));
        CloseConcat(cur, posts + Repeated(n, values), OptionsFrom(v, i + 1, n));
      }
    }
  }

  // ----- what the receiver's fields hold after the options of a packet

  /** The field widths of coap_packet_t. */
  predicate Typed(v: View) {
    && IntOf(v, CONTENT_TYPE) < 0x1_0000_0000 && IntOf(v, MAX_AGE) < 0x1_0000_0000
    && IntOf(v, URI_PORT) < 0x1_0000 && IntOf(v, OBSERVE) < 0x1_0000
    && |CopyOf(v, ETAG)| <= ETAG_LEN && |CopyOf(v, TOKEN)| <= ETAG_LEN && |CopyOf(v, IF_MATCH)| <= ETAG_LEN
    && |v.accept| <= MAX_ACCEPT_NUM && forall i :: 0 <= i < |v.accept| ==> v.accept[i] < 0x1_0000
  }

  ghost predicate Same(r: View, w: View, m: nat) {
    && (m in r.options <==> m in w.options)
    && IntOf(r, m) == IntOf(w, m) && CopyOf(r, m) == CopyOf(w, m) && TextOf(r, m) == TextOf(w, m)
    && BlockOf(r, m) == BlockOf(w, m) && (m == ACCEPT ==> r.accept == w.accept)
  }

  /** Only the field of option n differs. */
  ghost predicate OnlyChanges(r: View, w: View, n: nat) { forall m :: m != n ==> Same(r, w, m) }

  ghost predicate Fresh(r: View, n: nat) { n !in r.options && TextOf(r, n) == [] && (n == ACCEPT ==> r.accept == []) }

  /** The receiver's field for option n holds what the sender's packet v makes of it. */
  ghost predicate FieldReceived(r: View, v: View, n: nat) {
    && (n in r.options <==> Values(v, n) != [])
    && (n in r.options ==>
          match KindOf(n)
          case Int(_) => IntOf(r, n) == IntOf(v, n)
          case Copied => CopyOf(r, n) == CopyOf(v, n)
          case Pointed => TextOf(r, n) == TextOf(v, n)
          case Joined(sep) => TextOf(r, n) == MergeAll([], Segments(TextOf(v, n), sep), sep)
          case Accepts => r.accept == v.accept
          case Blockwise => BlockOf(r, n) == DecodeBlock(EncodeBlock(BlockOf(v, n)))
          case _ => true)
  }

  lemma ApplyOnlyChanges(r: View, n: nat, value: seq<byte>)
    requires Apply(r, n, value).Accepted?
    ensures OnlyChanges(r, Apply(r, n, value).view, n)
  {
    hide ParseInt, Merge, DecodeBlock, Truncate, KindOf;
    AcceptsIsAccept(n);
  }

  lemma AcceptsIsAccept(n: nat)
    ensures KindOf(n) == Accepts ==> n == ACCEPT
  {
  }

  lemma OnlyChangesTrans(r: View, w: View, u: View, n: nat)
    requires OnlyChanges(r, w, n) && OnlyChanges(w, u, n)
    ensures OnlyChanges(r, u, n)
  {
    forall m | m != n ensures Same(r, u, m) {
      assert Same(r, w, m) && Same(w, u, m);
    }
  }

  /** The first of several options with the same number. */
  lemma RepeatedApplied(r: View, n: nat, values: seq<seq<byte>>)
    ensures values == [] ==> ApplyAll(r, Repeated(n, values)) == Accepted(r)
    ensures values != [] ==>
              ApplyAll(r, Repeated(n, values)) ==
              (var a := Apply(r, n, values[0]); if a.Rejected? then a else ApplyAll(a.view, Repeated(n, values[1..])))
  {
    if values != [] {
      assert Repeated(n, values)[1..] == Repeated(n, values[1..]);
    }
    hide Apply;
  }

  lemma JoinedStep(r: View, n: nat, part: seq<byte>, sep: byte)
    requires KindOf(n) == Joined(sep)
    ensures var a := Apply(r, n, part);
            && a.Accepted? && OnlyChanges(r, a.view, n) && n in a.view.options
            && TextOf(a.view, n) == Merge(TextOf(r, n), part, sep)
  {
    ApplyOnlyChanges(r, n, part);
  }

  lemma {:induction false} JoinedApplied(r: View, n: nat, parts: seq<seq<byte>>, sep: byte)
    requires KindOf(n) == Joined(sep)
    ensures var a := ApplyAll(r, Repeated(n, parts));
            && a.Accepted? && OnlyChanges(r, a.view, n)
            && TextOf(a.view, n) == MergeAll(TextOf(r, n), parts, sep)
            && (n in a.view.options <==> n in r.options || parts != [])
    decreases |parts|
  {
    hide Apply, ApplyAll, Repeated, OnlyChanges, Merge, TextOf;
    RepeatedApplied(r, n, parts);
    if parts == [] {
      OnlyChangesRefl(r, n);
    } else {
      JoinedStep(r, n, parts[0], sep);
      var w := Apply(r, n, parts[0]).view;
      JoinedApplied(w, n, parts[1..], sep);
      OnlyChangesTrans(r, w, ApplyAll(w, Repeated(n, parts[1..])).view, n);
    }
  }

  lemma OnlyChangesRefl(r: View, n: nat)
    ensures OnlyChanges(r, r, n)
  {
  }

  lemma AcceptStep(r: View, a: nat)
    requires |r.accept| < MAX_ACCEPT_NUM && a < 0x1_0000
    ensures var x := Apply(r, ACCEPT, IntBytes(a));
            && x.Accepted? && OnlyChanges(r, x.view, ACCEPT) && ACCEPT in x.view.options
            && x.view.accept == r.accept + [a]
  {
    hide IntBytes, ParseInt, OnlyChanges;
    IntRoundTrip(a);
    ApplyOnlyChanges(r, ACCEPT, IntBytes(a));
  }

  lemma {:induction false} AcceptApplied(r: View, accept: seq<nat>)
    requires |r.accept| + |accept| <= MAX_ACCEPT_NUM && forall i :: 0 <= i < |accept| ==> accept[i] < 0x1_0000
    ensures var a := ApplyAll(r, Repeated(ACCEPT, AcceptValues(accept)));
            && a.Accepted? && OnlyChanges(r, a.view, ACCEPT) && a.view.accept == r.accept + accept
            && (ACCEPT in a.view.options <==> ACCEPT in r.options || accept != [])
    decreases |accept|
  {
    hide Apply, ApplyAll, Repeated, OnlyChanges, IntBytes;
    var values := AcceptValues(accept);
    RepeatedApplied(r, ACCEPT, values);
    if accept == [] {
      OnlyChangesRefl(r, ACCEPT);
    } else {
      assert values[0] == IntBytes(accept[0]) && values[1..] == AcceptValues(accept[1..]);
      AcceptStep(r, accept[0]);
      var w := Apply(r, ACCEPT, values[0]).view;
      AcceptApplied(w, accept[1..]);
      OnlyChangesTrans(r, w, ApplyAll(w, Repeated(ACCEPT, values[1..])).view, ACCEPT);
      assert [accept[0]] + accept[1..] == accept;
    }
  }

  lemma SingleApplied(r: View, n: nat, value: seq<byte>)
    ensures ApplyAll(r, Repeated(n, [value])) == Apply(r, n, value)
  {
    hide Apply;
    RepeatedApplied(r, n, [value]);
    if Apply(r, n, value).Accepted? {
      RepeatedApplied(Apply(r, n, value).view, n, []);
    }
  }

  lemma IntSent(r: View, v: View, n: nat)
    requires Typed(v) && KindOf(n).Int? && n in v.options
    ensures var a := Apply(r, n, IntBytes(IntOf(v, n)));
            a.Accepted? && OnlyChanges(r, a.view, n) && n in a.view.options && IntOf(a.view, n) == IntOf(v, n)
  {
    hide IntBytes, ParseInt, OnlyChanges;
    IntRoundTrip(IntOf(v, n));
    ApplyOnlyChanges(r, n, IntBytes(IntOf(v, n)));
  }

  lemma BlockSent(r: View, v: View, n: nat)
    requires KindOf(n) == Blockwise && n in v.options
    ensures var a := Apply(r, n, IntBytes(EncodeBlock(BlockOf(v, n))));
            a.Accepted? && OnlyChanges(r, a.view, n) && n in a.view.options
            && BlockOf(a.view, n) == DecodeBlock(EncodeBlock(BlockOf(v, n)))
  {
    hide IntBytes, ParseInt, EncodeBlock, DecodeBlock, OnlyChanges;
    IntRoundTrip(EncodeBlock(BlockOf(v, n)));
    ApplyOnlyChanges(r, n, IntBytes(EncodeBlock(BlockOf(v, n))));
  }

  lemma StringSent(r: View, v: View, n: nat)
    requires Typed(v) && n in v.options
    requires KindOf(n) == Copied || KindOf(n) == Pointed || KindOf(n) == Flag
    ensures var a := Apply(r, n, Values(v, n)[0]);
            a.Accepted? && OnlyChanges(r, a.view, n) && FieldReceived(a.view, v, n)
  {
    ApplyOnlyChanges(r, n, Values(v, n)[0]);
  }

  /** One row of the table, sent and received. */
  lemma GroupApplied(r: View, v: View, n: nat)
    requires Typed(v) && n != PROXY_URI && KindOf(n) != Unknown && Fresh(r, n)
    ensures var a := ApplyAll(r, Repeated(n, Values(v, n)));
            a.Accepted? && OnlyChanges(r, a.view, n) && FieldReceived(a.view, v, n)
  {
    hide Apply, ApplyAll, Repeated, OnlyChanges, MergeAll, Segments, EncodeBlock, DecodeBlock, IntBytes;
    if Values(v, n) == [] {
      RepeatedApplied(r, n, []);
      OnlyChangesRefl(r, n);
    } else {
      match KindOf(n)
      case Int(_) => IntSent(r, v, n); SingleApplied(r, n, IntBytes(IntOf(v, n)));
      case Joined(sep) => JoinedApplied(r, n, Values(v, n), sep);
      case Accepts => AcceptApplied(r, v.accept);
      case Blockwise => BlockSent(r, v, n); SingleApplied(r, n, IntBytes(EncodeBlock(BlockOf(v, n))));
      case Copied => StringSent(r, v, n); SingleApplied(r, n, Values(v, n)[0]);
      case Pointed => StringSent(r, v, n); SingleApplied(r, n, Values(v, n)[0]);
      case Flag => StringSent(r, v, n); SingleApplied(r, n, Values(v, n)[0]);
      case _ => assert false;
    }
  }

  lemma OrderAt(j: nat)
    requires j < |ORDER|
    ensures ORDER[j] != FENCE_POST && KindOf(ORDER[j]) != Unknown && KindOf(ORDER[j]) != Fence && 1 <= ORDER[j] <= 21
  {
  }

  lemma {:induction false} OrderLess(j: nat, k: nat)
    requires j < k < |ORDER|
    ensures ORDER[j] < ORDER[k]
    decreases k
  {
    assert ORDER[k - 1] < ORDER[k];
    if j < k - 1 {
      OrderLess(j, k - 1);
    }
  }

  lemma FencesApplied(r: View, cur: nat, n: nat)
    requires cur < n <= 21
    ensures var a := ApplyAll(r, FencePosts(cur, n));
            a.Accepted? && OnlyChanges(r, a.view, FENCE_POST)
  {
    if n - cur > 15 {
      assert cur + (FENCE_POST - cur % FENCE_POST) == FENCE_POST;
      assert FencePosts(FENCE_POST, n) == [];
      assert FencePosts(cur, n) == [Opt(FENCE_POST, [])];
      assert FencePosts(cur, n)[1..] == [];
      ApplyOnlyChanges(r, FENCE_POST, []);
    }
  }

  lemma Carried(r: View, w: View, v: View, m: nat)
    requires Same(r, w, m)
    ensures FieldReceived(r, v, m) <==> FieldReceived(w, v, m)
    ensures Fresh(r, m) <==> Fresh(w, m)
  {
  }

  /** The first i rows of the table have been received, the others not been touched. */
  ghost predicate ReceivedUpTo(r: View, v: View, i: nat)
    requires i <= |ORDER|
  {
    && (forall j :: 0 <= j < i ==> FieldReceived(r, v, ORDER[j]))
    && (forall j :: i <= j < |ORDER| ==> Fresh(r, ORDER[j]))
  }

  lemma ReceiveRow(r: View, w: View, v: View, i: nat)
    requires i < |ORDER| && ReceivedUpTo(r, v, i) && OnlyChanges(r, w, ORDER[i]) && FieldReceived(w, v, ORDER[i])
    ensures ReceivedUpTo(w, v, i + 1)
  {
    hide FieldReceived, Fresh, Same;
    forall j | 0 <= j < |ORDER| && j != i ensures FieldReceived(r, v, ORDER[j]) <==> FieldReceived(w, v, ORDER[j])
      ensures Fresh(r, ORDER[j]) <==> Fresh(w, ORDER[j])
    {
      if j < i { OrderLess(j, i); } else { OrderLess(i, j); }
      Carried(r, w, v, ORDER[j]);
    }
  }

  lemma ReceiveFence(r: View, w: View, v: View, i: nat)
    requires i <= |ORDER| && ReceivedUpTo(r, v, i) && OnlyChanges(r, w, FENCE_POST)
    ensures ReceivedUpTo(w, v, i)
  {
    hide FieldReceived, Fresh, Same;
    forall j | 0 <= j < |ORDER| ensures FieldReceived(r, v, ORDER[j]) <==> FieldReceived(w, v, ORDER[j])
      ensures Fresh(r, ORDER[j]) <==> Fresh(w, ORDER[j])
    {
      OrderAt(j);
      Carried(r, w, v, ORDER[j]);
    }
  }

  /** Receiving all options of a packet fills every field with what the sender's field makes of it. */
  lemma {:induction false} OptionsReceived(r: View, v: View, i: nat, cur: nat)
    requires Typed(v) && Values(v, PROXY_URI) == [] && i <= |ORDER| && Passed(i, cur) && ReceivedUpTo(r, v, i)
    ensures var a := ApplyAll(r, OptionsFrom(v, i, cur));
            a.Accepted? && ReceivedUpTo(a.view, v, |ORDER|)
    decreases |ORDER| - i
  {
    hide Apply, Values, Typed, FieldReceived, Fresh, OnlyChanges, FencePosts, Repeated, KindOf, ReceivedUpTo;
    OptionsUnfold(r, v, i, cur);
    if i < |ORDER| {
      var n := ORDER[i];
      PassedNext(i, cur);
      if Values(v, n) == [] {
        AbsentRow(r, v, i);
        OptionsReceived(r, v, i + 1, cur);
      } else {
        FencesApplied(r, cur, n);
        var r1 := ApplyAll(r, FencePosts(cur, n)).view;
        ReceiveFence(r, r1, v, i);
        PresentRow(r1, v, i);
        var r2 := ApplyAll(r1, Repeated(n, Values(v, n))).view;
        OptionsReceived(r2, v, i + 1, n);
        ApplyConcat(r, FencePosts(cur, n), Repeated(n, Values(v, n)));
        ApplyConcat(r, FencePosts(cur, n) + Repeated(n, Values(v, n)), OptionsFrom(v, i + 1, n));
      }
    }
  }

  lemma OptionsUnfold(r: View, v: View, i: nat, cur: nat)
    ensures i >= |ORDER| ==> OptionsFrom(v, i, cur) == [] && ApplyAll(r, OptionsFrom(v, i, cur)) == Accepted(r)
    ensures i < |ORDER| ==>
              var n := ORDER[i];
              OptionsFrom(v, i, cur) == if Values(v, n) == [] then OptionsFrom(v, i + 1, cur)
                                        else FencePosts(cur, n) + Repeated(n, Values(v, n)) + OptionsFrom(v, i + 1, n)
  {
  }

  lemma AbsentRow(r: View, v: View, i: nat)
    requires i < |ORDER| && ReceivedUpTo(r, v, i) && Values(v, ORDER[i]) == []
    ensures ReceivedUpTo(r, v, i + 1)
  {
    assert Fresh(r, ORDER[i]);
    assert FieldReceived(r, v, ORDER[i]);
  }

  lemma PresentRow(r: View, v: View, i: nat)
    requires Typed(v) && Values(v, PROXY_URI) == [] && i < |ORDER| && ReceivedUpTo(r, v, i) && Values(v, ORDER[i]) != []
    ensures var a := ApplyAll(r, Repeated(ORDER[i], Values(v, ORDER[i])));
            a.Accepted? && ReceivedUpTo(a.view, v, i + 1)
  {
    OrderAt(i);
    assert Fresh(r, ORDER[i]);
    assert ORDER[i] != PROXY_URI;
    hide *;
    GroupApplied(r, v, ORDER[i]);
    ReceiveRow(r, ApplyAll(r, Repeated(ORDER[i], Values(v, ORDER[i]))).view, v, i);
  }

  // ----- whole messages

  datatype Message = Message(typ: nat, code: byte, mid: nat, view: View, payload: seq<byte>) {
    /** The widths of the header fields. */
    predicate Valid() { typ < 4 && mid < 0x1_0000 && Typed(view) }

    function Options(): seq<Opt> { OptionsFrom(view, 0, 0) }

    function Count(): nat { CountFrom(view, 0, 0) }
  }

  function HeaderBytes(typ: nat, count: nat, code: byte, mid: nat): (h: seq<byte>)
    requires typ < 4 && mid < 0x1_0000
    ensures |h| == COAP_HEADER_LEN
  {
    [(64 + 16 * typ + count % 16) as byte, code, (mid / 256) as byte, (mid % 256) as byte]
  }

  lemma OptionsAscending(m: Message)
    ensures Ascending(0, m.Options())
  {
    OptionsClose(m.view, 0, 0);
    CloseIsAscending(0, m.Options());
  }

  /** The datagram coap_serialize_message produces when the header fits COAP_MAX_HEADER_SIZE. */
  function Serialized(m: Message): seq<byte>
    requires m.Valid()
  {
    OptionsAscending(m);
    HeaderBytes(m.typ, m.Count(), m.code, m.mid) + Encode(0, m.Options()) + m.payload
  }

  datatype MessageResult = Fault | Error(status: nat) | Received(message: Message)

  /** coap_parse_message on a datagram; chunk is REST_MAX_CHUNK_SIZE. */
  function ParseMessage(data: seq<byte>, chunk: nat): MessageResult {
    if |data| < COAP_HEADER_LEN then Fault
    else if data[0] as int / 64 != 1 then Error(BAD_REQUEST_4_00)
    else
      match ParseOptions(data, COAP_HEADER_LEN, data[0] as int % 16, 0, EMPTY_VIEW)
      case Overread => Fault
      case Failed(status) => Error(status)
      case Parsed(view, end) =>
        Received(Message(data[0] as int / 16 % 4, data[1], data[2] as int * 256 + data[3] as int, view,
                         if end <= |data| then Truncate(data[end..], chunk) else []))
  }

  /** The getters for option n return the same on both packets; the receiver also gets the offset of
      a block. */
  ghost predicate FieldEquals(r: View, v: View, n: nat) {
    && (n in r.options <==> n in v.options)
    && (n in v.options ==>
          match KindOf(n)
          case Int(_) => IntOf(r, n) == IntOf(v, n)
          case Copied => CopyOf(r, n) == CopyOf(v, n)
          case Pointed => TextOf(r, n) == TextOf(v, n)
          case Joined(_) => TextOf(r, n) == TextOf(v, n)
          case Accepts => r.accept == v.accept
          case Blockwise =>
            var b, c := BlockOf(v, n), BlockOf(r, n);
            c.num == b.num && c.more == b.more && c.size == b.size && c.offset == b.num * b.size
          case _ => true)
  }

  /** What the setters guarantee about the packet besides the field widths. */
  predicate FilledBySetters(v: View) {
    && (forall n :: n in v.options ==> n in ORDER)
    && (ACCEPT in v.options <==> v.accept != [])
    && (forall n :: n in v.options && KindOf(n) == Blockwise ==> BlockInRange(BlockOf(v, n)))
  }

  /** What the receiver accepts of option n: a string that survives splitting, a power-of-two size and a more flag
      of 0 or 1, no Proxy-Uri. */
  predicate Transportable(v: View, n: nat) {
    n in v.options ==>
      match KindOf(n)
      case Joined(sep) => Safe(TextOf(v, n), sep)
      case Blockwise => PowerOfTwoSize(BlockOf(v, n).size) && BlockOf(v, n).more <= 1
      case Proxy => false
      case _ => true
  }

  lemma SegmentsExist(s: seq<byte>, sep: byte, start: nat, j: nat)
    requires start <= j <= |s|
    ensures Split(s, sep, start, j) != []
    decreases |s| - j
  {
    if j < |s| && s[j] != sep {
      SegmentsExist(s, sep, start, j + 1);
    }
  }

  lemma FieldIff(r: View, v: View, n: nat)
    requires FieldReceived(r, v, n) && FilledBySetters(v) && Values(v, PROXY_URI) == [] && n in ORDER
    ensures FieldEquals(r, v, n) <==> Transportable(v, n)
  {
    hide Split, MergeAll, EncodeBlock, DecodeBlock, PowerOfTwoSize, Safe, IntBytes;
    match KindOf(n)
    case Joined(sep) =>
      SegmentsExist(TextOf(v, n), sep, 0, 0);
      SplitJoinIff(TextOf(v, n), sep);
    case Blockwise =>
      if n in v.options {
        BlockRoundTrip(BlockOf(v, n));
      }
    case Accepts =>
    case _ =>
  }

  lemma OneMore(data: seq<byte>, pos: nat, cur: nat, v: View)
    ensures var p := ParseOptions(data, pos, 1, cur, v);
            p.Parsed? ==> pos < p.end <= |data|
  {
    if pos < |data| && pos + HeaderLength(data[pos]) <= |data| {
      var start := pos + HeaderLength(data[pos]);
      var length := if data[pos] as int % 16 < 15 then data[pos] as int % 16 else data[pos + 1] as int + 15;
      hide Apply;
      if start + length <= |data| {
        match Apply(v, cur + data[pos] as int / 16, data[start..start + length])
        case Rejected(_) =>
        case Accepted(w) => assert ParseOptions(data, start + length, 0, cur + data[pos] as int / 16, w) ==
          Parsed(w, start + length);
      }
    }
  }

  lemma SerializedHeader(m: Message)
    requires m.Valid()
    ensures var data := Serialized(m);
            && |data| >= COAP_HEADER_LEN + |Encode0(m)|
            && data[0] as int / 64 == 1 && data[0] as int / 16 % 4 == m.typ && data[0] as int % 16 == m.Count() % 16
            && data[1] == m.code && data[2] as int * 256 + data[3] as int == m.mid
            && At(data, COAP_HEADER_LEN, Encode0(m)) && data[COAP_HEADER_LEN + |Encode0(m)|..] == m.payload
  {
    hide Encode, OptionsFrom, CountFrom, Typed;
    OptionsAscending(m);
    var h := HeaderBytes(m.typ, m.Count(), m.code, m.mid);
    var data := Serialized(m);
    assert data == h + Encode0(m) + m.payload;
    assert data[0] == h[0] && data[1] == h[1] && data[2] == h[2] && data[3] == h[3];
  }

  /** Everything the sender wrote is read back, and if the option count is one too high the parser
      goes on to read one more option from the payload. */
  lemma SerializedOptions(m: Message)
    requires m.Valid() && Values(m.view, PROXY_URI) == []
    requires COAP_HEADER_LEN + |Encode0(m)| <= COAP_MAX_HEADER_SIZE && m.Count() <= 15
    ensures var a := ApplyAll(EMPTY_VIEW, m.Options());
            && a.Accepted? && ReceivedUpTo(a.view, m.view, |ORDER|)
            && ParseOptions(Serialized(m), COAP_HEADER_LEN, m.Count(), 0, EMPTY_VIEW) ==
               ParseOptions(Serialized(m), COAP_HEADER_LEN + |Encode0(m)|, if GapsFrom(m.view, 0, 0) then 0 else 1,
                            LastNumber(0, m.Options()), a.view)
  {
    hide *;
    MessageFacts(m);
    NothingReceived(m.view);
    var opts := m.Options();
    OptionsClose(m.view, 0, 0);
    CloseIsAscending(0, opts);
    CountIff(m.view, 0, 0);
    OptionsReceived(EMPTY_VIEW, m.view, 0, 0);
    ParseEncoded(Serialized(m), COAP_HEADER_LEN, opts, if GapsFrom(m.view, 0, 0) then 0 else 1, 0, EMPTY_VIEW);
  }

  lemma MessageFacts(m: Message)
    requires m.Valid()
    ensures m.Options() == OptionsFrom(m.view, 0, 0) && m.Count() == CountFrom(m.view, 0, 0)
    ensures Typed(m.view) && Passed(0, 0)
    ensures COAP_HEADER_LEN == 4 && COAP_MAX_HEADER_SIZE == 47
    ensures Ascending(0, m.Options()) && Encode0(m) == Encode(0, m.Options())
    ensures At(Serialized(m), COAP_HEADER_LEN, Encode(0, m.Options()))
  {
    hide Encode, OptionsFrom, CountFrom;
    OptionsAscending(m);
    SerializedHeader(m);
  }

  lemma NothingReceived(v: View)
    ensures ReceivedUpTo(EMPTY_VIEW, v, 0)
  {
  }

  function Encode0(m: Message): seq<byte> {
    OptionsAscending(m);
    Encode(0, m.Options())
  }

  /** The receiver gets the message: same header fields, same options through the getters, same payload. */
  ghost predicate Delivered(m: Message, result: MessageResult) {
    && result.Received?
    && var r := result.message;
       && r.typ == m.typ && r.code == m.code && r.mid == m.mid && r.payload == m.payload
       && forall j :: 0 <= j < |ORDER| ==> FieldEquals(r.view, m.view, ORDER[j])
  }

  ghost predicate AllTransportable(v: View) { forall j :: 0 <= j < |ORDER| ==> Transportable(v, ORDER[j]) }

  /** With a right option count the receiver has every field, and each is the sender's exactly when
      the format can carry it. */
  lemma DeliveredIff(m: Message, chunk: nat)
    requires m.Valid() && FilledBySetters(m.view) && Values(m.view, PROXY_URI) == [] && GapsFrom(m.view, 0, 0)
    requires COAP_HEADER_LEN + |Encode0(m)| <= COAP_MAX_HEADER_SIZE && m.Count() <= 15 && |m.payload| <= chunk
    ensures Delivered(m, ParseMessage(Serialized(m), chunk)) <==> AllTransportable(m.view)
  {
    hide ParseOptions, FieldEquals, FieldReceived, Transportable, FilledBySetters, ApplyAll, Encode, GapsFrom,
      OptionsFrom, Typed, Serialized, ReceivedUpTo, LastNumber, CountFrom, At, Encode0;
    MessageFacts(m);
    SerializedHeader(m);
    SerializedOptions(m);
    var w := ApplyAll(EMPTY_VIEW, m.Options()).view;
    NoMore(Serialized(m), COAP_HEADER_LEN + |Encode0(m)|, LastNumber(0, m.Options()), w);
    forall j | 0 <= j < |ORDER| ensures FieldEquals(w, m.view, ORDER[j]) <==> Transportable(m.view, ORDER[j]) {
      FieldOfRow(w, m.view, j);
    }
  }

  /** With a count that is one too high the payload loses at least a byte, if parsing succeeds at all. */
  lemma MiscountedIsNotDelivered(m: Message, chunk: nat)
    requires m.Valid() && Values(m.view, PROXY_URI) == [] && !GapsFrom(m.view, 0, 0)
    requires COAP_HEADER_LEN + |Encode0(m)| <= COAP_MAX_HEADER_SIZE && m.Count() <= 15
    ensures !Delivered(m, ParseMessage(Serialized(m), chunk))
  {
    hide ParseOptions, FieldEquals, ApplyAll, Encode, GapsFrom, OptionsFrom, Typed, Serialized, ReceivedUpTo,
      LastNumber, CountFrom, At;
    SerializedHeader(m);
    SerializedOptions(m);
    OneMore(Serialized(m), COAP_HEADER_LEN + |Encode0(m)|, LastNumber(0, m.Options()),
            ApplyAll(EMPTY_VIEW, m.Options()).view);
  }

  lemma {:induction false} ProxyIsWritten(v: View, i: nat, cur: nat) returns (k: nat)
    requires i <= 2 && Values(v, PROXY_URI) != []
    ensures k < |OptionsFrom(v, i, cur)| && OptionsFrom(v, i, cur)[k].number == PROXY_URI
    decreases 2 - i
  {
    var n := ORDER[i];
    var posts, values := FencePosts(cur, n), Values(v, n);
    if i == 2 {
      k := |posts|;
      assert OptionsFrom(v, i, cur) == posts + Repeated(n, values) + OptionsFrom(v, i + 1, n);
    } else if values == [] {
      k := ProxyIsWritten(v, i + 1, cur);
    } else {
      k := ProxyIsWritten(v, i + 1, n);
      k := |posts| + |values| + k;
    }
  }

  lemma {:induction false} ProxyIsRejected(v: View, opts: seq<Opt>, k: nat)
    requires k < |opts| && opts[k].number == PROXY_URI
    ensures ApplyAll(v, opts).Rejected?
    decreases |opts|
  {
    var a := Apply(v, opts[0].number, opts[0].value);
    if k > 0 && a.Accepted? {
      ProxyIsRejected(a.view, opts[1..], k - 1);
    }
  }

  /** The parser turns every message with a Proxy-Uri down. */
  lemma ProxyIsNotDelivered(m: Message, chunk: nat)
    requires m.Valid() && Values(m.view, PROXY_URI) != []
    requires COAP_HEADER_LEN + |Encode0(m)| <= COAP_MAX_HEADER_SIZE && m.Count() <= 15
    ensures !Delivered(m, ParseMessage(Serialized(m), chunk)) && !AllTransportable(m.view)
  {
    hide *;
    MessageFacts(m);
    OptionsClose(m.view, 0, 0);
    CloseIsAscending(0, m.Options());
    CountIff(m.view, 0, 0);
    var k := ProxyIsWritten(m.view, 0, 0);
    ProxyIsRejected(EMPTY_VIEW, m.Options(), k);
    var more := if GapsFrom(m.view, 0, 0) then 0 else 1;
    ParseEncoded(Serialized(m), COAP_HEADER_LEN, m.Options(), more, 0, EMPTY_VIEW);
    FailedOptions(m, chunk);
    ProxyIsUntransportable(m.view);
  }

  lemma ProxyIsUntransportable(v: View)
    requires Values(v, PROXY_URI) != []
    ensures !AllTransportable(v)
  {
    assert ORDER[2] == PROXY_URI && !Transportable(v, PROXY_URI);
  }

  lemma FailedOptions(m: Message, chunk: nat)
    requires m.Valid() && m.Count() <= 15
    requires ParseOptions(Serialized(m), COAP_HEADER_LEN, m.Count(), 0, EMPTY_VIEW).Failed?
    ensures !Delivered(m, ParseMessage(Serialized(m), chunk))
  {
    hide ParseOptions, Serialized, Typed, CountFrom, Encode0;
    SerializedHeader(m);
  }

  /** Parsing undoes serialising exactly when no Proxy-Uri is set, every string survives splitting, block sizes are
      powers of two with a more flag of 0 or 1, and no gap of 14 or 15 between option numbers makes the option count one
      too high. */
  lemma RoundTripIff(m: Message, chunk: nat)
    requires m.Valid() && FilledBySetters(m.view)
    requires COAP_HEADER_LEN + |Encode0(m)| <= COAP_MAX_HEADER_SIZE && m.Count() <= 15 && |m.payload| <= chunk
    ensures Delivered(m, ParseMessage(Serialized(m), chunk)) <==> GapsFrom(m.view, 0, 0) && AllTransportable(m.view)
  {
    hide *;
    if Values(m.view, PROXY_URI) != [] {
      ProxyIsNotDelivered(m, chunk);
    } else if GapsFrom(m.view, 0, 0) {
      DeliveredIff(m, chunk);
    } else {
      MiscountedIsNotDelivered(m, chunk);
    }
  }

  lemma NoMore(data: seq<byte>, pos: nat, cur: nat, v: View)
    ensures ParseOptions(data, pos, 0, cur, v) == Parsed(v, pos)
  {
  }

  lemma FieldOfRow(r: View, v: View, j: nat)
    requires j < |ORDER| && ReceivedUpTo(r, v, |ORDER|) && FilledBySetters(v) && Values(v, PROXY_URI) == []
    ensures FieldEquals(r, v, ORDER[j]) <==> Transportable(v, ORDER[j])
  {
    assert FieldReceived(r, v, ORDER[j]);
    FieldIff(r, v, ORDER[j]);
  }
}
