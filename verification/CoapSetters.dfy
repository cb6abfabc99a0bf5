/** The setters of dep/apps/er-coap-07/er-coap-07.c, and the round trip of every message they fill. */
module CoapSetters {
  import opened Bytes
  import opened CoapWire
  import opened CoapMessage
  import opened CoapCount

  const QUESTION_MARK: byte := 0x3f

  /** One call of a setter; there is none for Uri-Port. */
  datatype Setting =
    | ContentType(value: word)
    | MaxAge(value: word)
    | Observe(value: word)
    | Accept(content: nat)
    | Etag(bytes: seq<byte>)
    | Token(bytes: seq<byte>)
    | IfMatch(bytes: seq<byte>)
    | IfNoneMatch
    | ProxyUri(text: seq<byte>)
    | UriHost(text: seq<byte>)
    | UriPath(text: seq<byte>)
    | UriQuery(text: seq<byte>)
    | LocationPath(text: seq<byte>)
    | LocationQuery(text: seq<byte>)
    | Block2(num: nat, more: nat, size: nat)
    | Block1(num: nat, more: nat, size: nat)

  function SkipLeading(s: seq<byte>, c: byte): seq<byte> {
    if s != [] && s[0] == c then SkipLeading(s[1..], c) else s
  }

  /** strchr, as an index; the length of the string if there is none. */
  function Find(s: seq<byte>, c: byte): (k: nat)
    ensures k <= |s| && (k < |s| ==> s[k] == c)
  {
    if s == [] || s[0] == c then 0 else 1 + Find(s[1..], c)
  }

  function SetInt(v: View, n: nat, value: nat): View { v.(options := v.options + {n}, ints := v.ints[n := value]) }
  function SetCopy(v: View, n: nat, bytes: seq<byte>): View {
    v.(options := v.options + {n}, copies := v.copies[n := Truncate(bytes, ETAG_LEN)])
  }
  function SetText(v: View, n: nat, text: seq<byte>): View {
    v.(options := v.options + {n}, texts := v.texts[n := text])
  }
  function SetBlock(v: View, n: nat, b: Block): View {
    if BlockInRange(b) then v.(options := v.options + {n}, blocks := v.blocks[n := b]) else v
  }

  function Set(v: View, s: Setting): View {
    match s
    case ContentType(value) => SetInt(v, CONTENT_TYPE, value)
    case MaxAge(value) => SetInt(v, MAX_AGE, value)
    case Observe(value) => SetInt(v, OBSERVE, value % 0x1_0000)
    case Accept(content) =>
      if |v.accept| < MAX_ACCEPT_NUM then v.(options := v.options + {ACCEPT}, accept := v.accept + [content % 0x1_0000])
      else v
    case Etag(bytes) => SetCopy(v, ETAG, bytes)
    case Token(bytes) => SetCopy(v, TOKEN, bytes)
    case IfMatch(bytes) => SetCopy(v, IF_MATCH, bytes)
    case IfNoneMatch => v.(options := v.options + {IF_NONE_MATCH})
    case ProxyUri(text) => SetText(v, PROXY_URI, text)
    case UriHost(text) => SetText(v, URI_HOST, text)
    case UriPath(text) => SetText(v, URI_PATH, SkipLeading(text, SLASH))
    case UriQuery(text) => SetText(v, URI_QUERY, SkipLeading(text, QUESTION_MARK))
    case LocationPath(text) =>
      var path := SkipLeading(text, SLASH);
      var k := Find(path, QUESTION_MARK);
      var w := if k < |path| then SetText(v, LOCATION_QUERY, SkipLeading(path[k + 1..], QUESTION_MARK)) else v;
      SetText(w, LOCATION_PATH, path[..k])
    case LocationQuery(text) => SetText(v, LOCATION_QUERY, SkipLeading(text, QUESTION_MARK))
    case Block2(num, more, size) => SetBlock(v, BLOCK2, Block(num, if more != 0 then 1 else 0, size, 0))
    case Block1(num, more, size) => SetBlock(v, BLOCK1, Block(num, more, size, 0))
  }

  function SetAll(v: View, settings: seq<Setting>): View
    decreases |settings|
  {
    if settings == [] then v else SetAll(Set(v, settings[0]), settings[1..])
  }

  ghost predicate Filled(v: View) { Typed(v) && FilledBySetters(v) }

  /** Row k of the option table is option n, stored as kind says. */
  predicate Takes(k: nat, n: nat, kind: Kind) { k < |ORDER| && ORDER[k] == n && KindOf(n) == kind }

  lemma IntKeeps(v: View, k: nat, n: nat, value: nat)
    requires Filled(v)
             && ((Takes(k, n, Int(true)) && value < 0x1_0000_0000) || (Takes(k, n, Int(false)) && value < 0x1_0000))
    ensures Filled(SetInt(v, n, value))
  {
    hide Find, SkipLeading, ORDER, BlockInRange;
  }

  lemma CopyKeeps(v: View, k: nat, n: nat, bytes: seq<byte>)
    requires Filled(v) && Takes(k, n, Copied)
    ensures Filled(SetCopy(v, n, bytes))
  {
    hide Find, SkipLeading;
  }

  lemma TextKeeps(v: View, k: nat, n: nat, text: seq<byte>)
    requires Filled(v)
             && (Takes(k, n, Pointed) || Takes(k, n, Joined(SLASH)) || Takes(k, n, Joined(AMPERSAND))
                || Takes(k, n, Proxy))
    ensures Filled(SetText(v, n, text))
  {
    hide Find, SkipLeading;
  }

  lemma BlockKeeps(v: View, k: nat, n: nat, b: Block)
    requires Filled(v) && Takes(k, n, Blockwise)
    ensures Filled(SetBlock(v, n, b))
  {
    hide Find, SkipLeading;
  }

  lemma AcceptKeeps(v: View, content: nat)
    requires Filled(v)
    ensures Filled(Set(v, Accept(content)))
  {
    hide Find, SkipLeading;
    assert ORDER[11] == ACCEPT;
  }

  lemma FlagKeeps(v: View)
    requires Filled(v)
    ensures Filled(Set(v, IfNoneMatch))
  {
    hide Find, SkipLeading;
    assert ORDER[16] == IF_NONE_MATCH;
  }

  lemma Numbers()
    ensures Takes(0, CONTENT_TYPE, Int(true)) && Takes(1, MAX_AGE, Int(true)) && Takes(9, OBSERVE, Int(false))
    ensures Takes(3, ETAG, Copied) && Takes(10, TOKEN, Copied) && Takes(12, IF_MATCH, Copied)
    ensures Takes(2, PROXY_URI, Proxy) && Takes(4, URI_HOST, Pointed) && Takes(5, LOCATION_PATH, Joined(SLASH))
    ensures Takes(7, LOCATION_QUERY, Joined(AMPERSAND)) && Takes(8, URI_PATH, Joined(SLASH))
            && Takes(13, URI_QUERY, Joined(AMPERSAND))
    ensures Takes(14, BLOCK2, Blockwise) && Takes(15, BLOCK1, Blockwise)
  {
  }

  lemma SetKeeps(v: View, s: Setting)
    requires Filled(v)
    ensures Filled(Set(v, s))
  {
    hide Filled, SetInt, SetCopy, SetText, SetBlock, SkipLeading, Find, Takes, ORDER, KindOf;
    Numbers();
    match s
    case ContentType(value) => IntKeeps(v, 0, CONTENT_TYPE, value);
    case MaxAge(value) => IntKeeps(v, 1, MAX_AGE, value);
    case Observe(value) => IntKeeps(v, 9, OBSERVE, value % 0x1_0000);
    case Accept(content) => AcceptKeeps(v, content);
    case Etag(bytes) => CopyKeeps(v, 3, ETAG, bytes);
    case Token(bytes) => CopyKeeps(v, 10, TOKEN, bytes);
    case IfMatch(bytes) => CopyKeeps(v, 12, IF_MATCH, bytes);
    case IfNoneMatch => FlagKeeps(v);
    case ProxyUri(text) => TextKeeps(v, 2, PROXY_URI, text);
    case UriHost(text) => TextKeeps(v, 4, URI_HOST, text);
    case UriPath(text) => TextKeeps(v, 8, URI_PATH, SkipLeading(text, SLASH));
    case UriQuery(text) => TextKeeps(v, 13, URI_QUERY, SkipLeading(text, QUESTION_MARK));
    case LocationPath(text) => LocationKeeps(v, text);
    case LocationQuery(text) => TextKeeps(v, 7, LOCATION_QUERY, SkipLeading(text, QUESTION_MARK));
    case Block2(num, more, size) => BlockKeeps(v, 14, BLOCK2, Block(num, if more != 0 then 1 else 0, size, 0));
    case Block1(num, more, size) => BlockKeeps(v, 15, BLOCK1, Block(num, more, size, 0));
  }

  lemma LocationKeeps(v: View, text: seq<byte>)
    requires Filled(v)
    ensures Filled(Set(v, LocationPath(text)))
  {
    hide Filled, SetText, SkipLeading, Find, Takes, ORDER, KindOf;
    Numbers();
    var path := SkipLeading(text, SLASH);
    var k := Find(path, QUESTION_MARK);
    if k < |path| {
      var query := SkipLeading(path[k + 1..], QUESTION_MARK);
      TextKeeps(v, 7, LOCATION_QUERY, query);
      TextKeeps(SetText(v, LOCATION_QUERY, query), 5, LOCATION_PATH, path[..k]);
    } else {
      TextKeeps(v, 5, LOCATION_PATH, path[..k]);
    }
  }

  /** Whatever setters are called with whatever values, they leave a packet of the kind the round trip is about. */
  lemma {:induction false} SettersFill(v: View, settings: seq<Setting>)
    requires Filled(v)
    ensures Filled(SetAll(v, settings))
    decreases |settings|
  {
    hide Filled, Set;
    if settings != [] {
      SetKeeps(v, settings[0]);
      SettersFill(Set(v, settings[0]), settings[1..]);
    }
  }

  // ----- what the getters return

  /** rest is what is left of s without the bytes c at its beginning. */
  ghost predicate WithoutLeading(s: seq<byte>, c: byte, rest: seq<byte>) {
    && |rest| <= |s| && s[|s| - |rest|..] == rest && (rest != [] ==> rest[0] != c)
    && forall i :: 0 <= i < |s| - |rest| ==> s[i] == c
  }

  lemma {:induction false} SkipsLeading(s: seq<byte>, c: byte)
    ensures WithoutLeading(s, c, SkipLeading(s, c))
    decreases |s|
  {
    hide WithoutLeading;
    if s != [] && s[0] == c {
      SkipsLeading(s[1..], c);
      OneMoreLeading(s, c, SkipLeading(s[1..], c));
    } else {
      NoLeading(s, c);
    }
  }

  lemma OneMoreLeading(s: seq<byte>, c: byte, rest: seq<byte>)
    requires s != [] && s[0] == c && WithoutLeading(s[1..], c, rest)
    ensures WithoutLeading(s, c, rest)
  {
    var n := |s| - |rest|;
    assert s[1..][n - 1..] == s[n..];
    forall i | 0 <= i < n ensures s[i] == c {
      if i > 0 {
        assert s[i] == s[1..][i - 1];
      }
    }
  }

  lemma NoLeading(s: seq<byte>, c: byte)
    requires s == [] || s[0] != c
    ensures WithoutLeading(s, c, s)
  {
  }

  lemma {:induction false} FindsFirst(s: seq<byte>, c: byte)
    ensures c !in s[..Find(s, c)]
    decreases |s|
  {
    if s != [] && s[0] != c {
      FindsFirst(s[1..], c);
      assert s[..Find(s, c)] == [s[0]] + s[1..][..Find(s[1..], c)];
    }
  }

  /** Option n is set to the text without the bytes c at its beginning. */
  ghost predicate Stripped(w: View, n: nat, text: seq<byte>, c: byte) {
    n in w.options && WithoutLeading(text, c, TextOf(w, n))
  }

  /** Block option n is set if the arguments are in range, and otherwise left as it was. */
  ghost predicate BlockSet(v: View, w: View, n: nat, num: nat, more: nat, size: nat) {
    if num <= 0xF_FFFF && 16 <= size <= 2048 then
      n in w.options && BlockOf(w, n).num == num && BlockOf(w, n).more == more && BlockOf(w, n).size == size
    else w == v
  }

  /** A path with a query is divided at the first question mark; without one the query stays as it was. */
  ghost predicate LocationSet(v: View, w: View, text: seq<byte>) {
    exists path: seq<byte> ::
      && WithoutLeading(text, 0x2f, path) && 6 in w.options
      && if 0x3f in path then
           && 0x3f !in TextOf(w, 6) && TextOf(w, 6) + [0x3f] <= path
           && Stripped(w, 8, path[|TextOf(w, 6)| + 1..], 0x3f)
         else TextOf(w, 6) == path && Same(v, w, 8)
  }

  /** The getters return what the setter was given, in the width of the field. */
  ghost predicate Taken(v: View, w: View, s: Setting) {
    match s
    case ContentType(value) => 1 in w.options && IntOf(w, 1) == value
    case MaxAge(value) => 2 in w.options && IntOf(w, 2) == value
    case Observe(value) => 10 in w.options && IntOf(w, 10) == value % 0x1_0000
    case Accept(content) =>
      if |v.accept| < 2 then 12 in w.options && w.accept == v.accept + [content % 0x1_0000] else w == v
    case Etag(bytes) => 4 in w.options && CopyOf(w, 4) == if |bytes| <= 8 then bytes else bytes[..8]
    case Token(bytes) => 11 in w.options && CopyOf(w, 11) == if |bytes| <= 8 then bytes else bytes[..8]
    case IfMatch(bytes) => 13 in w.options && CopyOf(w, 13) == if |bytes| <= 8 then bytes else bytes[..8]
    case IfNoneMatch => 21 in w.options
    case ProxyUri(text) => 3 in w.options && TextOf(w, 3) == text
    case UriHost(text) => 5 in w.options && TextOf(w, 5) == text
    case UriPath(text) => Stripped(w, 9, text, 0x2f)
    case UriQuery(text) => Stripped(w, 15, text, 0x3f)
    case LocationPath(text) => LocationSet(v, w, text)
    case LocationQuery(text) => Stripped(w, 8, text, 0x3f)
    case Block2(num, more, size) => BlockSet(v, w, 17, num, if more != 0 then 1 else 0, size)
    case Block1(num, more, size) => BlockSet(v, w, 19, num, more, size)
  }

  /** The options whose fields a setter may change. */
  function Touched(s: Setting): set<nat> {
    match s
    case ContentType(_) => {1}
    case MaxAge(_) => {2}
    case Observe(_) => {10}
    case Accept(_) => {12}
    case Etag(_) => {4}
    case Token(_) => {11}
    case IfMatch(_) => {13}
    case IfNoneMatch => {21}
    case ProxyUri(_) => {3}
    case UriHost(_) => {5}
    case UriPath(_) => {9}
    case UriQuery(_) => {15}
    case LocationPath(_) => {6, 8}
    case LocationQuery(_) => {8}
    case Block2(_, _, _) => {17}
    case Block1(_, _, _) => {19}
  }

  lemma SetterIsTaken(v: View, s: Setting)
    ensures Taken(v, Set(v, s), s)
  {
    hide SkipLeading, Find, WithoutLeading;
    match s
    case UriPath(text) => SkipsLeading(text, SLASH);
    case UriQuery(text) => SkipsLeading(text, QUESTION_MARK);
    case LocationQuery(text) => SkipsLeading(text, QUESTION_MARK);
    case LocationPath(text) => LocationIsTaken(v, text);
    case _ =>
  }

  lemma LocationIsTaken(v: View, text: seq<byte>)
    ensures LocationSet(v, Set(v, LocationPath(text)), text)
  {
    hide SkipLeading, Find, WithoutLeading;
    SkipsLeading(text, SLASH);
    var path := SkipLeading(text, SLASH);
    var k := Find(path, QUESTION_MARK);
    FindsFirst(path, QUESTION_MARK);
    var w := Set(v, LocationPath(text));
    assert TextOf(w, 6) == path[..k];
    if k < |path| {
      SkipsLeading(path[k + 1..], QUESTION_MARK);
      assert path[k] in path;
    } else {
      assert path[..k] == path;
    }
  }

  lemma FieldTouches(v: View, n: nat, m: nat)
    requires m != n
    ensures forall value :: Same(v, SetInt(v, n, value), m)
    ensures forall bytes :: Same(v, SetCopy(v, n, bytes), m)
    ensures forall text :: Same(v, SetText(v, n, text), m)
    ensures forall b :: Same(v, SetBlock(v, n, b), m)
  {
    hide Truncate, BlockInRange;
  }

  lemma SetterTouches(v: View, s: Setting, n: nat)
    requires n !in Touched(s)
    ensures Same(v, Set(v, s), n)
  {
    hide SkipLeading, Find, Same, SetInt, SetCopy, SetText, SetBlock;
    match s
    case ContentType(_) => FieldTouches(v, 1, n);
    case MaxAge(_) => FieldTouches(v, 2, n);
    case Observe(_) => FieldTouches(v, 10, n);
    case Accept(_) => OtherField(v, Set(v, s), n);
    case Etag(_) => FieldTouches(v, 4, n);
    case Token(_) => FieldTouches(v, 11, n);
    case IfMatch(_) => FieldTouches(v, 13, n);
    case IfNoneMatch => OtherField(v, Set(v, s), n);
    case ProxyUri(_) => FieldTouches(v, 3, n);
    case UriHost(_) => FieldTouches(v, 5, n);
    case UriPath(_) => FieldTouches(v, 9, n);
    case UriQuery(_) => FieldTouches(v, 15, n);
    case LocationPath(text) => LocationTouches(v, text, n);
    case LocationQuery(_) => FieldTouches(v, 8, n);
    case Block2(_, _, _) => FieldTouches(v, 17, n);
    case Block1(_, _, _) => FieldTouches(v, 19, n);
  }

  lemma OtherField(v: View, w: View, n: nat)
    requires w.ints == v.ints && w.copies == v.copies && w.texts == v.texts && w.blocks == v.blocks
    requires n in w.options <==> n in v.options
    requires n == ACCEPT ==> w.accept == v.accept
    ensures Same(v, w, n)
  {
  }

  lemma LocationTouches(v: View, text: seq<byte>, n: nat)
    requires n != 6 && n != 8
    ensures Same(v, Set(v, LocationPath(text)), n)
  {
    hide SkipLeading, Find;
  }

  lemma {:induction false} LaterSettings(v: View, settings: seq<Setting>, n: nat)
    requires forall i :: 0 <= i < |settings| ==> n !in Touched(settings[i])
    ensures Same(v, SetAll(v, settings), n)
    decreases |settings|
  {
    hide Set, Touched;
    if settings != [] {
      SetterTouches(v, settings[0], n);
      LaterSettings(Set(v, settings[0]), settings[1..], n);
    }
  }

  lemma {:induction false} SetAllConcat(v: View, a: seq<Setting>, b: seq<Setting>)
    ensures SetAll(v, a + b) == SetAll(SetAll(v, a), b)
    decreases |a|
  {
    hide Set;
    if a == [] {
      assert a + b == b;
    } else {
      assert (a + b)[1..] == a[1..] + b;
      SetAllConcat(Set(v, a[0]), a[1..], b);
    }
  }

  /** Whatever setters were called before, a call is taken, and its option's field stays so until a later call for the
      same option. */
  lemma LastSettingIsTaken(v: View, before: seq<Setting>, s: Setting, after: seq<Setting>)
    ensures var u := SetAll(v, before);
            var w := Set(u, s);
            && Taken(u, w, s)
            && forall n :: (n in Touched(s) && forall i :: 0 <= i < |after| ==> n !in Touched(after[i])) ==>
                 Same(w, SetAll(v, before + [s] + after), n)
  {
    hide Set, Touched, SetAll, Taken;
    var u := SetAll(v, before);
    SetterIsTaken(u, s);
    SetAllConcat(v, before + [s], after);
    SetAllConcat(v, before, [s]);
    SetOne(u, s);
    forall n | n in Touched(s) && forall i :: 0 <= i < |after| ==> n !in Touched(after[i])
      ensures Same(Set(u, s), SetAll(v, before + [s] + after), n)
    {
      LaterSettings(Set(u, s), after, n);
    }
  }

  lemma SetOne(v: View, s: Setting)
    ensures SetAll(v, [s]) == Set(v, s)
  {
    hide Set;
    assert SetAll(Set(v, s), []) == Set(v, s);
  }

  /** Every message filled by setter calls only whose options fit the header limit is delivered exactly when it has at
      most 15 options, its strings and blocks are transportable and no option gap is 14 or 15. */
  lemma FilledRoundTrip(typ: nat, code: byte, mid: nat, settings: seq<Setting>, payload: seq<byte>, chunk: nat)
    requires typ < 4 && mid < 0x1_0000
    ensures var view := SetAll(EMPTY_VIEW, settings);
            var m := Message(typ, code, mid, view, Truncate(payload, chunk));
            && m.Valid()
            && (COAP_HEADER_LEN + |Encode0(m)| <= COAP_MAX_HEADER_SIZE ==>
                  (Delivered(m, ParseMessage(Serialized(m), chunk)) <==>
                     m.Count() <= 15 && GapsFrom(view, 0, 0) && AllTransportable(view)))
  {
    SettersFill(EMPTY_VIEW, settings);
    hide SetAll, Serialized, ParseMessage, GapsFrom, AllTransportable, Encode0, FilledBySetters, Typed, Delivered;
    var m := Message(typ, code, mid, SetAll(EMPTY_VIEW, settings), Truncate(payload, chunk));
    if COAP_HEADER_LEN + |Encode0(m)| <= COAP_MAX_HEADER_SIZE {
      DeliveredExactlyWhen(m, chunk);
    }
  }
}
