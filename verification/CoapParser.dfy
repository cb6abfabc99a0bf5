/** coap_parse_message of dep/apps/er-coap-07/er-coap-07.c: the option fields are filled from the datagram, and
    repeated path and query options are joined in place in the same buffer. */
module CoapParser {
  import opened Bytes
  import opened CoapWire
  import opened CoapMessage

  /** A pointer into the datagram and a length. */
  datatype Span = Span(start: nat, length: nat) {
    function End(): nat { start + length }
  }

  /** OutOfData: the next option reaches past the datagram, where the C code would read on. */
  datatype Status = NoError | Refused(code: nat) | OutOfData

  // ----- strings in the buffer

  /** Every span ends before pos, belongs to a number up to cur, and lies behind those of smaller numbers. */
  ghost predicate Placed(spans: map<nat, Span>, pos: nat, cur: nat) {
    && (forall n :: n in spans ==> n <= cur && spans[n].End() <= pos)
    && (forall m, n :: m in spans && n in spans && m < n ==> spans[m].End() <= spans[n].start)
  }

  /** What a span points to; nothing if it leaves the buffer. */
  function SpanText(bytes: seq<byte>, span: Span): seq<byte> {
    if span.End() <= |bytes| then bytes[span.start..span.start + span.length] else []
  }

  ghost function Texts(bytes: seq<byte>, spans: map<nat, Span>): map<nat, seq<byte>> {
    map n | n in spans :: SpanText(bytes, spans[n])
  }

  lemma PlacedLater(spans: map<nat, Span>, pos: nat, cur: nat, pos': nat, cur': nat)
    requires Placed(spans, pos, cur) && pos <= pos' && cur <= cur'
    ensures Placed(spans, pos', cur')
  {
  }

  /** A string that stays where it was received. */
  lemma PointStep(bytes: seq<byte>, spans: map<nat, Span>, pos: nat, cur: nat, n: nat, value: Span)
    requires Placed(spans, pos, cur) && cur <= n && pos <= value.start
    ensures Placed(spans[n := value], value.End(), n)
    ensures Texts(bytes, spans[n := value]) == Texts(bytes, spans)[n := SpanText(bytes, value)]
  {
    hide SpanText;
  }

  /** Two buffers that agree up to where a string ends. */
  lemma SameSlice(a: seq<byte>, b: seq<byte>, k: nat, span: Span)
    requires k <= |a| == |b| && a[..k] == b[..k] && span.End() <= k
    ensures SpanText(a, span) == SpanText(b, span)
  {
    assert a[span.start..span.End()] == a[..k][span.start..span.End()];
    assert b[span.start..span.End()] == b[..k][span.start..span.End()];
  }

  lemma SameTexts(a: seq<byte>, b: seq<byte>, spans: map<nat, Span>, k: nat, n: nat, span: Span)
    requires k <= |a| == |b| && a[..k] == b[..k] && forall m :: m in spans && m != n ==> spans[m].End() <= k
    ensures Texts(b, spans[n := span]) == Texts(a, spans)[n := SpanText(b, span)]
  {
    hide SpanText;
    forall m | m in spans && m != n ensures SpanText(a, spans[m]) == SpanText(b, spans[m]) {
      SameSlice(a, b, k, spans[m]);
    }
  }

  /** What the separator and the moved value do to the bytes. */
  lemma MovedBytes(before: seq<byte>, after: seq<byte>, dst: Span, sep: byte, part: seq<byte>)
    requires dst.End() + 1 + |part| <= |before| && after == Overwrite(before, dst.End(), [sep] + part)
    ensures |after| == |before| && after[..dst.End()] == before[..dst.End()]
    ensures after[dst.End() + 1 + |part|..] == before[dst.End() + 1 + |part|..]
    ensures SpanText(after, Span(dst.start, dst.length + 1 + |part|)) == SpanText(before, dst) + [sep] + part
  {
    assert after[..dst.End()] == before[..dst.End()];
    var all := SpanText(after, Span(dst.start, dst.length + 1 + |part|));
    assert all == after[dst.start..dst.End()] + after[dst.End()..dst.End() + 1 + |part|];
    assert after[dst.End()..dst.End() + 1 + |part|] == [sep] + part;
    SameSlice(before, after, dst.End(), dst);
  }

  lemma PlacedMoved(spans: map<nat, Span>, pos: nat, cur: nat, n: nat, value: Span)
    requires Placed(spans, pos, cur) && cur <= n && n in spans && pos < value.start
    ensures Placed(Moved(spans, n, value), value.End(), n)
    ensures forall m :: m in spans && m != n ==> spans[m].End() <= spans[n].End()
  {
  }

  lemma SameTail(a: seq<byte>, b: seq<byte>, j: nat, k: nat)
    requires j <= k <= |a| == |b| && a[j..] == b[j..]
    ensures a[k..] == b[k..]
  {
    assert a[k..] == a[j..][k - j..] && b[k..] == b[j..][k - j..];
  }

  /** Moving a value behind the separator changes no other string, and nothing from the value's end on. */
  lemma MoveStep(before: seq<byte>, after: seq<byte>, spans: map<nat, Span>, pos: nat, cur: nat, n: nat, value: Span,
                 sep: byte)
    requires Placed(spans, pos, cur) && cur <= n && n in spans && pos < value.start && value.End() <= |before|
    requires spans[n].End() < value.start && |SpanText(before, value)| == value.length
    requires after == Overwrite(before, spans[n].End(), [sep] + SpanText(before, value))
    ensures |after| == |before| && after[value.End()..] == before[value.End()..]
    ensures Placed(Moved(spans, n, value), value.End(), n)
    ensures Texts(after, Moved(spans, n, value)) ==
            Texts(before, spans)[n := SpanText(before, spans[n]) + [sep] + SpanText(before, value)]
  {
    hide SpanText, Overwrite, Placed, Texts;
    var dst, part := spans[n], SpanText(before, value);
    MovedBytes(before, after, dst, sep, part);
    PlacedMoved(spans, pos, cur, n, value);
    SameTexts(before, after, spans, dst.End(), n, Span(dst.start, dst.length + 1 + value.length));
    SameTail(before, after, dst.End() + 1 + |part|, value.End());
  }

  function Moved(spans: map<nat, Span>, n: nat, value: Span): map<nat, Span>
    requires n in spans
  {
    spans[n := Span(spans[n].start, spans[n].length + 1 + value.length)]
  }

  /** memmove within the datagram. */
  method Memmove(data: array<byte>, to: nat, from: nat, length: nat)
    requires to + length <= data.Length && from + length <= data.Length
    modifies data
    ensures data[..] == Overwrite(old(data[..]), to, SpanText(old(data[..]), Span(from, length)))
  {
    forall i | 0 <= i < length {
      data[to + i] := data[from + i];
    }
  }

  class Packet {
    var typ: nat
    var code: byte
    var mid: nat
    var options: set<nat>
    var ints: map<nat, nat>
    var copies: map<nat, seq<byte>>
    var spans: map<nat, Span>
    var accept: seq<nat>
    var blocks: map<nat, Block>
    var payload: Span

    /** memset(coap_pkt, 0, sizeof(coap_packet_t)). */
    constructor ()
      ensures options == {} && ints == map[] && copies == map[] && spans == map[] && accept == [] && blocks == map[]
    {
      typ, code, mid, payload := 0, 0, 0, Span(0, 0);
      options, ints, copies, spans, accept, blocks := {}, map[], map[], map[], [], map[];
    }

    /** The fields as a value, with the strings read from the buffer. */
    ghost function Fields(bytes: seq<byte>): View
      reads this
    {
      View(options, ints, copies, Texts(bytes, spans), accept, blocks)
    }

    /** coap_merge_multi_option: nothing from the end of the value on changes. */
    method MergeMultiOption(data: array<byte>, n: nat, value: Span, sep: byte, ghost pos: nat, ghost cur: nat)
      requires Placed(spans, pos, cur) && cur <= n && pos < value.start && value.End() <= data.Length
      modifies data, this`spans
      ensures data[value.End()..] == old(data[value.End()..])
      ensures Placed(spans, value.End(), n)
      ensures Texts(data[..], spans) == JoinedTexts(old(Texts(data[..], spans)), n, SpanText(old(data[..]), value), sep)
    {
      hide Texts, Placed, SpanText, Overwrite;
      ghost var before := data[..];
      ghost var part := SpanText(before, value);
      if n in spans && spans[n].length > 0 {
        DestinationFits(before, spans, pos, cur, n, value);
        var dst := spans[n];
        data[dst.End()] := sep;
        ghost var s1 := data[..];
        Memmove(data, dst.End() + 1, value.start, value.length);
        SeparatorThenValue(before, s1, data[..], dst.End(), sep, value);
        MoveStep(before, data[..], spans, pos, cur, n, value, sep);
        JoinTwo(before, spans, n, part, sep);
        spans := Moved(spans, n, value);
      } else {
        PointStep(before, spans, pos, cur, n, value);
        JoinFirst(before, spans, n, part, sep);
        spans := spans[n := value];
      }
    }

    /** The switch of coap_parse_message for one option. */
    method ApplyOption(data: array<byte>, number: nat, value: Span, ghost pos: nat, ghost cur: nat)
      returns (status: Status)
      requires Placed(spans, pos, cur) && cur <= number && pos < value.start && value.End() <= data.Length
      modifies data, `options, `ints, `copies, `spans, `accept, `blocks
      ensures data[value.End()..] == old(data[value.End()..])
      ensures match old(Apply(Fields(data[..]), number, SpanText(data[..], value)))
              case Rejected(code) => status == Refused(code)
              case Accepted(view) => status == NoError && Fields(data[..]) == view && Placed(spans, value.End(), number)
    {
      hide Texts, Placed, SpanText, ParseInt, DecodeBlock, KindOf, Truncate, Merge;
      ghost var before := data[..];
      PlacedLater(spans, pos, cur, value.End(), number);
      options := options + {number};
      status := NoError;
      match KindOf(number) {
        case Int(wide) =>
          var v := ReadInt(data, value);
          ints := ints[number := if wide then v else v % 0x1_0000];
        case Copied =>
          var bytes := ReadBytes(data, value);
          copies := copies[number := bytes];
        case Pointed =>
          PointStep(before, spans, pos, cur, number, value);
          spans := spans[number := value];
        case Joined(sep) =>
          MergeMultiOption(data, number, value, sep, pos, cur);
        case Accepts =>
          if |accept| < MAX_ACCEPT_NUM {
            var v := ReadInt(data, value);
            accept := accept + [v % 0x1_0000];
          }
        case Blockwise =>
          var v := ReadInt(data, value);
          blocks := blocks[number := DecodeBlock(v)];
        case Flag =>
        case Fence =>
        case Proxy =>
          spans := spans[number := value];
          status := Refused(PROXYING_NOT_SUPPORTED_5_05);
        case Unknown =>
          if number % 2 == 1 {
            status := Refused(BAD_OPTION_4_02);
          }
      }
    }

    /** coap_parse_message: the fields end up as the received message, the strings standing in the datagram itself, and
        the payload is terminated by a zero byte, for which there must be room behind the datagram. */
    method Parse(data: array<byte>, length: nat, chunk: nat) returns (status: Status)
      requires COAP_HEADER_LEN <= length < data.Length
      modifies this, data
      ensures match ParseMessage(old(data[..length]), chunk)
              case Fault => status == OutOfData
              case Error(code) => status == Refused(code)
              case Received(message) =>
                && status == NoError
                && typ == message.typ && code == message.code && mid == message.mid
                && Fields(data[..]) == message.view && SpanText(data[..], payload) == message.payload
                && payload.End() < data.Length && data[payload.End()] == 0
    {
      hide ParseOptions, Texts, Placed, SpanText, Apply;
      ghost var before := data[..];
      HeaderOf(before, length);
      options, ints, copies, spans, accept, blocks := {}, map[], map[], map[], [], map[];
      typ, code, mid := data[0] as int / 16 % 4, data[1], data[2] as int * 256 + data[3] as int;
      if data[0] as int / 64 != 1 {
        return Refused(BAD_REQUEST_4_00);
      }
      NoTexts(before);
      var pos;
      status, pos := ParseAll(data, length, data[0] as int % 16);
      if status == NoError {
        payload := Span(pos, if length - pos > chunk then chunk else length - pos);
        ghost var s1 := data[..];
        PayloadOf(before, s1, length, pos, chunk, payload);
        data[payload.End()] := 0;
        Terminated(s1, data[..], spans, pos, payload);
      }
    }

    /** The loop over the options. */
    method ParseAll(data: array<byte>, length: nat, count: nat) returns (status: Status, pos: nat)
      requires COAP_HEADER_LEN <= length <= data.Length && spans == map[] && Fields(data[..]) == EMPTY_VIEW
      modifies data, `options, `ints, `copies, `spans, `accept, `blocks
      ensures match ParseOptions(old(data[..])[..length], COAP_HEADER_LEN, count, 0, EMPTY_VIEW)
              case Overread => status == OutOfData
              case Failed(code) => status == Refused(code)
              case Parsed(view, end) =>
                && status == NoError && pos == end <= length && Fields(data[..]) == view
                && data[pos..] == old(data[..])[pos..]
                && exists cur :: Placed(spans, pos, cur)
    {
      hide *;
      ghost var before := data[..];
      Begins(spans);
      var index: nat, number: nat := 0, 0;
      pos := COAP_HEADER_LEN;
      while index < count
        invariant index <= count && pos <= length && Placed(spans, pos, number)
        invariant data[pos..] == before[pos..]
        invariant ParseOptions(before[..length], COAP_HEADER_LEN, count, 0, EMPTY_VIEW) ==
                  ParseOptions(before[..length], pos, count - index, number, Fields(data[..]))
      {
        ghost var s1, view, from := data[..], Fields(data[..]), pos;
        OptionUnfold(before, s1, length, pos, count - index, number, view);
        if pos >= length || pos + HeaderLength(data[pos]) > length {
          return OutOfData, pos;
        }
        ghost var cur := number;
        number := number + data[pos] as int / 16;
        var value := ReadSpan(data, pos);
        if value.End() > length {
          return OutOfData, pos;
        }
        status := ApplyOption(data, number, value, from, cur);
        if status != NoError {
          return status, pos;
        }
        pos := value.End();
        SameTail(s1, before, from, value.End());
        assert data[pos..] == s1[pos..];
        index := index + 1;
      }
      status := NoError;
      Ends(before[..length], pos, number, Fields(data[..]));
    }
  }

  /** coap_parse_int_option. */
  method ReadInt(data: array<byte>, value: Span) returns (v: word)
    requires value.End() <= data.Length
    ensures v == ParseInt(SpanText(data[..], value))
  {
    ghost var bytes := SpanText(data[..], value);
    v := 0;
    var i := 0;
    while i < value.length
      invariant i <= value.length && v == ParseInt(bytes[..i])
    {
      assert bytes[..i + 1][..i] == bytes[..i];
      v := (v * 256 + data[value.start + i] as int) % 0x1_0000_0000;
      i := i + 1;
    }
    assert bytes[..i] == bytes;
  }

  /** memcpy of at most eight bytes. */
  method ReadBytes(data: array<byte>, value: Span) returns (bytes: seq<byte>)
    requires value.End() <= data.Length
    ensures bytes == Truncate(SpanText(data[..], value), ETAG_LEN)
  {
    var length := if value.length < ETAG_LEN then value.length else ETAG_LEN;
    bytes := data[value.start..value.start + length];
    assert data[..][value.start..value.End()][..length] == bytes;
  }

  /** The header of the option at pos: where its value stands. */
  function HeaderSpan(bytes: seq<byte>, pos: nat): Span
    requires pos < |bytes| && pos + HeaderLength(bytes[pos]) <= |bytes|
  {
    if bytes[pos] as int % 16 < 15 then Span(pos + 1, bytes[pos] as int % 16)
    else Span(pos + 2, bytes[pos + 1] as int + 15)
  }

  method ReadSpan(data: array<byte>, pos: nat) returns (value: Span)
    requires pos < data.Length && pos + HeaderLength(data[pos]) <= data.Length
    ensures value == HeaderSpan(data[..], pos)
  {
    if data[pos] as int % 16 < 15 {
      value := Span(pos + 1, data[pos] as int % 16);
    } else {
      value := Span(pos + 2, data[pos + 1] as int + 15);
    }
  }

  lemma Begins(spans: map<nat, Span>)
    requires spans == map[]
    ensures Placed(spans, COAP_HEADER_LEN, 0)
  {
  }

  lemma NoTexts(bytes: seq<byte>)
    ensures Texts(bytes, map[]) == map[]
  {
  }

  /** Buffers that agree from pos on, one of them cut off at length. */
  lemma SameFrom(before: seq<byte>, bytes: seq<byte>, length: nat, pos: nat, k: nat)
    requires pos <= k < length <= |before| == |bytes| && before[pos..] == bytes[pos..]
    ensures before[..length][k] == bytes[k]
  {
    assert before[pos..][k - pos] == bytes[pos..][k - pos];
  }

  lemma SliceFrom(before: seq<byte>, bytes: seq<byte>, length: nat, pos: nat, value: Span)
    requires pos <= value.start && value.End() <= length <= |before| == |bytes| && before[pos..] == bytes[pos..]
    ensures SpanText(bytes, value) == SpanText(before[..length], value)
  {
    var a, b := SpanText(bytes, value), SpanText(before[..length], value);
    forall i | 0 <= i < value.length ensures a[i] == b[i] {
      SameFrom(before, bytes, length, pos, value.start + i);
    }
  }

  lemma HeaderFrom(before: seq<byte>, bytes: seq<byte>, length: nat, pos: nat)
    requires pos < length <= |before| == |bytes| && before[pos..] == bytes[pos..]
    ensures var data := before[..length];
            && data[pos] == bytes[pos]
            && (pos + HeaderLength(bytes[pos]) <= length ==> HeaderSpan(data, pos) == HeaderSpan(bytes, pos))
            && (pos + HeaderLength(bytes[pos]) <= length ==>
               pos < HeaderSpan(data, pos).start <= HeaderSpan(data, pos).End())
  {
    SameFrom(before, bytes, length, pos, pos);
    if pos + 1 < length {
      SameFrom(before, bytes, length, pos, pos + 1);
    }
  }

  /** One round of the specification's loop. */
  lemma ParseUnfold(data: seq<byte>, pos: nat, count: nat, cur: nat, v: View)
    requires count > 0
    ensures var parsed := ParseOptions(data, pos, count, cur, v);
            if pos >= |data| || pos + HeaderLength(data[pos]) > |data| || HeaderSpan(data, pos).End() > |data| then
              parsed == Overread
            else
              var value := HeaderSpan(data, pos);
              parsed == match Apply(v, cur + data[pos] as int / 16, SpanText(data, value))
                        case Rejected(code) => Failed(code)
                        case Accepted(w) => ParseOptions(data, value.End(), count - 1, cur + data[pos] as int / 16, w)
  {
    hide Apply;
  }

  lemma OptionUnfold(before: seq<byte>, bytes: seq<byte>, length: nat, pos: nat, count: nat, cur: nat, v: View)
    requires pos <= length <= |before| == |bytes| && before[pos..] == bytes[pos..] && count > 0
    ensures var parsed := ParseOptions(before[..length], pos, count, cur, v);
            if pos >= length || pos + HeaderLength(bytes[pos]) > length || HeaderSpan(bytes, pos).End() > length then
              parsed == Overread
            else
              var number := cur + bytes[pos] as int / 16;
              var value := HeaderSpan(bytes, pos);
              && pos < value.start <= value.End()
              && parsed == match Apply(v, number, SpanText(bytes, value))
                           case Rejected(code) => Failed(code)
                           case Accepted(w) => ParseOptions(before[..length], value.End(), count - 1, number, w)
  {
    hide *;
    var data := before[..length];
    ParseUnfold(data, pos, count, cur, v);
    if pos < length {
      HeaderFrom(before, bytes, length, pos);
      if pos + HeaderLength(bytes[pos]) <= length {
        var value := HeaderSpan(bytes, pos);
        if value.End() <= length {
          SliceFrom(before, bytes, length, pos, value);
        }
      }
    }
  }

  ghost function JoinedTexts(texts: map<nat, seq<byte>>, n: nat, part: seq<byte>, sep: byte): map<nat, seq<byte>> {
    texts[n := Merge(if n in texts then texts[n] else [], part, sep)]
  }

  lemma DestinationFits(bytes: seq<byte>, spans: map<nat, Span>, pos: nat, cur: nat, n: nat, value: Span)
    requires Placed(spans, pos, cur) && n in spans && pos < value.start && value.End() <= |bytes|
    ensures spans[n].End() <= pos && spans[n].End() + 1 + value.length <= value.End()
    ensures |SpanText(bytes, value)| == value.length
  {
  }

  lemma SeparatorThenValue(before: seq<byte>, s1: seq<byte>, s2: seq<byte>, at: nat, sep: byte, value: Span)
    requires at < value.start && value.End() <= |before|
    requires s1 == before[at := sep] && s2 == Overwrite(s1, at + 1, SpanText(s1, value))
    ensures SpanText(before, value) == SpanText(s1, value)
            && s2 == Overwrite(before, at, [sep] + SpanText(before, value))
  {
    assert SpanText(before, value) == SpanText(s1, value);
  }

  lemma JoinTwo(bytes: seq<byte>, spans: map<nat, Span>, n: nat, part: seq<byte>, sep: byte)
    requires n in spans && spans[n].length > 0 && spans[n].End() <= |bytes|
    ensures JoinedTexts(Texts(bytes, spans), n, part, sep) ==
            Texts(bytes, spans)[n := SpanText(bytes, spans[n]) + [sep] + part]
  {
  }

  lemma JoinFirst(bytes: seq<byte>, spans: map<nat, Span>, n: nat, part: seq<byte>, sep: byte)
    requires n in spans ==> spans[n].length == 0
    ensures JoinedTexts(Texts(bytes, spans), n, part, sep) == Texts(bytes, spans)[n := part]
  {
  }

  lemma Ends(data: seq<byte>, pos: nat, cur: nat, v: View)
    ensures ParseOptions(data, pos, 0, cur, v) == Parsed(v, pos)
  {
  }

  lemma HeaderOf(bytes: seq<byte>, length: nat)
    requires COAP_HEADER_LEN <= length <= |bytes|
    ensures COAP_HEADER_LEN == 4 && forall k :: 0 <= k < 4 ==> bytes[..length][k] == bytes[k]
  {
  }

  lemma PayloadOf(before: seq<byte>, bytes: seq<byte>, length: nat, pos: nat, chunk: nat, payload: Span)
    requires pos <= length <= |before| == |bytes| && before[pos..] == bytes[pos..]
    requires payload == Span(pos, if length - pos > chunk then chunk else length - pos)
    ensures SpanText(bytes, payload) == Truncate(before[..length][pos..], chunk) && payload.End() <= length
  {
    assert bytes[pos..payload.End()] == bytes[pos..][..payload.length] == before[pos..][..payload.length];
    assert before[pos..][..payload.length] == before[..length][pos..][..payload.length];
  }

  /** The terminating zero stands behind every string. */
  lemma Terminated(before: seq<byte>, after: seq<byte>, spans: map<nat, Span>, pos: nat, payload: Span)
    requires (exists cur :: Placed(spans, pos, cur)) && pos == payload.start && payload.End() < |before|
    requires after == before[payload.End() := 0]
    ensures Texts(after, spans) == Texts(before, spans) && SpanText(after, payload) == SpanText(before, payload)
  {
    var cur :| Placed(spans, pos, cur);
    var k := payload.End();
    assert after[..k] == before[..k];
    SameSlice(before, after, k, payload);
    hide SpanText;
    forall n | n in spans ensures SpanText(after, spans[n]) == SpanText(before, spans[n]) {
      SameSlice(before, after, k, spans[n]);
    }
  }
}
