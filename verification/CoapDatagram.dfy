/** What the parser makes of any datagram, told from the options that stand in it: whether it is received, with which
    status it is refused otherwise, and what every field is. */
module CoapDatagram {
  import opened Bytes
  import opened CoapWire
  import opened CoapMessage
  import opened CoapFields
  import opened CoapCount

  // ----- the options in a datagram

  /** An option's header and value stand in data at pos. */
  predicate OptionAt(data: seq<byte>, pos: nat) {
    && pos < |data|
    && (data[pos] as int % 16 == 15 ==> pos + 1 < |data|)
    && ValueAt(data, pos) + LengthAt(data, pos) <= |data|
  }

  /** Where the value begins: a length of 15 says that the length goes on in a second byte. */
  function ValueAt(data: seq<byte>, pos: nat): nat
    requires pos < |data|
  {
    if data[pos] as int % 16 == 15 then pos + 2 else pos + 1
  }

  function LengthAt(data: seq<byte>, pos: nat): nat
    requires pos < |data| && (data[pos] as int % 16 == 15 ==> pos + 1 < |data|)
  {
    if data[pos] as int % 16 == 15 then 15 + data[pos + 1] as int else data[pos] as int % 16
  }

  /** The options that stand in data from pos to end, after option number cur. */
  ghost predicate Reads(data: seq<byte>, pos: nat, cur: nat, opts: seq<Opt>, end: nat)
    decreases |opts|
  {
    if opts == [] then end == pos <= |data|
    else
      && OptionAt(data, pos)
      && var start, next := ValueAt(data, pos), ValueAt(data, pos) + LengthAt(data, pos);
         && opts[0] == Opt(cur + data[pos] as int / 16, data[start..next])
         && Reads(data, next, opts[0].number, opts[1..], end)
  }

  /** The parser applies the options that stand in the datagram, and then goes on behind them. */
  lemma {:induction false} ReadsApplied(data: seq<byte>, pos: nat, count: nat, cur: nat, v: View, opts: seq<Opt>,
                                        end: nat)
    requires Reads(data, pos, cur, opts, end) && |opts| <= count
    ensures ParseOptions(data, pos, count, cur, v) ==
            match ApplyAll(v, opts)
            case Rejected(status) => Failed(status)
            case Accepted(w) => ParseOptions(data, end, count - |opts|, LastNumber(cur, opts), w)
    decreases |opts|
  {
    hide Apply;
    if opts != [] {
      var next := ValueAt(data, pos) + LengthAt(data, pos);
      var a := Apply(v, opts[0].number, opts[0].value);
      assert LastNumber(opts[0].number, opts[1..]) == LastNumber(cur, opts);
      if a.Accepted? {
        ReadsApplied(data, next, count - 1, opts[0].number, a.view, opts[1..], end);
      }
    }
  }

  /** As many options as are asked for, or up to the first that does not fit into the datagram. */
  lemma {:induction false} OptionsIn(data: seq<byte>, pos: nat, cur: nat, count: nat)
    returns (opts: seq<Opt>, end: nat)
    requires pos <= |data|
    ensures Reads(data, pos, cur, opts, end) && |opts| <= count && (|opts| < count ==> !OptionAt(data, end))
    decreases count
  {
    if count == 0 || !OptionAt(data, pos) {
      opts, end := [], pos;
    } else {
      var start, next := ValueAt(data, pos), ValueAt(data, pos) + LengthAt(data, pos);
      var first := Opt(cur + data[pos] as int / 16, data[start..next]);
      var rest;
      rest, end := OptionsIn(data, next, first.number, count - 1);
      opts := [first] + rest;
      assert opts[1..] == rest;
    }
  }

  // ----- which options are refused

  /** Proxy-Uri, and every option with an odd, that is critical, number that is not known. */
  predicate Refused(number: nat) { number == 3 || (number % 2 == 1 && number !in ORDER) }

  function Refusal(number: nat): nat { if number == 3 then 165 else 130 }

  /** The index of the first option that is refused, or their number. */
  function FirstRefused(opts: seq<Opt>): (k: nat)
    ensures k <= |opts| && (k < |opts| ==> Refused(opts[k].number))
    ensures forall i :: 0 <= i < k ==> !Refused(opts[i].number)
  {
    if opts == [] || Refused(opts[0].number) then 0 else 1 + FirstRefused(opts[1..])
  }

  lemma AppliedIff(v: View, number: nat, value: seq<byte>)
    ensures Apply(v, number, value).Accepted? <==> !Refused(number)
    ensures Refused(number) ==> Apply(v, number, value) == Rejected(Refusal(number))
  {
    hide ParseInt, Merge, DecodeBlock, Truncate;
    KnownNumbers(number);
  }

  lemma KnownNumbers(number: nat)
    ensures KindOf(number) == Unknown <==> number !in ORDER && number != FENCE_POST
    ensures KindOf(number) == Proxy <==> number == 3
  {
    assert forall j :: 0 <= j < |ORDER| ==> KindOf(ORDER[j]) != Unknown;
  }

  /** Options are refused with the status of the first that is. */
  lemma {:induction false} RefusedIff(v: View, opts: seq<Opt>)
    ensures var k := FirstRefused(opts);
            if k < |opts| then ApplyAll(v, opts) == Rejected(Refusal(opts[k].number)) else ApplyAll(v, opts).Accepted?
    decreases |opts|
  {
    hide Apply, Refused;
    if opts != [] {
      AppliedIff(v, opts[0].number, opts[0].value);
      if !Refused(opts[0].number) {
        RefusedIff(Apply(v, opts[0].number, opts[0].value).view, opts[1..]);
      }
    }
  }

  // ----- what the fields are

  function Power256(n: nat): nat { if n == 0 then 1 else 256 * Power256(n - 1) }

  /** The number that bytes denote, the first being the most significant. */
  function BigEndian(s: seq<byte>): nat {
    if s == [] then 0 else s[0] as int * Power256(|s| - 1) + BigEndian(s[1..])
  }

  lemma Shifted(digit: nat, power: nat)
    ensures digit * (256 * power) == 256 * (digit * power)
  {
  }

  lemma {:induction false} LastByte(s: seq<byte>)
    requires s != []
    ensures BigEndian(s) == 256 * BigEndian(s[..|s| - 1]) + s[|s| - 1] as int
    decreases |s|
  {
    if |s| == 1 {
      assert BigEndian(s) == s[0] as int * Power256(0) + BigEndian(s[1..]);
    } else {
      LastByte(s[1..]);
      var front := s[..|s| - 1];
      assert s[1..][..|s| - 2] == front[1..];
      Shifted(s[0] as int, Power256(|s| - 2));
      var rest := BigEndian(front[1..]);
      FirstByte(s);
      FirstByte(front);
      hide BigEndian, Power256;
    }
  }

  lemma FirstByte(s: seq<byte>)
    requires s != []
    ensures BigEndian(s) == s[0] as int * Power256(|s| - 1) + BigEndian(s[1..])
    ensures |s| > 1 ==> Power256(|s| - 1) == 256 * Power256(|s| - 2)
  {
  }

  lemma ModStep(x: nat, y: nat, b: nat)
    requires y == x % 0x1_0000_0000
    ensures (y * 256 + b) % 0x1_0000_0000 == (256 * x + b) % 0x1_0000_0000
  {
    var q := x / 0x1_0000_0000;
    assert 256 * x + b == (y * 256 + b) + 0x1_0000_0000 * (256 * q);
  }

  lemma {:induction false} IntIsBigEndian(s: seq<byte>)
    ensures ParseInt(s) == BigEndian(s) % 0x1_0000_0000
    decreases |s|
  {
    if s != [] {
      hide BigEndian;
      IntIsBigEndian(s[..|s| - 1]);
      LastByte(s);
      ModStep(BigEndian(s[..|s| - 1]), ParseInt(s[..|s| - 1]), s[|s| - 1] as int);
    }
  }

  function Power2(e: nat): nat { if e == 0 then 1 else 2 * Power2(e - 1) }

  /** A Block value: the number above four bits, a bit for the more flag, and three bits for the size. */
  ghost predicate IsBlock(b: Block, w: nat) {
    && b.num == w / 16 && b.more == w / 8 % 2 && b.size == 16 * Power2(w % 8)
    && b.offset == b.num * b.size % 0x1_0000_0000
  }

  lemma DecodedBlock(w: word)
    ensures IsBlock(DecodeBlock(w), w)
  {
    var e := w % 8;
    assert Power2(e) == BlockScale(e) by {
      assert Power2(3) == 8 && Power2(4) == 16 && Power2(5) == 32 && Power2(6) == 64 && Power2(7) == 128;
    }
    hide BlockScale, Power2;
    assert BlockScale(e) * (w / 16 * 16) == w / 16 * (16 * BlockScale(e));
  }

  /** The fields that hold the value of the last option with their number: 32-bit and 16-bit integers, at most eight
      bytes, Uri-Host, and blocks. */
  ghost predicate Holds(r: View, n: nat, value: seq<byte>) {
    && (n == 1 || n == 2 ==> IntOf(r, n) == BigEndian(value) % 0x1_0000_0000)
    && (n == 7 || n == 10 ==> IntOf(r, n) == BigEndian(value) % 0x1_0000_0000 % 0x1_0000)
    && (n == 4 || n == 11 || n == 13 ==> CopyOf(r, n) == if |value| <= 8 then value else value[..8])
    && (n == 5 ==> TextOf(r, n) == value)
    && (n == 17 || n == 19 ==> IsBlock(BlockOf(r, n), BigEndian(value) % 0x1_0000_0000))
  }

  ghost predicate Alike(r: View, v: View, n: nat) {
    IntOf(r, n) == IntOf(v, n) && CopyOf(r, n) == CopyOf(v, n) && TextOf(r, n) == TextOf(v, n)
      && BlockOf(r, n) == BlockOf(v, n)
  }

  lemma AppliedHolds(v: View, number: nat, value: seq<byte>)
    requires Apply(v, number, value).Accepted?
    ensures Holds(Apply(v, number, value).view, number, value)
  {
    hide BigEndian, IsBlock, DecodeBlock, ParseInt, Merge;
    IntIsBigEndian(value);
    DecodedBlock(ParseInt(value));
  }

  lemma OthersAlike(v: View, number: nat, value: seq<byte>, n: nat)
    requires Apply(v, number, value).Accepted? && n != number
    ensures Alike(Apply(v, number, value).view, v, n)
  {
    hide Apply;
    ApplyOnlyChanges(v, number, value);
    assert Same(v, Apply(v, number, value).view, n);
  }

  lemma HoldsAlike(r: View, v: View, n: nat, value: seq<byte>)
    requires Alike(r, v, n) && Holds(v, n, value)
    ensures Holds(r, n, value)
  {
    hide BigEndian, IsBlock;
  }

  lemma {:induction false} LastHolds(v: View, opts: seq<Opt>, n: nat)
    requires ApplyAll(v, opts).Accepted?
    ensures var r, values := ApplyAll(v, opts).view, ValuesOf(opts, n);
            if values == [] then Alike(r, v, n) else Holds(r, n, values[|values| - 1])
    decreases |opts|
  {
    hide Apply, Holds, Alike;
    if opts == [] {
      AlikeSelf(v, n);
    } else {
      var w := Apply(v, opts[0].number, opts[0].value).view;
      LastHolds(w, opts[1..], n);
      var r := ApplyAll(w, opts[1..]).view;
      if opts[0].number != n {
        OthersAlike(v, opts[0].number, opts[0].value, n);
        AlikeTransitive(r, w, v, n);
      } else {
        AppliedHolds(v, n, opts[0].value);
        if ValuesOf(opts[1..], n) == [] {
          HoldsAlike(r, w, n, opts[0].value);
        }
      }
    }
  }

  lemma AlikeSelf(v: View, n: nat)
    ensures Alike(v, v, n)
  {
  }

  lemma AlikeTransitive(r: View, w: View, v: View, n: nat)
    ensures Alike(r, w, n) && Alike(w, v, n) ==> Alike(r, v, n)
  {
  }

  function FirstTwo(s: seq<nat>): seq<nat> { if |s| <= 2 then s else s[..2] }

  /** Content types, in 16 bits. */
  function Contents(values: seq<seq<byte>>): seq<nat> {
    if values == [] then [] else [BigEndian(values[0]) % 0x1_0000_0000 % 0x1_0000] + Contents(values[1..])
  }

  lemma AcceptApplied(v: View, number: nat, value: seq<byte>)
    requires Apply(v, number, value).Accepted? && |v.accept| <= 2
    ensures Apply(v, number, value).view.accept ==
            if number == 12 then FirstTwo(v.accept + [BigEndian(value) % 0x1_0000_0000 % 0x1_0000]) else v.accept
  {
    hide BigEndian, DecodeBlock, ParseInt, Merge;
    IntIsBigEndian(value);
  }

  lemma {:induction false} FirstContents(v: View, opts: seq<Opt>)
    requires ApplyAll(v, opts).Accepted? && |v.accept| <= 2
    ensures ApplyAll(v, opts).view.accept == FirstTwo(v.accept + Contents(ValuesOf(opts, 12)))
    decreases |opts|
  {
    hide Apply, BigEndian;
    if opts == [] {
      assert v.accept + [] == v.accept;
    } else {
      AcceptApplied(v, opts[0].number, opts[0].value);
      FirstContents(Apply(v, opts[0].number, opts[0].value).view, opts[1..]);
      var rest := ValuesOf(opts[1..], 12);
      if opts[0].number == 12 {
        var x := BigEndian(opts[0].value) % 0x1_0000_0000 % 0x1_0000;
        assert ValuesOf(opts, 12)[1..] == rest;
        assert v.accept + [x] + Contents(rest) == v.accept + ([x] + Contents(rest));
      } else {
        assert ValuesOf(opts, 12) == rest;
      }
    }
  }

  const PATH_SEPARATOR: byte := 0x2f
  const QUERY_SEPARATOR: byte := 0x26

  ghost predicate FieldIs(r: View, opts: seq<Opt>, n: nat) {
    var values := ValuesOf(opts, n);
    && (n in r.options <==> values != [])
    && (values == [] ==> Alike(r, EMPTY_VIEW, n))
    && (values != [] ==> Holds(r, n, values[|values| - 1]))
  }

  /** Every field is told by the values of its own option: an absent one leaves it zero or empty, paths and queries are
      joined from the first non-empty value on, two content types are kept, and all others hold the last value. */
  ghost predicate FieldsAre(r: View, opts: seq<Opt>) {
    && (forall n :: FieldIs(r, opts, n))
    && (forall n :: n == 6 || n == 9 ==> TextOf(r, n) == Join(FromFirstNonEmpty(ValuesOf(opts, n)), PATH_SEPARATOR))
    && (forall n :: n == 8 || n == 15 ==> TextOf(r, n) == Join(FromFirstNonEmpty(ValuesOf(opts, n)), QUERY_SEPARATOR))
    && r.accept == FirstTwo(Contents(ValuesOf(opts, 12)))
  }

  lemma FieldFromOptions(opts: seq<Opt>, n: nat)
    requires ApplyAll(EMPTY_VIEW, opts).Accepted?
    ensures FieldIs(ApplyAll(EMPTY_VIEW, opts).view, opts, n)
  {
    hide Apply, ApplyAll, Holds, ValuesOf, Alike;
    FieldIsSet(EMPTY_VIEW, opts, n);
    LastHolds(EMPTY_VIEW, opts, n);
  }

  lemma FieldsFromOptions(opts: seq<Opt>)
    requires ApplyAll(EMPTY_VIEW, opts).Accepted?
    ensures FieldsAre(ApplyAll(EMPTY_VIEW, opts).view, opts)
  {
    hide Apply, ApplyAll, FieldIs, Join, FromFirstNonEmpty, Contents, ValuesOf;
    forall n ensures FieldIs(ApplyAll(EMPTY_VIEW, opts).view, opts, n) {
      FieldFromOptions(opts, n);
    }
    JoinedField(opts, 6, PATH_SEPARATOR);
    JoinedField(opts, 9, PATH_SEPARATOR);
    JoinedField(opts, 8, QUERY_SEPARATOR);
    JoinedField(opts, 15, QUERY_SEPARATOR);
    FirstContents(EMPTY_VIEW, opts);
    assert [] + Contents(ValuesOf(opts, 12)) == Contents(ValuesOf(opts, 12));
  }

  lemma JoinedField(opts: seq<Opt>, n: nat, sep: byte)
    requires ApplyAll(EMPTY_VIEW, opts).Accepted? && KindOf(n) == Joined(sep)
    ensures TextOf(ApplyAll(EMPTY_VIEW, opts).view, n) == Join(FromFirstNonEmpty(ValuesOf(opts, n)), sep)
  {
    FieldAfter(EMPTY_VIEW, opts, n, sep);
    MergeIsJoin(ValuesOf(opts, n), sep);
  }

  // ----- whole datagrams

  /** The number of options that the header announces. */
  function Announced(data: seq<byte>): nat
    requires |data| >= 4
  {
    data[0] as int % 16
  }

  /** Type, code and message id stand in the first four octets, the payload is what is left behind the options, cut to
      the size of a chunk. */
  predicate HeaderAndRest(m: Message, data: seq<byte>, end: nat, chunk: nat)
    requires 4 <= |data| && end <= |data|
  {
    && m.typ == data[0] as int / 16 % 4 && m.code == data[1] && m.mid == 256 * (data[2] as int) + data[3] as int
    && m.payload == (if |data| - end <= chunk then data[end..] else data[end..end + chunk])
  }

  /** For any datagram of version 1 and the options that stand in it, as many as its header says or up to the first that
      is cut off: it is refused exactly when one of them is refused, with the status of the first; otherwise it is
      received if all are there, with the header fields and the rest of the datagram as payload, each field being what
      its own option's values make of it. */
  lemma DatagramIff(data: seq<byte>, chunk: nat, opts: seq<Opt>, end: nat)
    requires |data| >= 4 && data[0] as int / 64 == 1
    requires Reads(data, 4, 0, opts, end) && |opts| <= Announced(data)
    requires |opts| < Announced(data) ==> !OptionAt(data, end)
    ensures var k, result := FirstRefused(opts), ParseMessage(data, chunk);
            if k < |opts| then result == Error(Refusal(opts[k].number))
            else if |opts| < Announced(data) then result == Fault
            else
              result.Received? && end <= |data| && HeaderAndRest(result.message, data, end, chunk)
              && FieldsAre(result.message.view, opts)
  {
    hide Apply, ApplyAll, FieldsAre, OptionAt, Reads, Refused, ParseMessage, ParseOptions, Refusal, Announced,
      HeaderAndRest, LastNumber;
    ReadsApplied(data, 4, Announced(data), 0, EMPTY_VIEW, opts, end);
    EndInside(data, 4, 0, opts, end);
    RefusedIff(EMPTY_VIEW, opts);
    MessageFrom(data, chunk);
    var a := ApplyAll(EMPTY_VIEW, opts);
    if a.Accepted? {
      FieldsFromOptions(opts);
      if |opts| < Announced(data) {
        CutOff(data, end, Announced(data) - |opts|, LastNumber(0, opts), a.view);
      } else {
        NoMore(data, end, LastNumber(0, opts), a.view);
      }
    }
  }

  lemma MessageFrom(data: seq<byte>, chunk: nat)
    requires |data| >= 4 && data[0] as int / 64 == 1
    ensures var parsed, result := ParseOptions(data, 4, Announced(data), 0, EMPTY_VIEW), ParseMessage(data, chunk);
            && (parsed.Overread? ==> result == Fault)
            && (parsed.Failed? ==> result == Error(parsed.status))
            && (parsed.Parsed? ==>
                  && result.Received? && result.message.view == parsed.view
                  && (parsed.end <= |data| ==> HeaderAndRest(result.message, data, parsed.end, chunk)))
  {
    hide ParseOptions;
    var parsed := ParseOptions(data, 4, Announced(data), 0, EMPTY_VIEW);
    if parsed.Parsed? && parsed.end <= |data| && |data| - parsed.end > chunk {
      assert data[parsed.end..][..chunk] == data[parsed.end..parsed.end + chunk];
    }
  }

  lemma {:induction false} EndInside(data: seq<byte>, pos: nat, cur: nat, opts: seq<Opt>, end: nat)
    requires Reads(data, pos, cur, opts, end)
    ensures end <= |data|
    decreases |opts|
  {
    if opts != [] {
      EndInside(data, ValueAt(data, pos) + LengthAt(data, pos), opts[0].number, opts[1..], end);
    }
  }

  lemma CutOff(data: seq<byte>, pos: nat, count: nat, cur: nat, v: View)
    requires count > 0 && !OptionAt(data, pos)
    ensures ParseOptions(data, pos, count, cur, v) == Overread
  {
    hide Apply;
  }

  /** Every datagram of at least four bytes is one of these, or of another version and refused as a bad request. */
  lemma AnyDatagram(data: seq<byte>, chunk: nat) returns (opts: seq<Opt>, end: nat)
    requires |data| >= 4
    ensures Reads(data, 4, 0, opts, end) && |opts| <= Announced(data)
    ensures |opts| < Announced(data) ==> !OptionAt(data, end)
    ensures data[0] as int / 64 != 1 ==> ParseMessage(data, chunk) == Error(128)
  {
    hide Reads, OptionAt;
    opts, end := OptionsIn(data, 4, 0, Announced(data));
  }
}
