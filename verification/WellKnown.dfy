/** The listing of /.well-known/core, sent in blocks: well_known_core_handler of
    dep/apps/er-coap-07/er-coap-07-engine.c. */
module WellKnown {
  import opened Bytes
  import opened Wrappers

  /** listed is the outcome of the rt filter for the resource. */
  datatype Resource = Resource(url: seq<byte>, attributes: seq<byte>, listed: bool)

  const LESS: byte := 0x3c
  const SLASH: byte := 0x2f
  const GREATER: byte := 0x3e
  const SEMICOLON: byte := 0x3b
  const COMMA: byte := 0x2c

  // ----- the listing as a whole

  function Attributes(r: Resource): seq<byte> { if r.attributes == [] then [] else [SEMICOLON] + r.attributes }

  /** One link; every link but that of the last resource is followed by a comma. */
  function Link(r: Resource, last: bool): seq<byte> {
    if !r.listed then []
    else [LESS] + [SLASH] + r.url + [GREATER] + Attributes(r) + if last then [] else [COMMA]
  }

  function Listing(resources: seq<Resource>): seq<byte> {
    if resources == [] then [] else Link(resources[0], |resources| == 1) + Listing(resources[1..])
  }

  /** The links of the first i resources. */
  function LinksUpTo(resources: seq<Resource>, i: nat): seq<byte>
    requires i <= |resources|
  {
    if i == 0 then [] else LinksUpTo(resources, i - 1) + Link(resources[i - 1], i == |resources|)
  }

  /** The listing ends with the attributes of the last resource. */
  predicate EndsInAttributes(resources: seq<Resource>) {
    resources != [] && resources[|resources| - 1].listed && resources[|resources| - 1].attributes != []
  }

  lemma {:induction false} LinksThenListing(resources: seq<Resource>, i: nat)
    requires i <= |resources|
    ensures LinksUpTo(resources, i) + Listing(resources[i..]) == Listing(resources)
    decreases i
  {
    hide Link;
    if i == 0 {
      assert resources[0..] == resources;
    } else {
      LinksThenListing(resources, i - 1);
      ListingAt(resources, i - 1);
    }
  }

  lemma ListingAt(resources: seq<Resource>, i: nat)
    requires i < |resources|
    ensures Listing(resources[i..]) == Link(resources[i], i + 1 == |resources|) + Listing(resources[i + 1..])
  {
    hide Link;
    assert resources[i..][1..] == resources[i + 1..];
  }

  // ----- the listing in the link format

  /** A resource in the link format: </url> and, behind a semicolon, its attributes. */
  function LinkText(r: Resource): seq<byte> {
    [0x3c, 0x2f] + r.url + if r.attributes == [] then [0x3e] else [0x3e, 0x3b] + r.attributes
  }

  /** The texts of the listed resources. */
  function Texts(resources: seq<Resource>): seq<seq<byte>> {
    if resources == [] then []
    else (if resources[0].listed then [LinkText(resources[0])] else []) + Texts(resources[1..])
  }

  function Commas(texts: seq<seq<byte>>): seq<byte> {
    if texts == [] then [] else if |texts| == 1 then texts[0] else texts[0] + [0x2c] + Commas(texts[1..])
  }

  /** The comma behind a link depends on whether another resource follows, listed or not: the listing is the links of
      the listed resources joined by commas, and ends with a comma exactly when the last resource has been filtered out
      and others have not. */
  lemma {:induction false} ListingIsJoined(resources: seq<Resource>)
    ensures var texts := Texts(resources);
            Listing(resources) == Commas(texts) +
              if texts != [] && !resources[|resources| - 1].listed then [0x2c] else []
    decreases |resources|
  {
    hide LinkText, Link, Commas;
    if resources == [] {
      CommasOf([]);
    } else {
      var r, rest := resources[0], resources[1..];
      ListingIsJoined(rest);
      LinkIsText(r, |resources| == 1);
      LastListed(rest);
      var trailing: seq<byte> := if !resources[|resources| - 1].listed then [0x2c] else [];
      if r.listed {
        CommasOf([LinkText(r)] + Texts(rest));
        Joined(LinkText(r), Commas(Texts(rest)), trailing);
        assert ([LinkText(r)] + Texts(rest))[1..] == Texts(rest);
      } else {
        assert [] + Texts(rest) == Texts(rest) && [] + Listing(rest) == Listing(rest);
      }
    }
  }

  lemma CommasOf(texts: seq<seq<byte>>)
    ensures Commas(texts) == if texts == [] then [] else if |texts| == 1 then texts[0]
                             else texts[0] + [0x2c] + Commas(texts[1..])
  {
  }

  lemma Joined(text: seq<byte>, rest: seq<byte>, trailing: seq<byte>)
    ensures text + [0x2c] + (rest + trailing) == text + [0x2c] + rest + trailing
    ensures text + [] == text
  {
  }

  lemma LinkIsText(r: Resource, last: bool)
    ensures Link(r, last) == if !r.listed then [] else if last then LinkText(r) else LinkText(r) + [0x2c]
  {
  }

  lemma {:induction false} LastListed(resources: seq<Resource>)
    ensures Texts(resources) == [] ==>
              Listing(resources) == [] && forall i :: 0 <= i < |resources| ==> !resources[i].listed
    decreases |resources|
  {
    hide LinkText;
    if resources != [] {
      LastListed(resources[1..]);
    }
  }

  // ----- the part of a text that falls into a block

  /** How much of a text of this length lies in [off, off + size). */
  function Covered(length: nat, off: nat, size: nat): nat { Min(Max(length - off, 0), size) }

  function Slice(text: seq<byte>, off: nat, size: nat): (s: seq<byte>)
    ensures |s| == Covered(|text|, off, size)
  {
    if |text| <= off then [] else text[off..off + Covered(|text|, off, size)]
  }

  lemma SliceOfMore(text: seq<byte>, more: seq<byte>, off: nat, size: nat)
    ensures Slice(text, off, size) <= Slice(text + more, off, size)
    ensures |text| >= off + size ==> Slice(text + more, off, size) == Slice(text, off, size)
  {
  }

  lemma SliceAppend(text: seq<byte>, s: seq<byte>, off: nat, size: nat)
    requires |text| < off + size
    ensures var skip := Max(off - |text|, 0);
            Slice(text + s, off, size) ==
            Slice(text, off, size) + if skip >= |s| then []
              else s[skip..skip + Min(|s| - skip, size - Covered(|text|, off, size))]
  {
  }

  // ----- filling the buffer

  class Writer {
    const buffer: array<byte>
    const offset: nat
    const size: nat
    var strpos: nat
    var bufpos: nat

    constructor (buffer: array<byte>, offset: nat, size: nat)
      requires size > 0 && size + 1 <= buffer.Length
      ensures this.buffer == buffer && this.offset == offset && this.size == size && Shows([])
    {
      this.buffer, this.offset, this.size := buffer, offset, size;
      strpos, bufpos := 0, 0;
    }

    /** text has been passed over, and its part in the block stands in the buffer. */
    ghost predicate Shows(text: seq<byte>)
      reads this, buffer
    {
      && size > 0 && size + 1 <= buffer.Length && strpos == |text| && bufpos == Covered(|text|, offset, size)
      && buffer[..bufpos] == Slice(text, offset, size)
    }

    /** The block is complete, and text, which has been begun, goes to its end at least. */
    ghost predicate Full(text: seq<byte>)
      reads this, buffer
    {
      && size > 0 && size + 1 <= buffer.Length && bufpos >= size && |text| >= offset + size
      && buffer[..size] == Slice(text, offset, size)
    }

    method PutChar(c: byte, ghost text: seq<byte>)
      requires Shows(text)
      modifies this, buffer
      ensures Shows(text + [c])
    {
      ghost var before := buffer[..];
      if |text| < offset + size {
        SliceAppend(text, [c], offset, size);
      } else {
        SliceOfMore(text, [c], offset, size);
      }
      if strpos >= offset && bufpos < size {
        buffer[bufpos] := c;
        assert buffer[..bufpos] == before[..bufpos];
        bufpos := bufpos + 1;
      }
      strpos := strpos + 1;
    }

    /** snprintf of what the block still needs; bufpos advances by the length that would have been written. */
    method PutString(s: seq<byte>, ghost text: seq<byte>) returns (full: bool)
      requires Shows(text)
      modifies this, buffer
      ensures full == (|text + s| >= offset + size)
      ensures if full then Full(text + s) else Shows(text + s)
    {
      hide Slice, Overwrite;
      full := false;
      ghost var before, written := buffer[..], bufpos;
      StringWindow(text, s, offset, size);
      if strpos + |s| > offset {
        var skip := if offset > strpos then offset - strpos else 0;
        var rest := s[skip..];
        Snprintf(buffer, bufpos, size - bufpos, rest);
        PrintedWindow(before, buffer[..], text, s, offset, size);
        bufpos := bufpos + |rest|;
        if bufpos >= size {
          full := true;
          return;
        }
      }
      strpos := strpos + |s|;
    }

    /** The body of the loop for a listed resource. full: the block was completed inside the link, and the loop is
        left. */
    method PutLink(r: Resource, last: bool, ghost text: seq<byte>) returns (full: bool)
      requires Shows(text) && r.listed
      modifies this, buffer
      ensures var whole := text + Link(r, last);
              if full then
                && Full(whole)
                && (|whole| == offset + size ==> last && r.attributes != [])
              else
                && Shows(whole)
                && (last && r.attributes != [] ==> |whole| < offset + size)
    {
      hide Slice, Shows, Full;
      full := false;
      PutChar(LESS, text);
      ghost var t := text + [LESS];
      PutChar(SLASH, t);
      t := t + [SLASH];
      var stop := PutString(r.url, t);
      t := t + r.url;
      LinkParts(text, r, last);
      if stop {
        FullLonger(t, [GREATER] + Attributes(r) + if last then [] else [COMMA]);
        return true;
      }
      PutChar(GREATER, t);
      t := t + [GREATER];
      if r.attributes != [] {
        PutChar(SEMICOLON, t);
        t := t + [SEMICOLON];
        stop := PutString(r.attributes, t);
        t := t + r.attributes;
        if stop {
          FullLonger(t, if last then [] else [COMMA]);
          return true;
        }
      }
      if !last {
        PutChar(COMMA, t);
      }
    }

    lemma ShownFull(text: seq<byte>)
      requires Shows(text) && bufpos >= size
      ensures Full(text) && strpos == |text| && bufpos == size
    {
    }

    /** What is in the buffer at the end. */
    lemma Result(text: seq<byte>)
      requires Shows(text) || Full(text)
      ensures size > 0 && size + 1 <= buffer.Length
      ensures buffer[..if bufpos < size then bufpos else size] == Slice(text, offset, size)
      ensures bufpos > 0 <==> offset < |text|
      ensures bufpos == 0 ==> strpos == |text|
    {
      hide Slice;
    }

    lemma FullLonger(text: seq<byte>, more: seq<byte>)
      requires Full(text)
      ensures Full(text + more) && |text| >= offset + size
    {
      hide Slice;
      SliceOfMore(text, more, offset, size);
    }
  }

  lemma LinkParts(text: seq<byte>, r: Resource, last: bool)
    requires r.listed
    ensures var whole := text + Link(r, last);
            var t := text + [LESS] + [SLASH] + r.url;
            && whole == t + ([GREATER] + Attributes(r) + if last then [] else [COMMA])
            && var body := if r.attributes == [] then t + [GREATER] else t + [GREATER] + [SEMICOLON] + r.attributes;
               whole == if last then body else body + [COMMA]
  {
    var t := text + [LESS] + [SLASH] + r.url;
    var tail := [GREATER] + Attributes(r) + if last then [] else [COMMA];
    assert Link(r, last) == [LESS] + [SLASH] + r.url + tail;
    assert text + Link(r, last) == t + tail;
  }

  /** snprintf(buffer + at, room + 1, "%s", s): at most room characters and a terminating zero. */
  method Snprintf(buffer: array<byte>, at: nat, room: nat, s: seq<byte>)
    requires at + room + 1 <= buffer.Length
    modifies buffer
    ensures buffer[..] == Overwrite(old(buffer[..]), at, s[..Min(|s|, room)] + [0])
  {
    var n := if |s| < room then |s| else room;
    forall i | 0 <= i < n {
      buffer[at + i] := s[i];
    }
    buffer[at + n] := 0;
  }

  /** What a string adds to the block. */
  lemma StringWindow(text: seq<byte>, s: seq<byte>, off: nat, size: nat)
    ensures |text| + |s| <= off ==> Slice(text + s, off, size) == Slice(text, off, size)
    ensures |text| + |s| > off && |text| < off + size ==>
              var rest := s[Max(off - |text|, 0)..];
              Slice(text + s, off, size) ==
                Slice(text, off, size) + rest[..Min(|rest|, size - Covered(|text|, off, size))]
    ensures |text| >= off + size ==> Slice(text + s, off, size) == Slice(text, off, size)
  {
    if |text| < off + size {
      SliceAppend(text, s, off, size);
    } else {
      SliceOfMore(text, s, off, size);
    }
  }

  lemma PrintedWindow(before: seq<byte>, after: seq<byte>, text: seq<byte>, s: seq<byte>, off: nat, size: nat)
    requires |text| + |s| > off && size + 1 <= |before|
    requires before[..Covered(|text|, off, size)] == Slice(text, off, size)
    requires var rest := s[Max(off - |text|, 0)..];
             var at := Covered(|text|, off, size);
             after == Overwrite(before, at, rest[..Min(|rest|, size - at)] + [0])
    ensures after[..Covered(|text + s|, off, size)] == Slice(text + s, off, size)
  {
    StringWindow(text, s, off, size);
  }

  // ----- the handler

  datatype Payload = LinkFormat(bytes: seq<byte>) | OutOfScope | Unset

  /** No resource is left when the block has been filled. */
  predicate Exhausted(resources: seq<Resource>, off: nat, size: nat) {
    var length := |Listing(resources)|;
    length < off + size || (length == off + size && !EndsInAttributes(resources))
  }

  lemma LinksStep(resources: seq<Resource>, i: nat)
    requires i <= |resources|
    ensures i == |resources| ==> LinksUpTo(resources, i) == Listing(resources)
    ensures i < |resources| ==>
              && LinksUpTo(resources, i + 1) == LinksUpTo(resources, i) + Link(resources[i], i + 1 == |resources|)
              && Listing(resources) == LinksUpTo(resources, i + 1) + Listing(resources[i + 1..])
              && (!resources[i].listed ==> LinksUpTo(resources, i + 1) == LinksUpTo(resources, i))
  {
    if i == |resources| {
      LinksThenListing(resources, i);
      assert LinksUpTo(resources, i) + [] == LinksUpTo(resources, i);
    } else {
      LinksThenListing(resources, i + 1);
      assert LinksUpTo(resources, i) + [] == LinksUpTo(resources, i);
    }
  }

  /** well_known_core_handler: the block at offset, and the offset of the next one or -1. */
  method WellKnownCore(resources: seq<Resource>, buffer: array<byte>, size: nat, offset: nat)
    returns (payload: Payload, next: int)
    requires size > 0 && size + 1 <= buffer.Length
    modifies buffer
    ensures var whole := Listing(resources);
            payload == if offset < |whole| then LinkFormat(Slice(whole, offset, size))
              else if whole != [] then OutOfScope else Unset
    ensures next == if Exhausted(resources, offset, size) then -1 else offset + size
  {
    hide Slice, Link, Listing;
    var w := new Writer(buffer, offset, size);
    var i, stopped := 0, false;
    while i < |resources| && !stopped
      invariant i <= |resources| && w.buffer == buffer && w.offset == offset && w.size == size && fresh(w)
      invariant !stopped ==> w.Shows(LinksUpTo(resources, i)) && |LinksUpTo(resources, i)| <= offset + size
      invariant !stopped && i == |resources| && EndsInAttributes(resources) ==>
                  |LinksUpTo(resources, i)| < offset + size
      invariant stopped ==> w.Full(Listing(resources)) && !Exhausted(resources, offset, size)
      decreases |resources| - i, if stopped then 0 else 1
    {
      ghost var text := LinksUpTo(resources, i);
      var r, last := resources[i], i + 1 == |resources|;
      LinksStep(resources, i);
      if r.listed {
        stopped := w.PutLink(r, last, text);
        if !stopped && w.bufpos >= size && w.strpos - w.bufpos > offset {
          stopped := true;
          w.ShownFull(LinksUpTo(resources, i + 1));
        }
        if stopped {
          w.FullLonger(LinksUpTo(resources, i + 1), Listing(resources[i + 1..]));
        }
      }
      if !stopped {
        i := i + 1;
      }
    }
    if !stopped {
      LinksStep(resources, i);
    }
    w.Result(Listing(resources));
    if w.bufpos > 0 {
      payload := LinkFormat(buffer[..if w.bufpos < size then w.bufpos else size]);
    } else if w.strpos > 0 {
      payload := OutOfScope;
    } else {
      payload := Unset;
    }
    next := if stopped then offset + size else -1;
  }
}
