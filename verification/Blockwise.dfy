/** Block-wise transfer in dep/apps/er-coap-07/er-coap-07-engine.c: the Block2 logic of coap_receive, the blocking
    client, and the two of them together. */
module Blockwise {
  import opened Bytes
  import opened CoapMessage
  import WellKnown
  import opened Wrappers

  const COAP_MAX_ATTEMPTS: nat := 4

  /** "BlockOutOfScope" */
  const OUT_OF_SCOPE: seq<byte> := [0x42, 0x6c, 0x6f, 0x63, 0x6b, 0x4f, 0x75, 0x74, 0x4f, 0x66, 0x53, 0x63, 0x6f, 0x70,
                                    0x65]

  // ----- the server

  /** A resource: the listing, which cuts its own blocks, or one whose handler returns a whole body. */
  datatype Service = Aware(resources: seq<WellKnown.Resource>) | Unaware(body: seq<byte>) {
    function Representation(): seq<byte> { if Aware? then WellKnown.Listing(resources) else body }
  }

  datatype Tag = NoTag | Tag(num: nat, more: bool, size: nat)

  datatype Reply = Reply(ok: bool, tag: Tag, payload: seq<byte>)

  datatype Asked = NoBlock | Asked(block: Block)

  /** coap_set_header_block2 on the response. */
  function Tagged(num: nat, more: bool, size: nat): Tag {
    if BlockInRange(Block(num, 0, size, 0)) then Tag(num, more, size) else NoTag
  }

  /** Whether blocks follow the one at off. */
  predicate Continues(service: Service, off: nat, size: nat) {
    match service
    case Aware(resources) => !WellKnown.Exhausted(resources, off, size)
    case Unaware(body) => off + size < |body|
  }

  /** The reply to a block request, or to a request without one. */
  function Served(service: Service, asked: Asked, chunk: nat): Reply {
    var whole := service.Representation();
    match asked
    case NoBlock =>
      if service.Unaware? then Reply(true, NoTag, WellKnown.Slice(whole, 0, chunk))
      else Reply(true, Tagged(0, Continues(service, 0, chunk), chunk), WellKnown.Slice(whole, 0, chunk))
    case Asked(b) =>
      var size := Min(b.size, chunk);
      if b.offset < |whole| then
        Reply(true, Tagged(b.num, Continues(service, b.offset, size), size), WellKnown.Slice(whole, b.offset, size))
      else if service.Unaware? then Reply(false, NoTag, OUT_OF_SCOPE)
      else if whole == [] then Reply(true, Tagged(b.num, false, size), [])
      else Reply(false, Tagged(b.num, 15 > size, size), WellKnown.Slice(OUT_OF_SCOPE, 0, size))
  }

  /** The service callback: the handler's payload, and the offset it leaves behind. */
  method CallService(service: Service, buffer: array<byte>, size: nat, offset: nat)
    returns (ok: bool, payload: seq<byte>, next: int)
    requires 0 < size && size + 1 <= buffer.Length
    modifies buffer
    ensures var whole := service.Representation();
            match service
            case Unaware(body) => ok && payload == body && next == offset
            case Aware(_) =>
              && next == (if Continues(service, offset, size) then offset + size else -1)
              && ok == (offset < |whole| || whole == [])
              && payload == (if offset < |whole| then WellKnown.Slice(whole, offset, size)
                             else if whole == [] then [] else OUT_OF_SCOPE)
  {
    hide WellKnown.Listing, WellKnown.Slice, WellKnown.Exhausted;
    ok, next := true, offset;
    match service {
      case Aware(resources) =>
        var p;
        p, next := WellKnown.WellKnownCore(resources, buffer, size, offset);
        match p {
          case LinkFormat(bytes) => payload := bytes;
          case OutOfScope => ok, payload := false, OUT_OF_SCOPE;
          case Unset => payload := [];
        }
      case Unaware(body) => payload := body;
    }
  }

  /** The part of coap_receive that answers a request. */
  method Receive(service: Service, asked: Asked, chunk: nat, buffer: array<byte>) returns (reply: Reply)
    requires 0 < chunk && chunk + 1 <= buffer.Length
    requires asked.Asked? ==> asked.block.size > 0
    requires service.Unaware? ==> |service.body| <= chunk
    modifies buffer
    ensures reply == Served(service, asked, chunk)
  {
    hide *;
    ServedFacts(service, asked, chunk);
    var blockNum, blockSize, blockOffset := 0, chunk, 0;
    if asked.Asked? {
      blockNum, blockSize, blockOffset := asked.block.num, Min(asked.block.size, chunk), asked.block.offset;
    }
    var ok, payload, newOffset := CallService(service, buffer, blockSize, blockOffset);
    ghost var whole := service.Representation();
    MinFacts(|payload|, blockSize);
    MinFacts(|payload|, chunk);
    MinFacts(|payload| - blockOffset, blockSize);
    SliceFacts(whole, blockOffset, blockSize);
    SliceFacts(OUT_OF_SCOPE, 0, blockSize);
    SliceFacts(whole, 0, chunk);
    ContinuesFacts(service, blockOffset, blockSize);
    var tag := NoTag;
    if asked.Asked? {
      if newOffset == blockOffset {
        if blockOffset >= |payload| {
          ok, payload := false, OUT_OF_SCOPE;
        } else {
          tag := Tagged(blockNum, |payload| - blockOffset > blockSize, blockSize);
          payload := payload[blockOffset..blockOffset + Min(|payload| - blockOffset, blockSize)];
        }
      } else {
        tag := Tagged(blockNum, newOffset != -1 || |payload| > blockSize, blockSize);
        payload := payload[..Min(|payload|, blockSize)];
      }
    } else if newOffset != 0 {
      tag := Tagged(0, newOffset != -1, chunk);
      payload := payload[..Min(|payload|, chunk)];
    }
    reply := Reply(ok, tag, payload);
  }

  lemma MinFacts(a: int, b: int)
    ensures Min(a, b) == if a < b then a else b
  {
  }

  lemma ServedFacts(service: Service, asked: Asked, chunk: nat)
    ensures asked.NoBlock? ==>
              Served(service, asked, chunk) ==
              Reply(true, if service.Unaware? then NoTag else Tagged(0, Continues(service, 0, chunk), chunk),
                    WellKnown.Slice(service.Representation(), 0, chunk))
    ensures asked.Asked? ==>
              var b, whole, size := asked.block, service.Representation(), Min(asked.block.size, chunk);
              && size <= asked.block.size && size <= chunk && (asked.block.size > 0 && chunk > 0 ==> size > 0)
              && Served(service, asked, chunk) ==
                 if b.offset < |whole| then
                   Reply(true, Tagged(b.num, Continues(service, b.offset, size), size),
                         WellKnown.Slice(whole, b.offset, size))
                 else if service.Unaware? then Reply(false, NoTag, OUT_OF_SCOPE)
                 else if whole == [] then Reply(true, Tagged(b.num, false, size), [])
                 else Reply(false, Tagged(b.num, 15 > size, size), WellKnown.Slice(OUT_OF_SCOPE, 0, size))
  {
    hide Continues, Service.Representation, WellKnown.Slice, Tagged;
  }

  lemma SliceFacts(text: seq<byte>, off: nat, size: nat)
    ensures off < |text| ==> WellKnown.Slice(text, off, size) == text[off..off + Min(|text| - off, size)]
    ensures off >= |text| ==> WellKnown.Slice(text, off, size) == []
    ensures |WellKnown.Slice(text, off, size)| <= size
    ensures |text| <= size ==> WellKnown.Slice(text, 0, size) == text
  {
  }

  lemma ContinuesFacts(service: Service, off: nat, size: nat)
    ensures size > 0 && off >= |service.Representation()| ==> !Continues(service, off, size)
    ensures service.Unaware? ==> service.Representation() == service.body
    ensures service.Unaware? ==> (Continues(service, off, size) <==> off + size < |service.body|)
    ensures |OUT_OF_SCOPE| == 15
  {
  }

  /** A reply carries the part of the representation that its tag names exactly when the client did not ask for larger
      blocks than the server sends, or asked for the first block: the number is not rescaled. */
  lemma TagNamesPayloadIff(service: Service, b: Block, chunk: nat)
    requires b.num <= 0xF_FFFF && PowerOfTwoSize(b.size) && b.offset == b.num * b.size < |service.Representation()|
    requires 16 <= chunk <= 2048
    ensures var reply := Served(service, Asked(b), chunk);
            && reply.ok && reply.tag.Tag? && reply.tag.num == b.num
            && reply.payload == WellKnown.Slice(service.Representation(), b.offset, reply.tag.size) != []
            && (b.offset == reply.tag.num * reply.tag.size <==> b.num == 0 || b.size <= chunk)
  {
    hide Continues, Service.Representation, WellKnown.Slice;
    var size := Min(b.size, chunk);
    SliceFacts(service.Representation(), b.offset, size);
    TagFacts(b, chunk);
  }

  lemma TagFacts(b: Block, chunk: nat)
    requires b.num <= 0xF_FFFF && PowerOfTwoSize(b.size) && 16 <= chunk <= 2048
    ensures 16 <= Min(b.size, chunk) <= 2048
    ensures b.num * b.size == b.num * Min(b.size, chunk) <==> b.num == 0 || b.size <= chunk
  {
    if b.num > 0 && b.size > chunk {
      TimesStrict(b.num, chunk, b.size);
    }
  }

  lemma TimesStrict(n: nat, a: nat, b: nat)
    requires n > 0 && a < b
    ensures n * a < n * b
  {
  }

  predicate Spells(bytes: seq<byte>, text: string) {
    |bytes| == |text| && forall i :: 0 <= i < |bytes| ==> bytes[i] as int == text[i] as int
  }

  lemma OutOfScopeText()
    ensures Spells(OUT_OF_SCOPE, "BlockOutOfScope")
  {
  }

  /** A request is refused exactly when it names an offset at or behind the end of a representation, but for the empty
      listing; the text of the error is cut to the block size when the resource cuts its own blocks. */
  lemma RefusedIff(service: Service, asked: Asked, chunk: nat)
    ensures var reply := Served(service, asked, chunk);
            && (reply.ok <==>
                  || asked.NoBlock? || asked.block.offset < |service.Representation()|
                  || (service.Aware? && service.Representation() == []))
            && (!reply.ok ==>
                  Spells(reply.payload, if service.Unaware? then "BlockOutOfScope"
                                        else FirstOf("BlockOutOfScope", Min(asked.block.size, chunk))))
  {
    OutOfScopeText();
    hide Continues, Service.Representation, Tagged;
    if asked.Asked? {
      SliceFacts(OUT_OF_SCOPE, 0, Min(asked.block.size, chunk));
    }
  }

  function FirstOf(text: string, n: nat): string { if |text| <= n then text else text[..n] }

  // ----- the client

  /** What one round of the loop meets: no free transaction, no answer, or a reply. */
  datatype Event = NoTransaction | NoAnswer | Answer(reply: Reply)

  datatype ClientState = ClientState(blockNum: nat, resBlock: nat, more: bool, blockError: nat, output: seq<seq<byte>>)

  const START := ClientState(0, 0, false, 0, [])

  /** The loop body behind PT_YIELD_UNTIL; without a Block2 option, number and more flag keep their old values. */
  function Step(s: ClientState, reply: Reply): ClientState {
    var resBlock := if reply.tag.Tag? then reply.tag.num else s.resBlock;
    var more := if reply.tag.Tag? then reply.tag.more else s.more;
    if resBlock == s.blockNum then ClientState(s.blockNum + 1, resBlock, more, s.blockError, s.output + [reply.payload])
    else ClientState(s.blockNum, resBlock, more, s.blockError + 1, s.output)
  }

  predicate GoesOn(s: ClientState) { s.more && s.blockError < COAP_MAX_ATTEMPTS }

  datatype Outcome = Exited | Finished | Waiting

  /** The whole loop on the events it meets. */
  function ClientRun(s: ClientState, events: seq<Event>): (ClientState, Outcome)
    decreases |events|
  {
    if events == [] then (s, Waiting)
    else if !events[0].Answer? then (s, Exited)
    else
      var t := Step(s, events[0].reply);
      if GoesOn(t) then ClientRun(t, events[1..]) else (t, Finished)
  }

  /** One of the first n answers has this payload. */
  ghost predicate Answered(events: seq<Event>, n: nat, payload: seq<byte>) {
    exists i :: 0 <= i < n && i < |events| && events[i].Answer? && events[i].reply.payload == payload
  }

  /** A run takes answers until the loop ends, a request cannot be sent, or one is not answered: each answer is the
      awaited block, whose payload is delivered, or is counted as an error; the loop ends with an answer that says that
      no more blocks follow, or with the fourth error. */
  lemma {:induction false} AnswersCounted(s: ClientState, events: seq<Event>) returns (n: nat)
    requires s.blockNum == |s.output| && s.blockError < 4
    ensures n <= |events| && forall i :: 0 <= i < n ==> events[i].Answer?
    ensures var (t, outcome) := ClientRun(s, events);
            && t.blockNum == |t.output| && s.output <= t.output && s.blockError <= t.blockError <= 4
            && (|t.output| - |s.output|) + (t.blockError - s.blockError) == n
            && (forall j :: |s.output| <= j < |t.output| ==> Answered(events, n, t.output[j]))
            && match outcome
               case Waiting => n == |events| && t.blockError < 4 && (n > 0 ==> t.more)
               case Exited => n < |events| && !events[n].Answer? && t.blockError < 4 && (n > 0 ==> t.more)
               case Finished => n > 0 && (!t.more || t.blockError == 4)
    decreases |events|
  {
    hide Answered;
    n := 0;
    if events != [] && events[0].Answer? {
      var t := Step(s, events[0].reply);
      FirstAnswered(events);
      if GoesOn(t) {
        var m := AnswersCounted(t, events[1..]);
        n := m + 1;
        var u := ClientRun(t, events[1..]).0;
        forall j | |s.output| <= j < |u.output| ensures Answered(events, n, u.output[j]) {
          if j < |t.output| {
            MoreAnswered(events, 1, n, u.output[j]);
          } else {
            LaterAnswered(events, m, u.output[j]);
          }
        }
      } else {
        n := 1;
      }
    }
  }

  lemma FirstAnswered(events: seq<Event>)
    requires events != [] && events[0].Answer?
    ensures Answered(events, 1, events[0].reply.payload)
  {
  }

  lemma MoreAnswered(events: seq<Event>, m: nat, n: nat, payload: seq<byte>)
    requires m <= n && Answered(events, m, payload)
    ensures Answered(events, n, payload)
  {
  }

  lemma LaterAnswered(events: seq<Event>, m: nat, payload: seq<byte>)
    requires events != [] && Answered(events[1..], m, payload)
    ensures Answered(events, m + 1, payload)
  {
    var i :| 0 <= i < m && i < |events[1..]| && events[1..][i].Answer? && events[1..][i].reply.payload == payload;
    assert events[i + 1] == events[1..][i];
  }

  class Client {
    var blockNum: nat
    var resBlock: nat
    var more: bool
    var blockError: nat
    var output: seq<seq<byte>>

    ghost function State(): ClientState
      reads this
    {
      ClientState(blockNum, resBlock, more, blockError, output)
    }

    constructor ()
      ensures State() == START
    {
      blockNum, resBlock, more, blockError, output := 0, 0, false, 0, [];
    }

    method Take(reply: Reply)
      modifies this
      ensures State() == Step(old(State()), reply)
    {
      if reply.tag.Tag? {
        resBlock, more := reply.tag.num, reply.tag.more;
      }
      if resBlock == blockNum {
        output := output + [reply.payload];
        blockNum := blockNum + 1;
      } else {
        blockError := blockError + 1;
      }
    }

    /** coap_blocking_request. */
    method BlockingRequest(events: seq<Event>) returns (outcome: Outcome)
      requires State() == START
      modifies this
      ensures (State(), outcome) == ClientRun(START, events)
    {
      var i := 0;
      assert events[0..] == events;
      while i < |events|
        invariant i <= |events| && ClientRun(State(), events[i..]) == ClientRun(START, events)
      {
        assert events[i..][1..] == events[i + 1..];
        if !events[i].Answer? {
          return Exited;
        }
        Take(events[i].reply);
        i := i + 1;
        if !(more && blockError < COAP_MAX_ATTEMPTS) {
          return Finished;
        }
      }
      outcome := Waiting;
    }
  }

  // ----- in-order delivery

  function Concat(parts: seq<seq<byte>>): seq<byte> {
    if parts == [] then [] else Concat(parts[..|parts| - 1]) + parts[|parts| - 1]
  }

  /** A reply tagged k carries block k; one without a tag carries everything. */
  predicate Genuine(reply: Reply, whole: seq<byte>, size: nat) {
    reply.payload == if reply.tag.Tag? then WellKnown.Slice(whole, reply.tag.num * size, size) else whole
  }

  ghost predicate AllGenuine(events: seq<Event>, whole: seq<byte>, size: nat) {
    forall i :: 0 <= i < |events| && events[i].Answer? ==> Genuine(events[i].reply, whole, size)
  }

  /** Blocks 0, 1, 2, ... up to n, once each. */
  ghost predicate InOrder(output: seq<seq<byte>>, whole: seq<byte>, size: nat) {
    forall i :: 0 <= i < |output| ==> output[i] == WellKnown.Slice(whole, i * size, size)
  }

  lemma {:induction false} ConcatInOrder(output: seq<seq<byte>>, whole: seq<byte>, size: nat)
    requires InOrder(output, whole, size)
    ensures Concat(output) == if |output| * size <= |whole| then whole[..|output| * size] else whole
    decreases |output|
  {
    hide *;
    if output == [] {
      ConcatNothing(output);
    } else {
      var n := |output| - 1;
      InOrderInit(output, whole, size);
      ConcatInOrder(output[..n], whole, size);
      TimesMonotone(n, n, size);
      NextSlice(whole, n * size, size);
    }
  }

  lemma ConcatNothing(output: seq<seq<byte>>)
    requires output == []
    ensures Concat(output) == []
  {
  }

  lemma InOrderInit(output: seq<seq<byte>>, whole: seq<byte>, size: nat)
    requires InOrder(output, whole, size) && output != []
    ensures var n := |output| - 1;
            && InOrder(output[..n], whole, size)
            && Concat(output) == Concat(output[..n]) + WellKnown.Slice(whole, n * size, size)
  {
    hide WellKnown.Slice;
    var n := |output| - 1;
    assert output[n] == WellKnown.Slice(whole, n * size, size);
  }

  lemma NextSlice(whole: seq<byte>, off: nat, size: nat)
    ensures (if off <= |whole| then whole[..off] else whole) + WellKnown.Slice(whole, off, size) ==
            if off + size <= |whole| then whole[..off + size] else whole
  {
  }

  /** After the first answer, a reply without a tag is never taken for the next block. */
  ghost predicate Settled(s: ClientState, whole: seq<byte>, size: nat) {
    && s.blockNum == |s.output| && InOrder(s.output, whole, size) && s.resBlock != s.blockNum
  }

  lemma StepSettles(s: ClientState, reply: Reply, whole: seq<byte>, size: nat)
    requires Genuine(reply, whole, size) && (s == START || Settled(s, whole, size))
    ensures var t := Step(s, reply);
            || Settled(t, whole, size)
            || (s == START && reply.tag == NoTag && t.output == [whole] && !GoesOn(t))
  {
    hide WellKnown.Slice;
  }

  /** Whatever is lost, repeated or reordered on the way: the blocks delivered are 0, 1, 2, ... once each in order, or
      the one untagged representation, and so the output is always a prefix of the representation. */
  lemma {:induction false} InOrderDelivery(s: ClientState, events: seq<Event>, whole: seq<byte>, size: nat)
    requires AllGenuine(events, whole, size) && (s == START || Settled(s, whole, size))
    ensures var output := ClientRun(s, events).0.output;
            (InOrder(output, whole, size) || output == [whole]) && Concat(output) <= whole
    decreases |events|
  {
    hide Step, WellKnown.Slice, Genuine, GoesOn;
    ConcatPrefix(s.output, whole, size);
    if events != [] && events[0].Answer? {
      var t := Step(s, events[0].reply);
      StepSettles(s, events[0].reply, whole, size);
      if GoesOn(t) {
        InOrderDelivery(t, events[1..], whole, size);
      } else {
        ConcatPrefix(t.output, whole, size);
      }
    }
  }

  lemma ConcatPrefix(output: seq<seq<byte>>, whole: seq<byte>, size: nat)
    ensures InOrder(output, whole, size) || output == [whole] ==> Concat(output) <= whole
  {
    hide WellKnown.Slice;
    if output == [whole] {
      assert output[..0] == [] && Concat(output[..0]) == [];
      assert Concat(output) == [] + whole;
    } else if InOrder(output, whole, size) {
      ConcatInOrder(output, whole, size);
    }
  }

  // ----- when the client has got everything

  /** The more flag says whether the representation goes on behind the block. */
  ghost predicate AllHonest(events: seq<Event>, whole: seq<byte>, size: nat) {
    forall i :: 0 <= i < |events| && events[i].Answer? ==>
      var tag := events[i].reply.tag;
      tag.Tag? && (tag.more <==> (tag.num + 1) * size < |whole|)
  }

  /** More blocks are needed than have been delivered. */
  ghost predicate Incomplete(s: ClientState, whole: seq<byte>, size: nat) { s.blockNum * size < |whole| }

  lemma HonestStep(s: ClientState, reply: Reply, whole: seq<byte>, size: nat)
    requires Incomplete(s, whole, size) && reply.tag.Tag? && (reply.tag.more <==> (reply.tag.num + 1) * size < |whole|)
    ensures var t := Step(s, reply);
            && (GoesOn(t) ==> Incomplete(t, whole, size))
            && (Incomplete(t, whole, size) <==> !(!t.more && t.resBlock + 1 == t.blockNum))
  {
  }

  lemma ConcatIncomplete(s: ClientState, whole: seq<byte>, size: nat)
    requires InOrder(s.output, whole, size) && s.blockNum == |s.output|
    ensures Concat(s.output) == whole <==> !Incomplete(s, whole, size)
  {
    hide WellKnown.Slice;
    ConcatInOrder(s.output, whole, size);
  }

  /** With honest more flags, a client whose loop has ended holds the whole representation exactly when the reply that
      ended it was the awaited block; a late copy of the last block, too, ends the loop. */
  lemma {:induction false} FinishedIff(s: ClientState, events: seq<Event>, whole: seq<byte>, size: nat)
    requires AllGenuine(events, whole, size) && AllHonest(events, whole, size)
    requires (s == START || Settled(s, whole, size)) && Incomplete(s, whole, size)
    requires ClientRun(s, events).1 == Finished
    ensures var t := ClientRun(s, events).0;
            Concat(t.output) == whole <==> !t.more && t.resBlock + 1 == t.blockNum
    decreases |events|
  {
    hide Step, WellKnown.Slice, Genuine, GoesOn, Incomplete;
    var t := Step(s, events[0].reply);
    StepSettles(s, events[0].reply, whole, size);
    HonestStep(s, events[0].reply, whole, size);
    if GoesOn(t) {
      FinishedIff(t, events[1..], whole, size);
    } else {
      assert events[0].reply.tag.Tag?;
      ConcatIncomplete(t, whole, size);
    }
  }

  // ----- client and server together

  /** The block size that a request for blocks of the given size carries: the next lower power of two. */
  function WireSize(chunk: nat): (size: nat)
    requires 16 <= chunk <= 2048
    ensures 16 <= size <= 2048
  {
    LogTable(chunk / 16);
    16 * BlockScale(Log2(chunk / 16))
  }

  lemma WireSizeIff(chunk: nat)
    requires 16 <= chunk <= 2048
    ensures WireSize(chunk) <= chunk && (WireSize(chunk) == chunk <==> PowerOfTwoSize(chunk))
  {
    hide Log2;
    LogTable(chunk / 16);
  }

  /** The request for block k: the first goes without a Block2 option. */
  function Request(k: nat, chunk: nat): Asked {
    if k == 0 || !BlockInRange(Block(k, 0, chunk, 0)) then NoBlock
    else Asked(DecodeBlock(EncodeBlock(Block(k, 0, chunk, 0))))
  }

  /** The listing fills its blocks completely and ends with attributes: the handler does not notice that it is done. */
  predicate OverlooksEnd(service: Service, size: nat)
    requires size > 0
  {
    && service.Aware? && WellKnown.EndsInAttributes(service.resources)
    && |service.Representation()| > 0 && |service.Representation()| % size == 0
  }

  lemma RequestDecodes(k: nat, chunk: nat)
    requires 0 < k <= 0xF_FFFF && 16 <= chunk <= 2048
    ensures var b := Request(k, chunk).block;
            Request(k, chunk).Asked? && b.num == k && b.size == WireSize(chunk) && b.offset == k * WireSize(chunk)
  {
    hide Log2, BlockScale, EncodeBlock, DecodeBlock, BlockOffset;
    BlockWord(Block(k, 0, chunk, 0));
    DecodeWord(k, 0, Log2(chunk / 16));
  }

  /** The reply to the first request. */
  lemma FirstReply(service: Service, chunk: nat)
    ensures var reply := Served(service, Request(0, chunk), chunk);
            && reply.payload == WellKnown.Slice(service.Representation(), 0, chunk)
            && reply.tag == if service.Unaware? || !(16 <= chunk <= 2048) then NoTag
                            else Tag(0, Continues(service, 0, chunk), chunk)
  {
    hide Continues, Service.Representation, WellKnown.Slice, DecodeBlock, EncodeBlock;
  }

  /** The reply to the request for block k, when all earlier blocks have been sent. */
  lemma ReplyForBlock(service: Service, whole: seq<byte>, k: nat, chunk: nat, size: nat)
    requires service.Aware? && whole == service.Representation() && 16 <= chunk <= 2048 && size == WireSize(chunk)
    requires 0 < k <= 0xF_FFFF && k * size <= |whole|
    ensures var reply := Served(service, Request(k, chunk), chunk);
            && (k * size < |whole| ==> reply.payload == WellKnown.Slice(whole, k * size, size))
            && (k * size == |whole| ==> reply.payload == OUT_OF_SCOPE)
            && reply.tag == Tag(k, Continues(service, k * size, size), size)
  {
    hide Continues, Service.Representation, WellKnown.Slice, DecodeBlock, EncodeBlock, Request, WireSize;
    WireSizeIff(chunk);
    RequestDecodes(k, chunk);
    SliceFacts(OUT_OF_SCOPE, 0, size);
    ContinuesFacts(service, k * size, size);
    TimesMonotone(1, k, size);
  }

  lemma LastBlock(service: Service, k: nat, chunk: nat)
    requires chunk > 0 && k * chunk <= |service.Representation()| && service.Aware?
    ensures Continues(service, k * chunk, chunk) ==> (k + 1) * chunk <= |service.Representation()|
    ensures Continues(service, k * chunk, chunk) && (k + 1) * chunk == |service.Representation()| ==>
              OverlooksEnd(service, chunk)
    ensures !Continues(service, k * chunk, chunk) && (k * chunk < |service.Representation()| || k == 0) ==>
              |service.Representation()| <= (k + 1) * chunk && !OverlooksEnd(service, chunk)
  {
    hide WellKnown.Listing;
    var n := |service.Representation()|;
    assert (k + 1) * chunk == k * chunk + chunk;
    if n <= k * chunk + chunk {
      MultipleBetween(n, k, chunk);
    }
  }

  lemma MultipleBetween(n: nat, k: nat, chunk: nat)
    requires chunk > 0 && k * chunk <= n <= k * chunk + chunk
    ensures n % chunk == 0 <==> n == k * chunk || n == k * chunk + chunk
  {
    var r := n - k * chunk;
    if r == chunk {
      assert n == (k + 1) * chunk + 0;
      Remainder(n, k + 1, chunk, 0);
    } else {
      Remainder(n, k, chunk, r);
    }
  }

  lemma Remainder(n: nat, k: nat, chunk: nat, r: nat)
    requires r < chunk && n == k * chunk + r
    ensures n % chunk == r
  {
    var q := n / chunk;
    assert n == q * chunk + n % chunk;
    if q < k {
      TimesMonotone(q + 1, k, chunk);
    } else if q > k {
      TimesMonotone(k + 1, q, chunk);
    }
  }

  lemma TimesMonotone(a: nat, b: nat, c: nat)
    requires a <= b
    ensures a * c <= b * c && (a + 1) * c == a * c + c
  {
  }

  /** What the client has received in the end: the first block has the server's block size, the others are cut at
      multiples of the size that the requests carry. */
  ghost function Received(service: Service, chunk: nat): seq<byte> {
    var whole := service.Representation();
    if service.Unaware? || !(16 <= chunk <= 2048) || !Continues(service, 0, chunk) then WellKnown.Slice(whole, 0, chunk)
    else
      var size := WireSize(chunk);
      Prefix(whole, chunk) + Suffix(whole, size) + if OverlooksEnd(service, size) then OUT_OF_SCOPE else []
  }

  function Prefix(whole: seq<byte>, n: nat): seq<byte> { if n <= |whole| then whole[..n] else whole }

  function Middle(whole: seq<byte>, m: nat, n: nat): seq<byte> { if m <= n <= |whole| then whole[m..n] else [] }

  function Suffix(whole: seq<byte>, n: nat): seq<byte> { if n <= |whole| then whole[n..] else [] }

  /** The client has received the representation and nothing else exactly when it fits into one block, or the block
      size is a power of two and the handler notices the end of the listing. */
  lemma ReceivedIff(service: Service, chunk: nat)
    requires chunk > 0
    ensures Received(service, chunk) == service.Representation() <==>
            if service.Unaware? || !(16 <= chunk <= 2048) || !Continues(service, 0, chunk) then
              |service.Representation()| <= chunk
            else PowerOfTwoSize(chunk) && !OverlooksEnd(service, chunk)
  {
    hide WellKnown.Listing, PowerOfTwoSize, OverlooksEnd;
    if service.Aware? && 16 <= chunk <= 2048 {
      WireSizeIff(chunk);
    }
  }

  /** The client and the server on a channel that loses nothing. */
  method Fetch(service: Service, chunk: nat, buffer: array<byte>) returns (client: Client)
    requires 0 < chunk && chunk + 1 <= buffer.Length
    requires 16 <= chunk <= 2048 ==> |service.Representation()| <= 0xF_FFFF * WireSize(chunk)
    requires service.Unaware? ==> |service.body| <= chunk
    modifies buffer
    ensures Concat(client.output) == Received(service, chunk)
  {
    hide Served, Continues, Service.Representation, WellKnown.Slice, OverlooksEnd, Request, Fetching, Received, Concat,
      Step, WireSize;
    ghost var whole := service.Representation();
    client := new Client();
    FetchBegins(client.State(), service, chunk);
    var k := 0;
    var done := false;
    while !done
      invariant fresh(client) && k == client.blockNum
      invariant !done ==> Fetching(client.State(), service, chunk)
      invariant done ==> Concat(client.output) == Received(service, chunk)
      decreases |whole| + 1 - k, if done then 0 else 1
    {
      ghost var s := client.State();
      FetchBounds(s, service, chunk);
      var reply := Receive(service, Request(k, chunk), chunk, buffer);
      client.Take(reply);
      if k == 0 {
        FirstStep(s, service, chunk);
      } else {
        NextStep(s, service, chunk);
      }
      k := client.blockNum;
      done := !(client.more && client.blockError < COAP_MAX_ATTEMPTS);
    }
  }

  /** The client has the first block and what lies behind it up to block blockNum, and the server has said that more
      follows. */
  ghost predicate Fetching(s: ClientState, service: Service, chunk: nat) {
    var whole := service.Representation();
    if s.blockNum == 0 then s == START else
    && service.Aware? && 16 <= chunk <= 2048 && Continues(service, 0, chunk) && s.blockError == 0
    && s.blockNum * WireSize(chunk) <= |whole|
    && (s.blockNum * WireSize(chunk) == |whole| ==> OverlooksEnd(service, WireSize(chunk)))
    && Concat(s.output) == Prefix(whole, chunk) + Middle(whole, WireSize(chunk), s.blockNum * WireSize(chunk))
  }

  lemma FetchBegins(s: ClientState, service: Service, chunk: nat)
    requires s == START
    ensures Fetching(s, service, chunk) && s.blockNum == 0
  {
  }

  lemma FetchBounds(s: ClientState, service: Service, chunk: nat)
    requires Fetching(s, service, chunk)
    requires 16 <= chunk <= 2048 ==> |service.Representation()| <= 0xF_FFFF * WireSize(chunk)
    ensures s.blockNum <= 0xF_FFFF && s.blockNum <= |service.Representation()| && (s.blockNum == 0 ==> s == START)
    ensures Request(s.blockNum, chunk).Asked? ==> Request(s.blockNum, chunk).block.size > 0
  {
    hide Service.Representation, WireSize, EncodeBlock, DecodeBlock, OverlooksEnd, Continues, Concat;
    if s.blockNum > 0xF_FFFF {
      TimesMonotone(0xF_FFFF + 1, s.blockNum, WireSize(chunk));
    }
    if s.blockNum > 0 {
      RequestDecodes(s.blockNum, chunk);
    }
  }

  lemma ConcatMore(output: seq<seq<byte>>, part: seq<byte>)
    ensures Concat(output + [part]) == Concat(output) + part
  {
    assert (output + [part])[..|output|] == output;
  }

  lemma FirstStep(s: ClientState, service: Service, chunk: nat)
    requires s == START
    ensures var t := Step(s, Served(service, Request(0, chunk), chunk));
            && t.blockNum == 1 && (GoesOn(t) <==> t.more && t.blockError < COAP_MAX_ATTEMPTS)
            && if GoesOn(t) then Fetching(t, service, chunk) else Concat(t.output) == Received(service, chunk)
  {
    hide Served, WellKnown.Slice, WellKnown.Listing, OverlooksEnd, Request, WireSize, Concat;
    var whole := service.Representation();
    var reply := Served(service, Request(0, chunk), chunk);
    FirstReply(service, chunk);
    SliceFacts(whole, 0, chunk);
    ConcatMore(s.output, reply.payload);
    ConcatNothing(s.output);
    if reply.tag.Tag? && Continues(service, 0, chunk) {
      WireSizeIff(chunk);
      FullBlock(service, chunk);
    }
  }

  /** A listing that is as long as its first block and goes on nevertheless ends with attributes. */
  lemma FullBlock(service: Service, chunk: nat)
    requires service.Aware? && 16 <= chunk <= 2048 && Continues(service, 0, chunk)
    ensures |service.Representation()| >= chunk
    ensures |service.Representation()| == WireSize(chunk) ==> OverlooksEnd(service, WireSize(chunk))
  {
    hide WellKnown.Listing, WireSize;
    WireSizeIff(chunk);
    Remainder(WireSize(chunk), 1, WireSize(chunk), 0);
  }

  lemma NextStep(s: ClientState, service: Service, chunk: nat)
    requires Fetching(s, service, chunk) && 0 < s.blockNum <= 0xF_FFFF
    ensures var t := Step(s, Served(service, Request(s.blockNum, chunk), chunk));
            && t.blockNum == s.blockNum + 1 && (GoesOn(t) <==> t.more && t.blockError < COAP_MAX_ATTEMPTS)
            && if GoesOn(t) then Fetching(t, service, chunk) else Concat(t.output) == Received(service, chunk)
  {
    hide Served, Continues, Service.Representation, WellKnown.Slice, OverlooksEnd, Request, WireSize, Concat;
    var k, size, whole := s.blockNum, WireSize(chunk), service.Representation();
    var reply := Served(service, Request(k, chunk), chunk);
    ReplyForBlock(service, whole, k, chunk, size);
    ConcatMore(s.output, reply.payload);
    LastBlock(service, k, size);
    TimesMonotone(k, k, size);
    TimesMonotone(1, k, size);
    SliceFacts(whole, k * size, size);
    NextPart(whole, chunk, size, k * size, reply.payload);
  }

  /** A block is appended to what has been received. */
  lemma NextPart(whole: seq<byte>, chunk: nat, size: nat, off: nat, part: seq<byte>)
    requires size <= off <= |whole|
    ensures off < |whole| && part == WellKnown.Slice(whole, off, size) ==>
              Prefix(whole, chunk) + Middle(whole, size, off) + part ==
              Prefix(whole, chunk) + if off + size <= |whole| then Middle(whole, size, off + size)
                else Suffix(whole, size)
    ensures off == |whole| ==>
              Prefix(whole, chunk) + Middle(whole, size, off) + part ==
                Prefix(whole, chunk) + Suffix(whole, size) + part
  {
    if off < |whole| && part == WellKnown.Slice(whole, off, size) {
      var end := if off + size <= |whole| then off + size else |whole|;
      assert part == whole[off..end];
      assert whole[size..off] + whole[off..end] == whole[size..end];
      assert Prefix(whole, chunk) + whole[size..off] + part == Prefix(whole, chunk) + (whole[size..off] + part);
    }
  }
}
