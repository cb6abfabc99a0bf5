/** A message through the transmit buffer of one node and the receive buffer of another, and what the receiver's joined
    fields are for any datagram at all. */
module CoapTransfer {
  import opened Bytes
  import opened CoapWire
  import opened CoapMessage
  import opened CoapFields
  import opened CoapCount
  import opened CoapDatagram
  import Serializer = CoapSerializer
  import Parser = CoapParser

  /** coap_serialize_message followed by coap_parse_message on the bytes it left: the packet filled by the parser holds
      the sender's message exactly when there are at most 15 options and no Proxy-Uri, strings and blocks are
      transportable and no option gap is 14 or 15. */
  method Transfer(m: Message, buffer: array<byte>, chunk: nat) returns (status: Parser.Status, packet: Parser.Packet)
    requires m.Valid() && FilledBySetters(m.view)
    requires COAP_HEADER_LEN + |Encode0(m)| <= COAP_MAX_HEADER_SIZE && |m.payload| <= chunk
    requires COAP_HEADER_LEN + |Encode0(m)| + |m.payload| < buffer.Length
    modifies buffer
    ensures fresh(packet)
    ensures status == Parser.NoError && Delivered(m, Received(Contents(packet, buffer))) <==>
            m.Count() <= 15 && GapsFrom(m.view, 0, 0) && AllTransportable(m.view)
  {
    hide *;
    var length := Serializer.Serialize(m, buffer);
    packet := new Parser.Packet();
    SerializedLength(m);
    WrittenBytes(buffer[..], length, Serialized(m));
    ghost var result := ParseMessage(buffer[..length], chunk);
    status := packet.Parse(buffer, length, chunk);
    DeliveredExactlyWhen(m, chunk);
    if result.Received? {
      Filled(packet, buffer, result.message);
    } else {
      NotReceived(m, result);
    }
  }

  ghost function Contents(packet: Parser.Packet, buffer: array<byte>): Message
    reads packet, buffer
  {
    Message(packet.typ, packet.code, packet.mid, packet.Fields(buffer[..]), Parser.SpanText(buffer[..], packet.payload))
  }

  lemma Filled(packet: Parser.Packet, buffer: array<byte>, message: Message)
    requires packet.typ == message.typ && packet.code == message.code && packet.mid == message.mid
    requires packet.Fields(buffer[..]) == message.view && Parser.SpanText(buffer[..], packet.payload) == message.payload
    ensures Contents(packet, buffer) == message
  {
  }

  lemma SerializedLength(m: Message)
    requires m.Valid()
    ensures |Serialized(m)| == COAP_HEADER_LEN + |Encode0(m)| + |m.payload|
  {
    hide CountFrom, OptionsFrom, Encode;
    OptionsAscending(m);
    assert Serialized(m) == HeaderBytes(m.typ, m.Count(), m.code, m.mid) + Encode0(m) + m.payload;
  }

  lemma WrittenBytes(bytes: seq<byte>, length: nat, data: seq<byte>)
    requires length == |data| <= |bytes|
             && exists before: seq<byte> :: |before| == |bytes| && bytes == Overwrite(before, 0, data)
    ensures bytes[..length] == data
  {
  }

  lemma NotReceived(m: Message, result: MessageResult)
    requires !result.Received?
    ensures !Delivered(m, result)
  {
  }

  // ----- joined fields, for any datagram

  /** Whatever datagram is accepted, each path and query field is the join of that option's values from the first
      non-empty one on. */
  lemma JoinedFields(data: seq<byte>, chunk: nat) returns (opts: seq<Opt>, end: nat)
    requires ParseMessage(data, chunk).Received?
    ensures |opts| == data[0] as int % 16 && Reads(data, COAP_HEADER_LEN, 0, opts, end)
    ensures forall n, sep :: KindOf(n) == Joined(sep) ==>
              TextOf(ParseMessage(data, chunk).message.view, n) == Join(FromFirstNonEmpty(ValuesOf(opts, n)), sep)
  {
    opts, end := AnyDatagram(data, chunk);
    hide Apply, KindOf, Reads, ParseOptions, ApplyAll, OptionAt, Join, FromFirstNonEmpty;
    DatagramIff(data, chunk, opts, end);
    ReadsApplied(data, COAP_HEADER_LEN, data[0] as int % 16, 0, EMPTY_VIEW, opts, end);
    RefusedIff(EMPTY_VIEW, opts);
    NoMore(data, end, LastNumber(0, opts), ApplyAll(EMPTY_VIEW, opts).view);
    forall n, sep | KindOf(n) == Joined(sep)
      ensures TextOf(ParseMessage(data, chunk).message.view, n) == Join(FromFirstNonEmpty(ValuesOf(opts, n)), sep)
    {
      JoinedField(opts, n, sep);
    }
  }
}
