/** The serial side of dep/tools/tunslip.c: framing with escape characters, the output queue, and the reader. */
module SerialLine {
  import opened Bytes
  import opened Checksum
  import opened Tunslip

  const END: byte := 192
  const ESC: byte := 219
  const ESC_END: byte := 220
  const ESC_ESC: byte := 221

  /** Both inbuf and slip_buf. */
  const BUFFER_SIZE: nat := 2000

  // ----- framing

  function Escape(c: byte): seq<byte> { if c == END then [ESC, ESC_END] else if c == ESC then [ESC, ESC_ESC] else [c] }

  function EscapeAll(p: seq<byte>): seq<byte> { if p == [] then [] else Escape(p[0]) + EscapeAll(p[1..]) }

  function Frame(p: seq<byte>): seq<byte> { EscapeAll(p) + [END] }

  lemma {:induction false} EscapeGrows(p: seq<byte>, c: byte)
    ensures EscapeAll(p + [c]) == EscapeAll(p) + Escape(c)
    decreases |p|
  {
    if p == [] {
      assert [] + [c] == [c] && [c][1..] == [];
    } else {
      assert (p + [c])[1..] == p[1..] + [c];
      EscapeGrows(p[1..], c);
    }
  }

  /** The framing of RFC 1055: octet 192 ends a packet and does not occur in it, where 219 220 stands for it, and 219
      221 for 219. */
  lemma {:induction false} FrameIsSlip(p: seq<byte>, c: byte)
    ensures |Frame(p)| > 0 && Frame(p)[|Frame(p)| - 1] == 192
    ensures forall i :: 0 <= i < |Frame(p)| - 1 ==> Frame(p)[i] != 192
    ensures Frame([c] + p) == (if c == 192 then [219, 220] else if c == 219 then [219, 221] else [c]) + Frame(p)
    decreases |p|
  {
    assert ([c] + p)[1..] == p;
    if p != [] {
      FrameIsSlip(p[1..], p[0]);
      assert [p[0]] + p[1..] == p;
    }
  }

  // ----- the reader

  /** What the reader has collected, the packets it has completed, and whether an escape character is waiting unread for
      the character behind it. */
  datatype Reader = Reader(collected: seq<byte>, packets: seq<seq<byte>>, escaped: bool)

  /** A full buffer is started anew before the next character is read. */
  function Room(collected: seq<byte>): seq<byte> { if |collected| >= BUFFER_SIZE then [] else collected }

  function Unescape(c: byte): byte { if c == ESC_END then END else if c == ESC_ESC then ESC else c }

  function ReadByte(r: Reader, c: byte): Reader {
    if r.escaped then Reader(r.collected + [Unescape(c)], r.packets, false)
    else
      var collected := Room(r.collected);
      if c == ESC then Reader(collected, r.packets, true)
      else if c == END then Reader([], if collected == [] then r.packets else r.packets + [collected], false)
      else Reader(collected + [c], r.packets, false)
  }

  function ReadAll(r: Reader, stream: seq<byte>): Reader
    decreases |stream|
  {
    if stream == [] then r else ReadAll(ReadByte(r, stream[0]), stream[1..])
  }

  /** It does not matter in which portions the characters arrive. */
  lemma {:induction false} ReadConcat(r: Reader, a: seq<byte>, b: seq<byte>)
    ensures ReadAll(r, a + b) == ReadAll(ReadAll(r, a), b)
    decreases |a|
  {
    hide ReadByte;
    if a == [] {
      assert a + b == b;
    } else {
      assert (a + b)[1..] == a[1..] + b;
      ReadConcat(ReadByte(r, a[0]), a[1..], b);
    }
  }

  /** The buffer after the bytes of a packet: it is started anew whenever it has been full. */
  function Filled(collected: seq<byte>, p: seq<byte>): seq<byte>
    decreases |p|
  {
    if p == [] then collected else Filled(Room(collected) + [p[0]], p[1..])
  }

  lemma {:induction false} ReadEscaped(r: Reader, p: seq<byte>)
    requires !r.escaped
    ensures ReadAll(r, EscapeAll(p)) == Reader(Filled(r.collected, p), r.packets, false)
    decreases |p|
  {
    if p != [] {
      var c := p[0];
      var next := Reader(Room(r.collected) + [c], r.packets, false);
      ReadOne(r, c);
      ReadConcat(r, Escape(c), EscapeAll(p[1..]));
      ReadEscaped(next, p[1..]);
    }
  }

  lemma ReadOne(r: Reader, c: byte)
    requires !r.escaped
    ensures ReadAll(r, Escape(c)) == Reader(Room(r.collected) + [c], r.packets, false)
  {
    var s := Escape(c);
    if |s| == 2 {
      assert s[1..] == [s[1]] && [s[1]][1..] == [];
      assert ReadAll(r, s) == ReadAll(ReadByte(r, ESC), [s[1]]) == ReadByte(ReadByte(r, ESC), s[1]);
    } else {
      assert s[1..] == [];
    }
  }

  lemma {:induction false} FilledIs(collected: seq<byte>, p: seq<byte>)
    requires |collected| <= BUFFER_SIZE
    ensures |Filled(collected, p)| <= BUFFER_SIZE
    ensures |collected| + |p| <= BUFFER_SIZE ==> Filled(collected, p) == collected + p
    decreases |p|
  {
    if p != [] {
      var c := Room(collected) + [p[0]];
      FilledIs(c, p[1..]);
      if |collected| + |p| <= BUFFER_SIZE {
        assert c + p[1..] == collected + p;
      }
    }
  }

  /** Reading back a framed packet gives exactly that packet if and only if it is not empty and leaves the buffer a free
      byte: a packet that fills the buffer is thrown away before its end is seen. */
  lemma FrameRoundTripIff(p: seq<byte>, packets: seq<seq<byte>>)
    ensures ReadAll(Reader([], packets, false), Frame(p)) == Reader([], packets + [p], false) <==> 0 < |p| < 2000
  {
    var r := Reader([], packets, false);
    var filled := Filled([], p);
    ReadConcat(r, EscapeAll(p), [END]);
    ReadEscaped(r, p);
    assert [END][1..] == [];
    FilledIs([], p);
    assert ReadAll(r, Frame(p)) == ReadByte(Reader(filled, packets, false), END);
    assert [] + p == p;
    if |p| >= BUFFER_SIZE {
      assert |Room(filled)| < BUFFER_SIZE;
    }
    assert forall x: seq<byte>, y: seq<byte> :: packets + [x] == packets + [y] ==>
           (packets + [x])[|packets|] == (packets + [y])[|packets|];
    assert packets + [p] != packets;
  }

  /** Any number of packets, one after the other. */
  function FrameAll(ps: seq<seq<byte>>): seq<byte> { if ps == [] then [] else Frame(ps[0]) + FrameAll(ps[1..]) }

  lemma {:induction false} FramesRoundTrip(ps: seq<seq<byte>>, packets: seq<seq<byte>>)
    requires forall i :: 0 <= i < |ps| ==> 0 < |ps[i]| < BUFFER_SIZE
    ensures ReadAll(Reader([], packets, false), FrameAll(ps)) == Reader([], packets + ps, false)
    decreases |ps|
  {
    hide ReadAll, Frame;
    var r := Reader([], packets, false);
    if ps == [] {
      ReadNothing(r);
      assert packets + ps == packets;
    } else {
      FrameRoundTripIff(ps[0], packets);
      ReadConcat(r, Frame(ps[0]), FrameAll(ps[1..]));
      FramesRoundTrip(ps[1..], packets + [ps[0]]);
      assert packets + [ps[0]] + ps[1..] == packets + ps;
    }
  }

  lemma ReadNothing(r: Reader)
    ensures ReadAll(r, []) == r
  {
  }

  /** The input buffer of serial_to_tun. */
  class SerialReader {
    const inbuf: array<byte>
    var inbufptr: nat
    var escaped: bool
    ghost var packets: seq<seq<byte>>

    ghost predicate Valid()
      reads this, inbuf
    {
      inbuf.Length == BUFFER_SIZE && inbufptr <= BUFFER_SIZE && (escaped ==> inbufptr < BUFFER_SIZE)
    }

    ghost function Abstract(): Reader
      reads this, inbuf
      requires Valid()
    {
      Reader(inbuf[..inbufptr], packets, escaped)
    }

    constructor ()
      ensures Valid() && fresh(inbuf) && Abstract() == Reader([], [], false)
    {
      inbuf := new byte[BUFFER_SIZE];
      inbufptr, escaped, packets := 0, false, [];
    }

    /** One character; the length of a completed packet, which then stands at the start of the buffer. */
    method ReadCharacter(c: byte) returns (completed: nat)
      requires Valid()
      modifies this, inbuf
      ensures Valid() && Abstract() == ReadByte(old(Abstract()), c)
      ensures completed <= BUFFER_SIZE && packets == if completed > 0 then old(packets) + [inbuf[..completed]]
              else old(packets)
    {
      completed := 0;
      if escaped {
        inbuf[inbufptr] := Unescape(c);
        inbufptr := inbufptr + 1;
        escaped := false;
        return;
      }
      if inbufptr >= inbuf.Length {
        inbufptr := 0;
      }
      if c == END {
        completed := inbufptr;
        packets := if inbufptr > 0 then packets + [inbuf[..inbufptr]] else packets;
        inbufptr := 0;
      } else if c == ESC {
        escaped := true;
      } else {
        inbuf[inbufptr] := c;
        inbufptr := inbufptr + 1;
      }
    }
  }

  // ----- the output queue

  class Output {
    const slipBuf: array<byte>
    var slipBegin: nat
    var slipEnd: nat
    var ipId: Half
    /** What has been given to slip_send, and what the serial line has taken. */
    ghost var queued: seq<byte>
    ghost var written: seq<byte>

    ghost predicate Valid()
      reads `slipBegin, `slipEnd, `queued, `written, slipBuf
    {
      && slipBuf.Length == BUFFER_SIZE && slipBegin <= slipEnd <= BUFFER_SIZE && (slipBegin < slipEnd || slipEnd == 0)
      && written + slipBuf[slipBegin..slipEnd] == queued
    }

    constructor ()
      ensures Valid() && fresh(slipBuf) && queued == [] && written == [] && slipEnd == 0
    {
      slipBuf := new byte[BUFFER_SIZE];
      slipBegin, slipEnd, ipId, queued, written := 0, 0, 0, [], [];
    }

    /** slip_send; a full buffer ends the program. */
    method Send(c: byte) returns (ok: bool)
      requires Valid()
      modifies this, slipBuf
      ensures Valid() && ok == (old(slipEnd) < BUFFER_SIZE) && written == old(written) && ipId == old(ipId)
      ensures queued == (if ok then old(queued) + [c] else old(queued)) && slipEnd == old(slipEnd) + if ok then 1 else 0
    {
      ok := slipEnd < slipBuf.Length;
      if ok {
        ghost var before := slipBuf[slipBegin..slipEnd];
        slipBuf[slipEnd] := c;
        slipEnd := slipEnd + 1;
        queued := queued + [c];
        assert slipBuf[slipBegin..slipEnd] == before + [c];
        assert written + (before + [c]) == written + before + [c];
      }
    }

    /** slip_flushbuf, when the line takes n of the waiting bytes: they are the next ones, in order. */
    method Flush(n: nat)
      requires Valid() && n <= slipEnd - slipBegin
      modifies `slipBegin, `slipEnd, `written
      ensures Valid() && |written| == |old(written)| + n && old(written) <= written <= queued
      ensures slipEnd == 0 <==> written == queued
    {
      if slipEnd == 0 {
        return;
      }
      ghost var waiting := slipBuf[slipBegin..slipEnd];
      ghost var before := written;
      written := written + slipBuf[slipBegin..slipBegin + n];
      slipBegin := slipBegin + n;
      assert waiting == waiting[..n] + waiting[n..];
      assert before + waiting == before + waiting[..n] + waiting[n..];
      assert slipBuf[slipBegin..slipEnd] == waiting[n..];
      if slipBegin == slipEnd {
        slipBegin, slipEnd := 0, 0;
      }
    }

    /** The switch in the loop of write_to_serial. */
    method SendEscaped(c: byte) returns (ok: bool)
      requires Valid()
      modifies this, slipBuf
      ensures Valid() && ok == (old(slipEnd) + |Escape(c)| <= BUFFER_SIZE) && written == old(written)
              && ipId == old(ipId)
      ensures ok ==> queued == old(queued) + Escape(c) && slipEnd == old(slipEnd) + |Escape(c)|
    {
      hide Valid;
      if c == END {
        ok := Send(ESC);
        if ok {
          ok := Send(ESC_END);
        }
      } else if c == ESC {
        ok := Send(ESC);
        if ok {
          ok := Send(ESC_ESC);
        }
      } else {
        ok := Send(c);
      }
    }

    /** The part of write_to_serial that frames the packet. */
    method SendFrame(p: seq<byte>) returns (ok: bool)
      requires Valid()
      modifies this, slipBuf
      ensures Valid() && ok == (old(slipEnd) + |Frame(p)| <= BUFFER_SIZE) && written == old(written)
              && ipId == old(ipId)
      ensures ok ==> queued == old(queued) + Frame(p)
    {
      hide *;
      ValidEnd();
      FrameParts(p);
      var i := 0;
      ok := true;
      ghost var before, at := queued, slipEnd;
      assert p[..0] == [] && before + [] == before;
      while i < |p| && ok
        invariant Valid() && i <= |p| && written == old(written) && ipId == old(ipId)
        invariant ok ==> queued == before + EscapeAll(p[..i]) && slipEnd == at + |EscapeAll(p[..i])| <= BUFFER_SIZE
        invariant !ok ==> at + |Frame(p)| > BUFFER_SIZE
        decreases |p| - i, ok
      {
        EscapeNext(p, i);
        ok := SendEscaped(p[i]);
        if ok {
          Associate(before, EscapeAll(p[..i]), Escape(p[i]));
          i := i + 1;
        }
      }
      if ok {
        assert p[..i] == p;
        ok := Send(END);
        Associate(before, EscapeAll(p), [END]);
      }
    }

    lemma ValidEnd()
      requires Valid()
      ensures slipEnd <= BUFFER_SIZE
    {
    }

    /** write_to_serial: a packet that does not check is dropped; one without id and with the flag set in the host's
        byte order gets the next id and an adapted checksum and is checked again; the rest is framed and queued. */
    method WriteToSerial(packet: array<byte>, len: nat, little: bool) returns (ok: bool)
      requires Valid() && packet != slipBuf && MIN_BUFFER <= packet.Length && len <= packet.Length
      modifies this, slipBuf, packet
      ensures Valid() && written == old(written)
      ensures var before := old(packet[..]);
              if Check(before, len) != Passed then ok && queued == old(queued) && ipId == old(ipId)
              else if !GetsId(before, little) then ipId == old(ipId)
                && (ok ==> queued == old(queued) + Frame(before[..len]))
              else
                && ipId == (old(ipId) + 1) % 0x1_0000
                && (!KeepsSums(before, len, old(ipId), little) ==> ok && queued == old(queued))
                && (KeepsSums(before, len, old(ipId), little) && ok ==>
                      && queued == old(queued) + Frame(Rewritten(before, old(ipId), little)[..len])
                      && Check(Rewritten(before, old(ipId), little), len) == Passed)
    {
      hide Check, Rewritten, KeepsSums, Frame, SetWord, NewSum, Valid, Word, Host, Add, Complement;
      ghost var before := packet[..];
      var verdict := CheckIp(packet, len);
      if verdict != Passed {
        return true;
      }
      if GetsId(packet[..], little) {
        var id := ipId;
        ipId := (ipId + 1) % 0x1_0000;
        FillIn(packet, id, little);
        RewriteKeepsValidIff(before, len, id, little);
        verdict := CheckIp(packet, len);
        if verdict != Passed {
          return true;
        }
      }
      ghost var bytes := packet[..];
      assert packet[..len] == bytes[..len];
      ok := SendFrame(packet[..len]);
    }
  }

  /** iphdr->ip_id == 0 && iphdr->ip_off & IP_DF, the flag being tested in the host's byte order. */
  predicate GetsId(buf: seq<byte>, little: bool)
    requires |buf| >= MIN_BUFFER
  {
    Word(buf, ID_AT) == 0 && Host(Word(buf, OFF_AT), little) / 0x4000 % 2 == 1
  }

  /** The flag is bit 6 of the seventh octet of the header, where a big-endian host finds it; a little-endian one tests
      bit 6 of the eighth, which belongs to the fragment offset. */
  lemma GetsIdIff(buf: seq<byte>, little: bool)
    requires |buf| >= MIN_BUFFER
    ensures GetsId(buf, little) <==>
              buf[4] == 0 && buf[5] == 0 && BitSix(buf[if little then 7 else 6])
  {
    hide Host, BitSix;
    HostFlag(buf[6], buf[7], little);
  }

  predicate BitSix(b: byte) { (b as int / 64) % 2 == 1 }

  lemma HostFlag(high: byte, low: byte, little: bool)
    ensures Host(Big(high, low), little) / 0x4000 % 2 == 1 <==> BitSix(if little then low else high)
  {
    HostBytes(high, low);
    hide Host, Big;
    FlagBit(high as int, low as int);
    FlagBit(low as int, high as int);
  }

  lemma HostBytes(high: byte, low: byte)
    ensures Host(Big(high, low), true) == low as int * 256 + high as int
    ensures Host(Big(high, low), false) == high as int * 256 + low as int
  {
    assert Big(high, low) / 256 == high as int;
  }

  lemma FlagBit(high: nat, low: nat)
    requires high < 256 && low < 256
    ensures (high * 256 + low) / 0x4000 == high / 64
  {
  }

  /** The id and the header checksum, in place. */
  method FillIn(packet: array<byte>, id: Half, little: bool)
    requires packet.Length >= MIN_BUFFER
    modifies packet
    ensures packet[..] == Rewritten(old(packet[..]), id, little)
  {
    hide Host, Add;
    var sum := 256 * (packet[SUM_AT] as int) + packet[SUM_AT + 1] as int;
    packet[ID_AT], packet[ID_AT + 1] := (id / 256) as byte, (id % 256) as byte;
    var nid := Complement(Host(id, little));
    var newSum := Host(Add(Host(sum, little), nid), little);
    packet[SUM_AT], packet[SUM_AT + 1] := (newSum / 256) as byte, (newSum % 256) as byte;
  }

  lemma FrameParts(p: seq<byte>)
    ensures EscapeAll([]) == [] && Frame(p) == EscapeAll(p) + [END]
  {
  }

  lemma Associate(a: seq<byte>, b: seq<byte>, c: seq<byte>)
    ensures a + b + c == a + (b + c)
  {
  }

  lemma EscapeNext(p: seq<byte>, i: nat)
    requires i < |p|
    ensures EscapeAll(p[..i + 1]) == EscapeAll(p[..i]) + Escape(p[i])
    ensures |EscapeAll(p[..i + 1])| <= |EscapeAll(p)| < |Frame(p)|
  {
    EscapeGrows(p[..i], p[i]);
    assert p[..i] + [p[i]] == p[..i + 1];
    EscapePrefix(p, i + 1);
  }

  lemma {:induction false} EscapePrefix(p: seq<byte>, i: nat)
    requires i <= |p|
    ensures |EscapeAll(p[..i])| <= |EscapeAll(p)|
    decreases |p|
  {
    if i > 0 {
      assert p[..i][1..] == p[1..][..i - 1];
      EscapePrefix(p[1..], i - 1);
    }
  }
}
