/** The UDP part of dep/apps/codeprop/codeprop.c: a sender that goes back where a NACK tells it to, and a receiver that
    stores the code image, over a network that loses, repeats and reorders packets. */
module Codeprop {
  import opened Bytes

  const UDPDATASIZE: nat := 32

  /** The code image of every id; lengths are 16-bit. */
  type Image = nat -> seq<byte>

  datatype Data = Data(id: nat, addr: nat, len: nat, bytes: seq<byte>)

  datatype Answer = Silent | Nack(addr: nat)

  // ----- the sender

  datatype Sender = Sender(sending: bool, id: nat, addr: nat)

  function Chunk(image: seq<byte>, addr: nat): seq<byte>
    requires addr <= |image|
  {
    if |image| - addr > UDPDATASIZE then image[addr..addr + UDPDATASIZE] else image[addr..]
  }

  /** send_udpdata. */
  function DataAt(id: nat, image: seq<byte>, addr: nat): Data
    requires addr <= |image|
  {
    Data(id, addr, |image|, Chunk(image, addr))
  }

  class SenderNode {
    var sending: bool
    var id: nat
    var addr: nat
    var len: nat
    const store: array<byte>

    ghost function State(): Sender
      reads this
    {
      Sender(sending, id, addr)
    }

    constructor (image: seq<byte>, id: nat)
      ensures State() == Sender(true, id, 0) && len == |image| == store.Length && store[..] == image && fresh(store)
    {
      sending, this.id, addr, len := true, id, 0, |image|;
      store := new byte[|image|](i requires 0 <= i < |image| => image[i]);
    }

    /** One round of send_udpthread: the data at the current address, which then moves on. */
    method SendData() returns (p: Data)
      requires sending && addr < len == store.Length
      modifies `addr
      ensures p == DataAt(id, store[..], old(addr)) && State() == old(State()).(addr := old(addr) + |p.bytes|)
              && addr <= len
    {
      var n := if len - addr > UDPDATASIZE then UDPDATASIZE else len - addr;
      p := Data(id, addr, len, store[addr..addr + n]);
      assert store[..][addr..] == store[addr..store.Length];
      addr := addr + n;
    }

    /** A NACK is accepted only if it points to a lower byte. */
    method TakeNack(nack: nat)
      modifies `addr
      ensures State() == if nack <= old(addr) then old(State()).(addr := nack) else old(State())
    {
      if nack <= addr {
        addr := nack;
      }
    }
  }

  // ----- the receiver

  /** The node's state in recv_udpthread; started lists the ids whose programs have been started, with what was
      stored. */
  datatype Receiver = Receiver(receiving: bool, id: nat, addr: nat, len: nat, store: seq<byte>,
                               started: seq<(nat, seq<byte>)>)

  const STORE_SIZE: nat := 0x1_0000

  function Completed(r: Receiver): Receiver
    requires r.len <= |r.store|
  {
    if r.addr < r.len then r else r.(receiving := false, started := r.started + [(r.id, r.store[..r.len])])
  }

  /** Storing the data at the current address. */
  function Stored(r: Receiver, bytes: seq<byte>): Receiver
    requires r.addr + |bytes| <= |r.store|
  {
    r.(store := Overwrite(r.store, r.addr, bytes), addr := r.addr + |bytes|)
  }

  /** What is written lies in the storage. */
  predicate Fits(r: Receiver, p: Data) {
    && |r.store| == STORE_SIZE && p.len < STORE_SIZE && r.len < STORE_SIZE && |p.bytes| <= UDPDATASIZE
    && (r.receiving && p.addr == r.addr ==> r.addr + |p.bytes| <= STORE_SIZE)
  }

  /** recv_udpthread on one data packet. The first packet of a new image is stored at address 0 whatever its address is:
      the NACK for it is built in the same buffer and overwrites the address that is tested next. */
  function AfterData(r: Receiver, p: Data): (Receiver, Answer)
    requires Fits(r, p)
  {
    if !r.receiving then
      if p.id <= r.id then (r, Silent)
      else
        var begun := Receiver(true, p.id, 0, p.len, r.store, r.started);
        (Completed(if p.len > 0 then Stored(begun, p.bytes) else begun), if p.addr != 0 then Nack(0) else Silent)
    else if p.id != r.id then (r, Silent)
    else if p.addr == r.addr then (Completed(Stored(r, p.bytes)), Silent)
    else (r, if p.addr > r.addr then Nack(r.addr) else Silent)
  }

  class ReceiverNode {
    var receiving: bool
    var id: nat
    var addr: nat
    var len: nat
    const store: array<byte>
    ghost var started: seq<(nat, seq<byte>)>

    ghost function State(): Receiver
      reads this, store
    {
      Receiver(receiving, id, addr, len, store[..], started)
    }

    constructor ()
      ensures State() == Receiver(false, 0, 0, 0, store[..], []) && store.Length == STORE_SIZE && fresh(store)
    {
      receiving, id, addr, len, started := false, 0, 0, 0, [];
      store := new byte[STORE_SIZE];
    }

    /** eeprom_write at the current address. */
    method Save(bytes: seq<byte>)
      requires addr + |bytes| <= store.Length
      modifies `addr, store
      ensures State() == Stored(old(State()), bytes)
    {
      forall i | 0 <= i < |bytes| {
        store[addr + i] := bytes[i];
      }
      assert store[..] == Overwrite(old(store[..]), addr, bytes);
      addr := addr + |bytes|;
    }

    /** The end of the loop over the image. */
    method Finish()
      requires len <= store.Length
      modifies `receiving, `started
      ensures State() == Completed(old(State()))
    {
      if addr >= len {
        receiving := false;
        started := started + [(id, store[..len])];
      }
    }

    /** recv_udpthread, resumed by a data packet. header is the address field in the shared packet buffer. */
    method HandleData(p: Data) returns (answer: Answer)
      requires Fits(State(), p)
      modifies this, store
      ensures (State(), answer) == AfterData(old(State()), p)
    {
      hide Overwrite;
      var header := p.addr;
      answer := Silent;
      if !receiving {
        if p.id <= id {
          return;
        }
        if header != 0 {
          answer := Nack(0);
          header := 0;
        }
        receiving, addr, id, len := true, 0, p.id, p.len;
        if addr < len && header == addr {
          Save(p.bytes);
        }
      } else {
        if p.id != id {
          return;
        }
        if header == addr {
          Save(p.bytes);
        } else {
          if header > addr {
            answer := Nack(addr);
          }
          return;
        }
      }
      Finish();
    }

    /** The timeout of the receiver. */
    method Timeout() returns (answer: Answer)
      ensures answer == if receiving then Nack(addr) else Silent
    {
      answer := if receiving then Nack(addr) else Silent;
    }
  }

  // ----- the sender and the receiver on the network

  datatype System = System(sender: Sender, receiver: Receiver, packets: set<Data>, nacks: set<nat>)

  datatype Step = Upload | Transmit | TakeNack(addr: nat) | Finish | Deliver(packet: Data) | Timeout

  ghost predicate Genuine(p: Data, image: Image) {
    p.len == |image(p.id)| < STORE_SIZE && p.addr < p.len && p.bytes == Chunk(image(p.id), p.addr)
  }

  ghost predicate Prefix(r: Receiver, image: Image) {
    r.len == |image(r.id)| < STORE_SIZE && r.addr <= r.len && |r.store| == STORE_SIZE
      && r.store[..r.addr] == image(r.id)[..r.addr]
  }

  /** What is stored of the image being received is its beginning, and what has been started are whole images. */
  ghost predicate Sound(r: Receiver, image: Image) {
    && |r.store| == STORE_SIZE && r.len < STORE_SIZE && r.addr <= r.len
    && (r.receiving ==> Prefix(r, image) && r.addr < r.len)
    && forall i :: 0 <= i < |r.started| ==> r.started[i].1 == image(r.started[i].0)
  }

  lemma ChunkFacts(image: seq<byte>, addr: nat)
    requires addr <= |image|
    ensures addr + |Chunk(image, addr)| <= |image|
            && image[..addr] + Chunk(image, addr) == image[..addr + |Chunk(image, addr)|]
    ensures addr < |image| ==> Chunk(image, addr) != []
  {
  }

  lemma StoredPrefix(r: Receiver, image: Image)
    requires Prefix(r, image)
    ensures var c := Chunk(image(r.id), r.addr);
            r.addr + |c| <= |r.store| && Prefix(Stored(r, c), image)
  {
    ChunkFacts(image(r.id), r.addr);
    var c := Chunk(image(r.id), r.addr);
    assert Overwrite(r.store, r.addr, c)[..r.addr + |c|] == r.store[..r.addr] + c;
  }

  lemma CompletedSound(r: Receiver, image: Image)
    requires Prefix(r, image) && r.receiving
             && forall i :: 0 <= i < |r.started| ==> r.started[i].1 == image(r.started[i].0)
    ensures Sound(Completed(r), image)
  {
    if r.addr >= r.len {
      assert image(r.id)[..r.len] == image(r.id);
    }
  }

  lemma GenuineFits(r: Receiver, p: Data, image: Image)
    requires Sound(r, image) && Genuine(p, image)
    ensures Fits(r, p) && 0 < |p.bytes| <= UDPDATASIZE && p.addr + |p.bytes| <= p.len
  {
    ChunkFacts(image(p.id), p.addr);
  }

  /** A packet of the image being received keeps what is stored a prefix of it. */
  lemma NextPacketKeepsSound(r: Receiver, p: Data, image: Image)
    requires Sound(r, image) && Genuine(p, image) && (r.receiving || p.id <= r.id)
    ensures Fits(r, p) && Sound(AfterData(r, p).0, image)
  {
    hide Overwrite, Chunk, Prefix;
    GenuineFits(r, p, image);
    if r.receiving && p.id == r.id && p.addr == r.addr {
      StoredPrefix(r, image);
      CompletedSound(Stored(r, p.bytes), image);
    }
  }

  /** The first packet of a new image is stored at address 0: that is right exactly when it is the one for address 0, or
      happens to carry the same bytes. */
  lemma FirstPacketIff(r: Receiver, p: Data, image: Image)
    requires Sound(r, image) && Genuine(p, image) && !r.receiving && p.id > r.id
    ensures Fits(r, p) && |p.bytes| <= |image(p.id)|
    ensures Sound(AfterData(r, p).0, image) <==> p.addr == 0 || p.bytes == image(p.id)[..|p.bytes|]
  {
    GenuineFits(r, p, image);
    ChunkFacts(image(p.id), p.addr);
    var begun := Receiver(true, p.id, 0, p.len, r.store, r.started);
    var t := Stored(begun, p.bytes);
    assert t.store[..|p.bytes|] == p.bytes;
    if p.addr == 0 {
      assert image(p.id)[..0] + p.bytes == p.bytes;
      CompletedSound(t, image);
    }
  }

  // ----- what the receiver asks for

  /** While an image is being received, the receiver takes the packet behind the prefix it has stored and no other, and
      answers exactly the packets from further on, with a NACK for the address of that packet. */
  lemma NackNamesGap(r: Receiver, p: Data, image: Image)
    requires Sound(r, image) && Genuine(p, image) && r.receiving
    ensures Fits(r, p)
    ensures var (t, answer) := AfterData(r, p);
            && (answer.Nack? <==> p.id == r.id && p.addr > r.addr)
            && (answer.Nack? ==> answer.addr == r.addr && r.store[..answer.addr] == image(r.id)[..answer.addr])
            && (t != r <==> p.id == r.id && p.addr == r.addr)
            && (t != r ==> t.addr == r.addr + |p.bytes| && t.store[..t.addr] == image(r.id)[..t.addr])
  {
    hide Overwrite, Chunk;
    GenuineFits(r, p, image);
    if p.id == r.id && p.addr == r.addr {
      StoredPrefix(r, image);
    }
  }

  /** A newer image is begun by whatever packet of it comes first, which is answered by a NACK for address 0 unless it
      is the one for that address; an image without bytes is complete at once. */
  lemma FirstPacketAnswer(r: Receiver, p: Data)
    requires Fits(r, p) && !r.receiving
    ensures var (t, answer) := AfterData(r, p);
            && (answer.Nack? <==> p.id > r.id && p.addr != 0) && (answer.Nack? ==> answer.addr == 0)
            && (p.id <= r.id ==> t == r)
            && (p.id > r.id ==>
                  && t.id == p.id && t.len == p.len
                  && t.addr == (if p.len == 0 then 0 else |p.bytes|)
                  && t.store[..t.addr] == (if p.len == 0 then [] else p.bytes) && t.store[t.addr..] == r.store[t.addr..]
                  && (t.receiving <==> t.addr < p.len)
                  && t.started == r.started + if t.receiving then [] else [(p.id, t.store[..p.len])])
  {
    if p.id > r.id && p.len > 0 {
      var begun := Receiver(true, p.id, 0, p.len, r.store, r.started);
      assert Stored(begun, p.bytes).store[..|p.bytes|] == p.bytes;
    }
  }

  // ----- whole runs

  ghost predicate Enabled(sys: System, step: Step, image: Image) {
    match step
    case Upload => !sys.sender.sending
    case Transmit => sys.sender.sending && sys.sender.addr < |image(sys.sender.id)|
    case TakeNack(addr) => sys.sender.sending && addr in sys.nacks
    case Finish => sys.sender.sending && sys.sender.addr >= |image(sys.sender.id)|
    case Deliver(p) => p in sys.packets && Fits(sys.receiver, p)
    case Timeout => sys.receiver.receiving
  }

  function Sending(nacks: set<nat>, answer: Answer): set<nat> { if answer.Nack? then nacks + {answer.addr} else nacks }

  ghost function Next(sys: System, step: Step, image: Image): System
    requires Enabled(sys, step, image)
  {
    var s, r := sys.sender, sys.receiver;
    match step
    case Upload => sys.(sender := Sender(true, s.id + 1, 0))
    case Transmit =>
      var p := DataAt(s.id, image(s.id), s.addr);
      sys.(sender := s.(addr := s.addr + |p.bytes|), packets := sys.packets + {p})
    case TakeNack(addr) => sys.(sender := if addr <= s.addr then s.(addr := addr) else s)
    case Finish => sys.(sender := s.(sending := false))
    case Deliver(p) =>
      var (t, answer) := AfterData(r, p);
      sys.(receiver := t, nacks := Sending(sys.nacks, answer))
    case Timeout => sys.(nacks := sys.nacks + {r.addr})
  }

  /** The first packet of an image to reach the receiver is the one for address 0, or carries its bytes. */
  ghost predicate StartsRight(sys: System, step: Step, image: Image) {
    step.Deliver? && !sys.receiver.receiving && step.packet.id > sys.receiver.id ==>
      var p := step.packet;
      p.addr == 0 || (|p.bytes| <= |image(p.id)| && p.bytes == image(p.id)[..|p.bytes|])
  }

  ghost predicate SystemSound(sys: System, image: Image) {
    && Sound(sys.receiver, image)
    && (forall p :: p in sys.packets ==> Genuine(p, image))
    && (sys.sender.sending ==> sys.sender.addr <= |image(sys.sender.id)|)
  }

  /** A step of sender, receiver or network keeps the stored prefix right exactly when it does not deliver a first
      packet from the middle of an image. */
  lemma StepKeepsSoundIff(sys: System, step: Step, image: Image)
    requires SystemSound(sys, image) && Enabled(sys, step, image) && forall id :: |image(id)| < STORE_SIZE
    ensures SystemSound(Next(sys, step, image), image) <==> StartsRight(sys, step, image)
  {
    hide AfterData, Sound, Chunk;
    match step
    case Transmit => ChunkFacts(image(sys.sender.id), sys.sender.addr);
    case Deliver(p) =>
      if sys.receiver.receiving || p.id <= sys.receiver.id {
        NextPacketKeepsSound(sys.receiver, p, image);
      } else {
        FirstPacketIff(sys.receiver, p, image);
      }
    case _ =>
  }

  ghost predicate Run(sys: System, steps: seq<Step>, image: Image, end: System)
    decreases |steps|
  {
    if steps == [] then end == sys
    else Enabled(sys, steps[0], image) && Run(Next(sys, steps[0], image), steps[1..], image, end)
  }

  /** The first packet of every image to reach the receiver is the right one. */
  ghost predicate RightRun(sys: System, steps: seq<Step>, image: Image)
    decreases |steps|
  {
    steps != [] ==>
      && Enabled(sys, steps[0], image) && StartsRight(sys, steps[0], image)
      && RightRun(Next(sys, steps[0], image), steps[1..], image)
  }

  /** Every state of the run is sound. */
  ghost predicate StaysSound(sys: System, steps: seq<Step>, image: Image)
    decreases |steps|
  {
    && SystemSound(sys, image)
    && (steps != [] ==> Enabled(sys, steps[0], image) && StaysSound(Next(sys, steps[0], image), steps[1..], image))
  }

  /** The stored prefix is right throughout a run exactly when the first packet of every image is. */
  lemma {:induction false} StaysSoundIff(sys: System, steps: seq<Step>, image: Image, end: System)
    requires SystemSound(sys, image) && Run(sys, steps, image, end) && forall id :: |image(id)| < STORE_SIZE
    ensures StaysSound(sys, steps, image) <==> RightRun(sys, steps, image)
    decreases |steps|
  {
    hide SystemSound, Enabled, StartsRight, Next;
    if steps != [] {
      StepKeepsSoundIff(sys, steps[0], image);
      if StartsRight(sys, steps[0], image) {
        StaysSoundIff(Next(sys, steps[0], image), steps[1..], image, end);
      }
    }
  }

  lemma {:induction false} RunKeepsSound(sys: System, steps: seq<Step>, image: Image, end: System)
    requires SystemSound(sys, image) && Run(sys, steps, image, end) && RightRun(sys, steps, image)
    requires forall id :: |image(id)| < STORE_SIZE
    ensures SystemSound(end, image)
    decreases |steps|
  {
    hide SystemSound, Enabled, StartsRight, Next;
    if steps != [] {
      StepKeepsSoundIff(sys, steps[0], image);
      RunKeepsSound(Next(sys, steps[0], image), steps[1..], image, end);
    }
  }

  ghost predicate Initial(sys: System) {
    && sys.packets == {} && sys.nacks == {} && !sys.sender.sending && !sys.receiver.receiving
    && sys.receiver.addr == sys.receiver.len == 0 && |sys.receiver.store| == STORE_SIZE && sys.receiver.started == []
  }

  /** In every state reached, what has been stored of the image being received is its beginning, the address stays
      within its length, the sender's address too, and every program started is the whole image of its id. */
  lemma PrefixSafety(sys: System, steps: seq<Step>, image: Image, end: System)
    requires Initial(sys) && Run(sys, steps, image, end) && RightRun(sys, steps, image)
    requires forall id :: |image(id)| < STORE_SIZE
    ensures var r := end.receiver;
            && |r.store| == STORE_SIZE
            && (r.receiving ==>
                  && r.len == |image(r.id)| && r.addr <= r.len < STORE_SIZE
                  && r.store[..r.addr] == image(r.id)[..r.addr])
            && (forall i :: 0 <= i < |r.started| ==> r.started[i].1 == image(r.started[i].0))
    ensures end.sender.sending ==> end.sender.addr <= |image(end.sender.id)|
  {
    RunKeepsSound(sys, steps, image, end);
  }

  /** A packet behind the gap arrives, or the receiver's timer runs out. */
  ghost predicate Asks(sys: System, step: Step) {
    || step == Timeout
    || (step.Deliver? && step.packet in sys.packets && step.packet.id == sys.receiver.id
        && step.packet.addr > sys.receiver.addr)
  }

  /** A lost packet is made up for: a later packet or the timeout brings a NACK, the sender goes back to it, and the
      packet is sent again and delivered. Then the receiver has the bytes that were missing. */
  lemma LostPacketIsMadeUpFor(sys: System, first: Step, image: Image)
    requires SystemSound(sys, image) && forall id :: |image(id)| < STORE_SIZE
    requires sys.sender.sending && sys.receiver.receiving && sys.sender.id == sys.receiver.id
    requires sys.receiver.addr <= sys.sender.addr && Asks(sys, first)
    ensures var r := sys.receiver;
            var packet := DataAt(r.id, image(r.id), r.addr);
            var steps := [first, TakeNack(r.addr), Transmit, Deliver(packet)];
            exists end ::
              && Run(sys, steps, image, end) && SystemSound(end, image)
              && end.receiver.addr == r.addr + |packet.bytes| > r.addr
              && end.receiver.store[..end.receiver.addr] == image(r.id)[..end.receiver.addr]
  {
    hide AfterData, Sound, Chunk, Prefix;
    var r := sys.receiver;
    var packet := DataAt(r.id, image(r.id), r.addr);
    SoundAddress(r, image);
    ChunkFacts(image(r.id), r.addr);
    AskedFor(sys, first, image);
    var s1 := Next(sys, first, image);
    var s2 := Next(s1, TakeNack(r.addr), image);
    assert s2.sender == Sender(true, r.id, r.addr);
    var s3 := Next(s2, Transmit, image);
    assert packet in s3.packets && s3.receiver == r;
    GenuineFits(r, packet, image);
    NackNamesGap(r, packet, image);
    NextPacketKeepsSound(r, packet, image);
    var end := Next(s3, Deliver(packet), image);
    FourSteps(sys, first, s1, s2, s3, end, r.addr, packet, image);
  }

  lemma AskedFor(sys: System, first: Step, image: Image)
    requires SystemSound(sys, image) && sys.receiver.receiving && Asks(sys, first)
    ensures Enabled(sys, first, image)
    ensures var t := Next(sys, first, image);
            t.receiver == sys.receiver && t.sender == sys.sender && t.packets == sys.packets
            && t.nacks == sys.nacks + {sys.receiver.addr}
  {
    hide AfterData, Sound, Genuine;
    if first.Deliver? {
      GenuineFits(sys.receiver, first.packet, image);
      NackNamesGap(sys.receiver, first.packet, image);
    }
  }

  lemma SoundAddress(r: Receiver, image: Image)
    requires Sound(r, image) && r.receiving
    ensures r.addr < r.len == |image(r.id)| < STORE_SIZE
  {
  }

  lemma FourSteps(sys: System, first: Step, s1: System, s2: System, s3: System, end: System, addr: nat, packet: Data,
                  image: Image)
    requires Enabled(sys, first, image) && s1 == Next(sys, first, image)
    requires Enabled(s1, TakeNack(addr), image) && s2 == Next(s1, TakeNack(addr), image)
    requires Enabled(s2, Transmit, image) && s3 == Next(s2, Transmit, image)
    requires Enabled(s3, Deliver(packet), image) && end == Next(s3, Deliver(packet), image)
    ensures Run(sys, [first, TakeNack(addr), Transmit, Deliver(packet)], image, end)
  {
    hide Enabled, Next;
    var steps := [first, TakeNack(addr), Transmit, Deliver(packet)];
    assert steps[1..] == [TakeNack(addr), Transmit, Deliver(packet)];
    assert steps[1..][1..] == [Transmit, Deliver(packet)];
    assert [Transmit, Deliver(packet)][1..] == [Deliver(packet)];
    assert [Deliver(packet)][1..] == [];
    assert Run(end, [], image, end);
    assert Run(s3, [Deliver(packet)], image, end);
    assert Run(s2, [Transmit, Deliver(packet)], image, end);
    assert Run(s1, steps[1..], image, end);
  }

  /** An image of two packets whose first packet is lost: the second is stored in its place, the first is then ignored
      when it comes, and the program is started with the second half twice. */
  lemma MisalignedStart(r: Receiver, image: Image)
    requires Sound(r, image) && !r.receiving && r.id == 0 && |image(1)| == 64 && r.started == []
    ensures var first, second := DataAt(1, image(1), 0), DataAt(1, image(1), 32);
            && Genuine(first, image) && Genuine(second, image) && Fits(r, second)
            && var (r1, answer) := AfterData(r, second);
               && answer == Nack(0) && Fits(r1, first) && AfterData(r1, first) == (r1, Silent)
               && Fits(r1, second)
               && var end := AfterData(r1, second).0;
                  !end.receiving && end.started == [(1, image(1)[32..] + image(1)[32..])]
  {
    var half := image(1)[32..];
    var first, second := DataAt(1, image(1), 0), DataAt(1, image(1), 32);
    assert second.bytes == half;
    var r1 := AfterData(r, second).0;
    assert r1.store[..32] == half && r1.addr == 32;
    var t := Stored(r1, half);
    assert t.store[..64] == half + half;
  }
}
