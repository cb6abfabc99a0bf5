/** Whether an update can still be finished: when packets can promote a node of dep/apps/deluge/deluge.c to the version
    it is updating to, and that no node is ever beyond that when only truthful profiles are followed. */
module DelugeProgress {
  import opened Deluge
  import opened DelugeNetwork
  import opened DelugeSafety

  /** The page being received is missing, and so are all pages behind it. */
  predicate CanFinish(s: NodeState) {
    s.rxPage < |s.pages| && forall i :: s.rxPage <= i < |s.pages| ==> !s.pages[i].complete
  }

  ghost predicate WellFormed(s: NodeState) {
    |s.currentPage| == N_PKT && s.rxPage <= |s.pages|
      && forall i :: 0 <= i < |s.pages| && !s.pages[i].complete ==> s.pages[i].packets <= ALL_PACKETS
  }

  /** The packets are numbered as packets of the node's pages. */
  ghost predicate Numbered(packets: seq<Packet>, count: nat) {
    forall i :: 0 <= i < |packets| ==> packets[i].num < N_PKT && packets[i].page < count
  }

  /** The node after any packets. */
  ghost function AfterPackets(s: NodeState, packets: seq<Packet>): NodeState
    requires WellFormed(s) && Numbered(packets, |s.pages|)
    decreases |packets|
  {
    if packets == [] then s
    else
      PacketKeepsForm(s, packets[0]);
      AfterPackets(AfterPacket(s, packets[0]), packets[1..])
  }

  lemma PacketKeepsForm(s: NodeState, m: Packet)
    requires WellFormed(s) && m.num < N_PKT && m.page < |s.pages|
    ensures WellFormed(AfterPacket(s, m)) && |AfterPacket(s, m).pages| == |s.pages|
    ensures AfterPacket(s, m).updateVersion == s.updateVersion
  {
    assert m.num in ALL_PACKETS;
  }

  // ----- stuck for good

  /** A complete page that is still to be passed is never passed. */
  lemma StuckStep(s: NodeState, m: Packet)
    requires WellFormed(s) && m.num < N_PKT && m.page < |s.pages| && !CanFinish(s)
    ensures !CanFinish(AfterPacket(s, m)) && AfterPacket(s, m).version == s.version
  {
    if s.rxPage < |s.pages| {
      var q :| s.rxPage <= q < |s.pages| && s.pages[q].complete;
      assert AfterPacket(s, m).pages[q].complete && AfterPacket(s, m).rxPage <= q;
    }
  }

  lemma {:induction false} StuckForGood(s: NodeState, packets: seq<Packet>)
    requires WellFormed(s) && Numbered(packets, |s.pages|) && !CanFinish(s)
    ensures AfterPackets(s, packets).version == s.version
    decreases |packets|
  {
    hide CanFinish, AfterPacket;
    if packets != [] {
      StuckStep(s, packets[0]);
      PacketKeepsForm(s, packets[0]);
      StuckForGood(AfterPacket(s, packets[0]), packets[1..]);
    }
  }

  // ----- packets that finish the update

  /** The packet of the page being received that fills slot num. */
  function Fill(s: NodeState, num: nat): Packet
    requires s.rxPage < |s.pages|
  {
    Packet(s.pages[s.rxPage].version, s.rxPage, num, true, [])
  }

  /** One missing packet: the page gets it, or is completed by it. */
  lemma FillStep(s: NodeState, num: nat)
    requires WellFormed(s) && CanFinish(s) && num < N_PKT
    ensures var t := AfterPacket(s, Fill(s, num));
            && WellFormed(t) && |t.pages| == |s.pages| && t.updateVersion == s.updateVersion
            && if s.pages[s.rxPage].packets + {num} == ALL_PACKETS then
                 && t.rxPage == s.rxPage + 1 && (t.rxPage < |t.pages| ==> CanFinish(t))
                 && (t.rxPage == |t.pages| ==> t.version == t.updateVersion)
               else
                 CanFinish(t) && t.rxPage == s.rxPage && t.pages[t.rxPage].packets == s.pages[s.rxPage].packets + {num}
  {
    PacketKeepsForm(s, Fill(s, num));
  }

  /** What is still missing: pages first, then packets of the page being received. */
  ghost function Missing(s: NodeState): nat
    requires s.rxPage < |s.pages|
  {
    |ALL_PACKETS - s.pages[s.rxPage].packets|
  }

  lemma {:induction false} Finish(s: NodeState) returns (packets: seq<Packet>)
    requires WellFormed(s) && CanFinish(s)
    ensures Numbered(packets, |s.pages|) && AfterPackets(s, packets).version == s.updateVersion
    decreases |s.pages| - s.rxPage, Missing(s)
  {
    hide AfterPacket;
    var have := s.pages[s.rxPage].packets;
    var num := Lacking(have);
    FillStep(s, num);
    var m := Fill(s, num);
    var t := AfterPacket(s, m);
    var rest := [];
    if CanFinish(t) {
      rest := Finish(t);
    }
    packets := [m] + rest;
    assert packets[1..] == rest;
  }

  /** A packet that is not there yet, or any packet when all are. */
  lemma Lacking(have: set<nat>) returns (num: nat)
    requires have <= ALL_PACKETS
    ensures num < N_PKT
    ensures have + {num} != ALL_PACKETS ==> |ALL_PACKETS - (have + {num})| < |ALL_PACKETS - have|
  {
    if ALL_PACKETS - have == {} {
      num := 0;
      assert have + {num} == ALL_PACKETS;
    } else {
      num :| num in ALL_PACKETS - have;
      assert ALL_PACKETS - (have + {num}) == (ALL_PACKETS - have) - {num};
    }
  }

  /** Receiving goes on only at the page after the one completed: packets, whichever and however many, can promote a
      node to the version it is updating to exactly when the page being received and all pages behind it are missing. */
  lemma PromotionIff(s: NodeState)
    requires WellFormed(s) && s.version != s.updateVersion
    ensures (exists packets :: Numbered(packets, |s.pages|) && AfterPackets(s, packets).version == s.updateVersion) <==>
              CanFinish(s)
  {
    if CanFinish(s) {
      var packets := Finish(s);
    } else {
      forall packets | Numbered(packets, |s.pages|) ensures AfterPackets(s, packets).version != s.updateVersion {
        StuckForGood(s, packets);
      }
    }
  }

  // ----- whole runs

  /** Promoted already, or still able to be. */
  ghost predicate Hopeful(s: NodeState) { s.version == s.updateVersion || CanFinish(s) }

  ghost predicate HopefulNet(net: Net) { forall n :: 0 <= n < |net.nodes| ==> Hopeful(net.nodes[n]) }

  lemma PacketKeepsHopeful(s: NodeState, m: Packet)
    requires Hopeful(s) && Uniform(s) && m.num < N_PKT == |s.currentPage| && (m.page == s.rxPage ==> m.page < |s.pages|)
    ensures Hopeful(AfterPacket(s, m))
  {
  }

  /** A newer profile of even versions restarts every page. */
  lemma ProfileKeepsHopeful(s: NodeState, m: Profile)
    requires Hopeful(s) && Uniform(s) && |m.vector| == |s.pages| > 0
    requires m.version > s.updateVersion ==> EvenVector(m, m.version)
    ensures Hopeful(AfterProfile(s, m))
  {
    var t := AfterProfile(s, m);
    if m.version > s.updateVersion {
      forall i | 0 <= i < |t.pages| ensures !t.pages[i].complete {
        assert m.vector[i] == m.version > s.pages[i].version;
      }
      HighestIs(t.pages, 0);
    }
  }

  lemma StepKeepsHopeful(net: Net, step: Step, count: nat)
    requires Ordered(net, count) && AllUniform(net) && HopefulNet(net) && Enabled(net, step) && Truthful(net, step)
             && count > 0
    ensures HopefulNet(Next(net, step, count))
  {
    hide AfterPacket, AfterProfile, PacketsFrom, Level, LevelProfile, Uniform, EvenVector, Highest, Passed, NodeInRange;
    var s := net.nodes[step.n];
    match step
    case ReceivePacket(n, m) =>
      InRangePacket(s, m, count);
      PacketKeepsHopeful(s, m);
    case ReceiveProfile(n, m) =>
      InRangeProfile(s, m, count);
      PageCount(s, count);
      ProfileKeepsHopeful(s, m);
    case _ =>
  }

  lemma PageCount(s: NodeState, count: nat)
    requires NodeInRange(s, count)
    ensures |s.pages| == count && WellFormed(s)
  {
  }

  lemma {:induction false} RunKeepsHopeful(net: Net, steps: seq<Step>, count: nat, end: Net)
    requires Ordered(net, count) && AllUniform(net) && HopefulNet(net) && count > 0
    requires Run(net, steps, count, end) && TruthfulRun(net, steps, count)
    ensures HopefulNet(end) && Ordered(end, count)
    decreases |steps|
  {
    hide Ordered, AllUniform, HopefulNet, Enabled, Truthful, Next, InRange;
    if steps != [] {
      StepKeepsOrdered(net, steps[0], count);
      StepKeepsUniformIff(net, steps[0], count);
      StepKeepsHopeful(net, steps[0], count);
      RunKeepsHopeful(Next(net, steps[0], count), steps[1..], count, end);
    }
  }

  lemma StartsHopeful(net: Net, image: Image, count: nat)
    requires Start(net, image, count)
    ensures HopefulNet(net)
  {
    hide Begins;
    forall n | 0 <= n < |net.nodes| ensures Hopeful(net.nodes[n]) {
      BeginsWell(net.nodes[n], image, count);
    }
  }

  /** No node is ever stuck as long as only truthful profiles are followed, whatever packets are delivered: in every
      state that is reached, each node has been promoted to the version it is updating to, or there are packets that
      promote it. */
  lemma NeverStuck(net: Net, steps: seq<Step>, image: Image, count: nat, end: Net, n: nat)
    requires Start(net, image, count) && Run(net, steps, count, end) && TruthfulRun(net, steps, count)
    requires n < |end.nodes| && count > 0
    ensures var s := end.nodes[n];
            && WellFormed(s)
            && (s.version == s.updateVersion ||
                exists packets :: Numbered(packets, |s.pages|) && AfterPackets(s, packets).version == s.updateVersion)
  {
    hide Run, TruthfulRun, Start, Level, Passed, CanFinish, AfterPackets, WellFormed, NodeInRange;
    StartsWell(net, image, count);
    StartsHopeful(net, image, count);
    RunKeepsHopeful(net, steps, count, end);
    PageCount(end.nodes[n], count);
    assert Hopeful(end.nodes[n]);
    if end.nodes[n].version != end.nodes[n].updateVersion {
      PromotionIff(end.nodes[n]);
    }
  }

  /** Without that condition a node gets stuck: it follows the profile that a node sends during its own update,
      completes its page, and then hears the new version's own profile, which renews nothing. */
  lemma UnsettledProfileSticks(image: Image)
    ensures var sender := AfterProfile(Initial(1, [PageOf(image, 1, 0)]), Profile(2, [2]));
            var a := AfterProfile(Initial(0, [PageOf(image, 0, 0)]), ProfileOf(sender));
            && |a.pages| == 1 && a.rxPage == 0
            && var stuck := AfterProfile(Received(a, 2, PageOf(image, 2, 0)), Profile(2, [2]));
               stuck.version == 1 && stuck.updateVersion == 2 && !CanFinish(stuck)
  {
    UnsettledProfileMislabels(image);
    var sender := AfterProfile(Initial(1, [PageOf(image, 1, 0)]), Profile(2, [2]));
    assert sender.pages == [PageInfo({}, false, 2)];
    assert ProfileOf(sender) == Profile(1, [2]);
    var a := AfterProfile(Initial(0, [PageOf(image, 0, 0)]), Profile(1, [2]));
    assert a.pages == [PageInfo({}, false, 2)];
    FourPackets(a, 2, PageOf(image, 2, 0));
    var done := Received(a, 2, PageOf(image, 2, 0));
    assert AfterProfile(done, Profile(2, [2])).pages == done.pages;
  }
}
