/** Any number of Deluge nodes on a network that loses, repeats and reorders messages: image integrity over whole
    runs. */
module DelugeNetwork {
  import opened Deluge
  import opened DelugeSafety

  /** Everything that has ever been sent may still be delivered to anyone, any number of times, or never. */
  datatype Net = Net(nodes: seq<NodeState>, packets: set<Packet>, profiles: set<Profile>, requests: set<Request>)

  datatype Step =
    | ReceivePacket(n: nat, packet: Packet)
    | ReceiveProfile(n: nat, profile: Profile)
    | ReceiveRequest(n: nat, request: Request)
    | SendRequest(n: nat)
    | SendProfile(n: nat)
    | Transmit(n: nat)

  /** All nodes have the same number of pages, and all numbers in messages are in range: kept by every step. */
  ghost predicate InRange(net: Net, count: nat) {
    && (forall n :: 0 <= n < |net.nodes| ==> NodeInRange(net.nodes[n], count))
    && (forall m :: m in net.packets ==> m.num < N_PKT && m.page < count)
    && (forall m :: m in net.profiles ==> |m.vector| == count)
  }

  ghost predicate NodeInRange(s: NodeState, count: nat) {
    && |s.pages| == count && |s.currentPage| == N_PKT && s.rxPage <= count
    && (forall i :: 0 <= i < count ==> s.pages[i].packets <= ALL_PACKETS)
    && (forall i :: 0 <= i < count ==> i in s.file && |s.file[i]| == N_PKT)
    && (Transmits(s) ==> s.txPage < count)
  }

  ghost predicate Enabled(net: Net, step: Step) {
    && step.n < |net.nodes|
    && match step
       case ReceivePacket(_, m) => m in net.packets
       case ReceiveProfile(_, m) => m in net.profiles
       case ReceiveRequest(_, m) => m in net.requests
       case SendRequest(n) => net.nodes[n].rxPage < |net.nodes[n].pages|
       case _ => true
  }

  ghost function Next(net: Net, step: Step, count: nat): Net
    requires InRange(net, count) && Enabled(net, step)
  {
    var s := net.nodes[step.n];
    match step
    case ReceivePacket(n, m) => net.(nodes := net.nodes[n := AfterPacket(s, m)])
    case ReceiveProfile(n, m) => net.(nodes := net.nodes[n := AfterProfile(s, m)])
    case ReceiveRequest(n, m) => net.(nodes := net.nodes[n := AfterRequest(s, m)])
    case SendRequest(n) => net.(requests := net.requests + {RequestOf(s)})
    case SendProfile(n) => net.(profiles := net.profiles + {ProfileOf(s)})
    case Transmit(n) =>
      net.(nodes := net.nodes[n := AfterTransmission(s)],
           packets := net.packets + if Transmits(s) then set m | m in PacketsFrom(s, s.txPage, 0) else {})
  }

  lemma PacketInRange(s: NodeState, m: Packet, count: nat)
    requires NodeInRange(s, count) && m.num < N_PKT && m.page < count
    ensures NodeInRange(AfterPacket(s, m), count)
  {
    assert m.num in ALL_PACKETS;
  }

  lemma ProfileInRange(s: NodeState, m: Profile, count: nat)
    requires NodeInRange(s, count) && |m.vector| == count
    ensures NodeInRange(AfterProfile(s, m), count)
  {
  }

  lemma RequestInRange(s: NodeState, m: Request, count: nat)
    requires NodeInRange(s, count)
    ensures NodeInRange(AfterRequest(s, m), count)
  {
  }

  lemma {:induction false} SentInRange(s: NodeState, page: nat, num: nat)
    requires page < |s.pages| && page in s.file && |s.file[page]| == N_PKT
    ensures forall m :: m in PacketsFrom(s, page, num) ==> m.num < N_PKT && m.page == page
    decreases N_PKT - num
  {
    if num < N_PKT {
      SentInRange(s, page, num + 1);
    }
  }

  lemma StepInRange(net: Net, step: Step, count: nat)
    requires InRange(net, count) && Enabled(net, step)
    ensures InRange(Next(net, step, count), count)
  {
    hide AfterPacket, AfterProfile, AfterRequest, NodeInRange, PacketsFrom;
    var s := net.nodes[step.n];
    match step
    case ReceivePacket(n, m) => PacketInRange(s, m, count);
    case ReceiveProfile(n, m) => ProfileInRange(s, m, count);
    case ReceiveRequest(n, m) => RequestInRange(s, m, count);
    case SendRequest(n) =>
    case SendProfile(n) => assert NodeInRange(s, count) ==> |ProfileOf(s).vector| == count by { Unfolded(s, count); }
    case Transmit(n) =>
      Unfolded(s, count);
      if Transmits(s) {
        SentInRange(s, s.txPage, 0);
      }
  }

  lemma Unfolded(s: NodeState, count: nat)
    requires NodeInRange(s, count)
    ensures |s.pages| == count
            && (Transmits(s) ==> 0 <= s.txPage < count && s.txPage in s.file && |s.file[s.txPage]| == N_PKT)
    ensures NodeInRange(AfterTransmission(s), count)
  {
  }

  // ----- what every step keeps

  ghost predicate Even(s: NodeState, w: nat) { forall i :: 0 <= i < |s.pages| ==> s.pages[i].version == w }

  ghost predicate EvenVector(m: Profile, w: nat) { forall i :: 0 <= i < |m.vector| ==> m.vector[i] == w }

  /** All pages of a node have the same version, which is at least the one it is updating to. */
  ghost predicate Level(s: NodeState) { s.version <= s.updateVersion && exists w :: w >= s.updateVersion && Even(s, w) }

  ghost predicate LevelProfile(m: Profile) { exists w :: w >= m.version && EvenVector(m, w) }

  /** Numbers are in range, page versions even, and the pages below the one being received complete. */
  ghost predicate Ordered(net: Net, count: nat) {
    && InRange(net, count)
    && (forall n :: 0 <= n < |net.nodes| ==> Level(net.nodes[n]) && Passed(net.nodes[n]))
    && (forall m :: m in net.profiles ==> LevelProfile(m))
  }

  lemma PacketKeepsLevel(s: NodeState, m: Packet)
    requires Level(s) && m.num < N_PKT == |s.currentPage| && (m.page == s.rxPage ==> m.page < |s.pages|)
    ensures Level(AfterPacket(s, m))
  {
    var w :| w >= s.updateVersion && Even(s, w);
    assert Even(AfterPacket(s, m), w);
  }

  /** A profile of even versions renews all pages or none, so it never leaves a partly received page behind. */
  lemma ProfileKeepsLevel(s: NodeState, m: Profile)
    requires Level(s) && LevelProfile(m) && |m.vector| == |s.pages|
    ensures Level(AfterProfile(s, m)) && KeepsPartialPage(s, m)
  {
    var w :| w >= s.updateVersion && Even(s, w);
    var v :| v >= m.version && EvenVector(m, v);
    assert m.version > s.updateVersion ==> Even(AfterProfile(s, m), if v > w then v else w);
  }

  lemma ProfileKeepsPassed(s: NodeState, m: Profile)
    requires Passed(s)
    ensures Passed(AfterProfile(s, m)) && AfterProfile(s, m).version == s.version
  {
  }

  lemma QueueKeepsOrder(s: NodeState, m: Request)
    requires Level(s) && Passed(s)
    ensures var t := AfterRequest(s, m); Level(t) && Passed(t) && t.version == s.version
    ensures var t := AfterTransmission(s); Level(t) && Passed(t) && t.version == s.version
  {
    hide Highest;
    var w :| w >= s.updateVersion && Even(s, w);
    assert Even(AfterRequest(s, m), w) && Even(AfterTransmission(s), w);
  }

  lemma ProfileOfLevel(s: NodeState)
    requires Level(s)
    ensures LevelProfile(ProfileOf(s))
  {
    var w :| w >= s.updateVersion && Even(s, w);
    assert EvenVector(ProfileOf(s), w);
  }

  /** A version is promoted only to the one the node is updating to, and only when every page is complete. */
  ghost predicate Promotes(s: NodeState, t: NodeState) {
    t.version != s.version ==> t.version == s.updateVersion && forall i :: 0 <= i < |t.pages| ==> t.pages[i].complete
  }

  /** Every step of any node, with whatever packets and requests, keeps the order and promotes only complete nodes. */
  lemma StepKeepsOrdered(net: Net, step: Step, count: nat)
    requires Ordered(net, count) && Enabled(net, step)
    ensures Ordered(Next(net, step, count), count) && |Next(net, step, count).nodes| == |net.nodes|
    ensures forall n :: 0 <= n < |net.nodes| ==> Promotes(net.nodes[n], Next(net, step, count).nodes[n])
  {
    hide AfterPacket, AfterProfile, AfterRequest, AfterTransmission, NodeInRange, PacketsFrom, Level, LevelProfile,
      Passed;
    StepInRange(net, step, count);
    var s := net.nodes[step.n];
    match step
    case ReceivePacket(n, m) =>
      InRangePacket(s, m, count);
      PacketKeepsLevel(s, m);
      PacketPromotes(s, m);
    case ReceiveProfile(n, m) =>
      InRangeProfile(s, m, count);
      ProfileKeepsLevel(s, m);
      ProfileKeepsPassed(s, m);
    case ReceiveRequest(n, m) => QueueKeepsOrder(s, m);
    case SendRequest(n) =>
    case SendProfile(n) => ProfileOfLevel(s);
    case Transmit(n) => QueueKeepsOrder(s, Request(0, 0, {}));
  }

  lemma InRangePacket(s: NodeState, m: Packet, count: nat)
    requires NodeInRange(s, count) && m.num < N_PKT && m.page < count
    ensures m.num < N_PKT == |s.currentPage| && (m.page == s.rxPage ==> m.page < |s.pages|)
  {
  }

  lemma InRangeProfile(s: NodeState, m: Profile, count: nat)
    requires NodeInRange(s, count) && |m.vector| == count
    ensures |m.vector| == |s.pages|
  {
  }

  // ----- exactly which steps keep the images

  ghost predicate AllSound(net: Net, image: Image) { forall n :: 0 <= n < |net.nodes| ==> Sound(net.nodes[n], image) }

  /** A packet that is delivered fits the node it comes to. */
  ghost predicate Fitting(net: Net, step: Step, image: Image, count: nat)
    requires InRange(net, count) && Enabled(net, step)
  {
    step.ReceivePacket? ==> Fits(net.nodes[step.n], step.packet, image)
  }

  lemma QueueKeepsSound(s: NodeState, t: NodeState, image: Image)
    requires Sound(s, image) && t == s.(txSet := t.txSet, txPage := t.txPage)
    ensures Sound(t, image)
  {
    forall i | 0 <= i < |t.pages| ensures PageSound(t, image, i) {
      assert PageSound(s, image, i);
    }
  }

  lemma ProfileKeepsSound(s: NodeState, m: Profile, image: Image)
    requires Sound(s, image) && Level(s) && LevelProfile(m) && |m.vector| == |s.pages|
    ensures Sound(AfterProfile(s, m), image)
  {
    ProfileKeepsLevel(s, m);
    if m.version > s.updateVersion {
      ProfileKeepsSoundIff(s, m, image);
    }
  }

  /** A step keeps all nodes sound exactly when it does not deliver a packet that does not fit. */
  lemma StepKeepsSoundIff(net: Net, step: Step, image: Image, count: nat)
    requires Ordered(net, count) && AllSound(net, image) && Enabled(net, step)
    ensures AllSound(Next(net, step, count), image) <==> Fitting(net, step, image, count)
  {
    hide AfterPacket, AfterProfile, NodeInRange, PacketsFrom, Sound, Level, LevelProfile, Passed, Fits, Highest;
    var s := net.nodes[step.n];
    var t := Next(net, step, count).nodes[step.n];
    assert Next(net, step, count).nodes == net.nodes[step.n := t];
    match step
    case ReceivePacket(n, m) =>
      InRangePacket(s, m, count);
      PacketKeepsSoundIff(s, m, image);
    case ReceiveProfile(n, m) =>
      InRangeProfile(s, m, count);
      ProfileKeepsSound(s, m, image);
    case ReceiveRequest(n, m) => QueueKeepsSound(s, t, image);
    case SendRequest(n) =>
    case SendProfile(n) =>
    case Transmit(n) => QueueKeepsSound(s, t, image);
  }

  // ----- exactly which steps keep the versions

  /** A node's pages have the version it is updating to, and all of them are complete once it has been promoted. */
  ghost predicate Uniform(s: NodeState) {
    Even(s, s.updateVersion)
      && (s.version == s.updateVersion ==> forall i :: 0 <= i < |s.pages| ==> s.pages[i].complete)
  }

  ghost predicate AllUniform(net: Net) { forall n :: 0 <= n < |net.nodes| ==> Uniform(net.nodes[n]) }

  /** A profile that is followed gives every page the version that it announces. */
  ghost predicate Truthful(net: Net, step: Step)
    requires Enabled(net, step)
  {
    step.ReceiveProfile? && step.profile.version > net.nodes[step.n].updateVersion ==>
      EvenVector(step.profile, step.profile.version)
  }

  lemma PacketKeepsUniform(s: NodeState, m: Packet)
    requires Uniform(s) && Passed(s) && m.num < N_PKT == |s.currentPage| && (m.page == s.rxPage ==> m.page < |s.pages|)
    ensures Uniform(AfterPacket(s, m))
  {
    PacketPromotes(s, m);
  }

  lemma ProfileKeepsUniformIff(s: NodeState, m: Profile)
    requires Uniform(s) && Level(s) && |m.vector| == |s.pages|
    ensures Uniform(AfterProfile(s, m)) <==> (m.version > s.updateVersion ==> EvenVector(m, m.version))
  {
    hide Highest;
    if m.version > s.updateVersion {
      var t := AfterProfile(s, m);
      assert forall i :: 0 <= i < |t.pages| ==> t.pages[i] == Renewed(s.pages, m.vector, i);
      if Even(t, m.version) {
        forall i | 0 <= i < |m.vector| ensures m.vector[i] == m.version {
          assert t.pages[i].version == m.version;
        }
      }
    }
  }

  lemma OthersKeepUniform(s: NodeState, m: Request)
    requires Uniform(s)
    ensures Uniform(AfterRequest(s, m)) && Uniform(AfterTransmission(s))
  {
    hide Highest;
  }

  /** A step keeps all nodes uniform exactly when no node follows a profile that is not truthful. */
  lemma StepKeepsUniformIff(net: Net, step: Step, count: nat)
    requires Ordered(net, count) && AllUniform(net) && Enabled(net, step)
    ensures AllUniform(Next(net, step, count)) <==> Truthful(net, step)
  {
    hide AfterPacket, AfterProfile, AfterRequest, AfterTransmission, PacketsFrom, NodeInRange, Level, LevelProfile,
      Uniform, Passed, EvenVector;
    var s := net.nodes[step.n];
    var t := Next(net, step, count).nodes[step.n];
    assert Next(net, step, count).nodes == net.nodes[step.n := t];
    match step
    case ReceivePacket(n, m) =>
      InRangePacket(s, m, count);
      PacketKeepsUniform(s, m);
    case ReceiveProfile(n, m) =>
      InRangeProfile(s, m, count);
      ProfileKeepsUniformIff(s, m);
    case ReceiveRequest(n, m) => OthersKeepUniform(s, m);
    case SendRequest(n) =>
    case SendProfile(n) =>
    case Transmit(n) => OthersKeepUniform(s, Request(0, 0, {}));
  }

  // ----- whole runs

  /** The steps lead from one state of the network to another. */
  ghost predicate Run(net: Net, steps: seq<Step>, count: nat, end: Net)
    decreases |steps|
  {
    if steps == [] then end == net
    else InRange(net, count) && Enabled(net, steps[0]) && Run(Next(net, steps[0], count), steps[1..], count, end)
  }

  /** Every packet that is delivered fits. */
  ghost predicate FittingRun(net: Net, steps: seq<Step>, image: Image, count: nat)
    decreases |steps|
  {
    steps != [] ==>
      && InRange(net, count) && Enabled(net, steps[0]) && Fitting(net, steps[0], image, count)
      && FittingRun(Next(net, steps[0], count), steps[1..], image, count)
  }

  /** Every profile that is followed is truthful. */
  ghost predicate TruthfulRun(net: Net, steps: seq<Step>, count: nat)
    decreases |steps|
  {
    steps != [] ==>
      && InRange(net, count) && Enabled(net, steps[0]) && Truthful(net, steps[0])
      && TruthfulRun(Next(net, steps[0], count), steps[1..], count)
  }

  /** Every state of the run has sound nodes. */
  ghost predicate StaysSound(net: Net, steps: seq<Step>, image: Image, count: nat)
    decreases |steps|
  {
    && AllSound(net, image)
    && (steps != [] ==>
          && InRange(net, count) && Enabled(net, steps[0])
          && StaysSound(Next(net, steps[0], count), steps[1..], image, count))
  }

  /** Every state of the run has uniform nodes. */
  ghost predicate StaysUniform(net: Net, steps: seq<Step>, count: nat)
    decreases |steps|
  {
    && AllUniform(net)
    && (steps != [] ==>
          && InRange(net, count) && Enabled(net, steps[0])
          && StaysUniform(Next(net, steps[0], count), steps[1..], count))
  }

  /** Nodes that hold their complete image, and nothing sent yet. */
  ghost predicate Start(net: Net, image: Image, count: nat) {
    && net.packets == {} && net.profiles == {} && net.requests == {}
    && forall n :: 0 <= n < |net.nodes| ==> Begins(net.nodes[n], image, count)
  }

  ghost predicate Begins(s: NodeState, image: Image, count: nat) {
    s == Initial(s.version, seq(count, i requires i >= 0 => PageOf(image, s.version, i)))
  }

  lemma BeginsWell(s: NodeState, image: Image, count: nat)
    requires Begins(s, image, count)
    ensures NodeInRange(s, count) && Sound(s, image) && Serving(s) && Level(s) && Passed(s) && Uniform(s)
    ensures s.version == s.updateVersion
  {
    InitialSound(s.version, seq(count, i requires i >= 0 => PageOf(image, s.version, i)), image);
    assert Even(s, s.version);
  }

  lemma StartsWell(net: Net, image: Image, count: nat)
    requires Start(net, image, count)
    ensures Ordered(net, count) && AllSound(net, image) && AllUniform(net)
    ensures forall n :: 0 <= n < |net.nodes| ==> Serving(net.nodes[n])
  {
    hide NodeInRange, Sound, Serving, Level, Passed, Uniform, Begins;
    forall n | 0 <= n < |net.nodes|
      ensures NodeInRange(net.nodes[n], count) && Level(net.nodes[n]) && Passed(net.nodes[n])
      ensures Sound(net.nodes[n], image) && Serving(net.nodes[n]) && Uniform(net.nodes[n])
    {
      BeginsWell(net.nodes[n], image, count);
    }
  }

  lemma {:induction false} RunKeepsOrdered(net: Net, steps: seq<Step>, count: nat, end: Net)
    requires Ordered(net, count) && Run(net, steps, count, end)
    ensures Ordered(end, count)
    decreases |steps|
  {
    hide Ordered, Enabled, Next, InRange;
    if steps != [] {
      StepKeepsOrdered(net, steps[0], count);
      RunKeepsOrdered(Next(net, steps[0], count), steps[1..], count, end);
    }
  }

  lemma {:induction false} RunKeepsSound(net: Net, steps: seq<Step>, image: Image, count: nat, end: Net)
    requires Ordered(net, count) && AllSound(net, image) && Run(net, steps, count, end)
             && FittingRun(net, steps, image, count)
    ensures AllSound(end, image)
    decreases |steps|
  {
    hide Ordered, AllSound, Enabled, Next, InRange, Fitting;
    if steps != [] {
      StepKeepsOrdered(net, steps[0], count);
      StepKeepsSoundIff(net, steps[0], image, count);
      RunKeepsSound(Next(net, steps[0], count), steps[1..], image, count, end);
    }
  }

  lemma {:induction false} RunKeepsUniform(net: Net, steps: seq<Step>, count: nat, end: Net)
    requires Ordered(net, count) && AllUniform(net) && Run(net, steps, count, end) && TruthfulRun(net, steps, count)
    ensures AllUniform(end)
    decreases |steps|
  {
    hide Ordered, AllUniform, Enabled, Next, InRange, Truthful;
    if steps != [] {
      StepKeepsOrdered(net, steps[0], count);
      StepKeepsUniformIff(net, steps[0], count);
      RunKeepsUniform(Next(net, steps[0], count), steps[1..], count, end);
    }
  }

  /** All nodes stay sound throughout a run exactly when every packet that is delivered fits. */
  lemma {:induction false} StaysSoundIff(net: Net, steps: seq<Step>, image: Image, count: nat, end: Net)
    requires Ordered(net, count) && AllSound(net, image) && Run(net, steps, count, end)
    ensures StaysSound(net, steps, image, count) <==> FittingRun(net, steps, image, count)
    decreases |steps|
  {
    hide Ordered, AllSound, Enabled, Next, InRange, Fitting;
    if steps != [] {
      StepKeepsOrdered(net, steps[0], count);
      StepKeepsSoundIff(net, steps[0], image, count);
      if Fitting(net, steps[0], image, count) {
        StaysSoundIff(Next(net, steps[0], count), steps[1..], image, count, end);
      }
    }
  }

  /** All nodes stay uniform throughout a run exactly when every profile that is followed is truthful. */
  lemma {:induction false} StaysUniformIff(net: Net, steps: seq<Step>, count: nat, end: Net)
    requires Ordered(net, count) && AllUniform(net) && Run(net, steps, count, end)
    ensures StaysUniform(net, steps, count) <==> TruthfulRun(net, steps, count)
    decreases |steps|
  {
    hide Ordered, AllUniform, Enabled, Next, InRange, Truthful;
    if steps != [] {
      StepKeepsOrdered(net, steps[0], count);
      StepKeepsUniformIff(net, steps[0], count);
      if Truthful(net, steps[0]) {
        StaysUniformIff(Next(net, steps[0], count), steps[1..], count, end);
      }
    }
  }

  /** Image integrity: when every packet delivered so far fitted, every complete page of every node is that page of the
      image of its version, and every packet collected of the page being received is right. */
  lemma ImageIntegrity(net: Net, steps: seq<Step>, image: Image, count: nat, end: Net, n: nat, i: nat)
    requires Start(net, image, count) && Run(net, steps, count, end) && FittingRun(net, steps, image, count)
    requires n < |end.nodes| && i < |end.nodes[n].pages|
    ensures var s := end.nodes[n];
            && (s.pages[i].complete ==> i in s.file && s.file[i] == PageOf(image, s.pages[i].version, i))
            && (!s.pages[i].complete && i == s.rxPage ==>
                  forall k :: k in s.pages[i].packets && k < |s.currentPage| ==>
                    s.currentPage[k] == image(s.pages[i].version, i, k))
            && (i < s.rxPage ==> s.pages[i].complete)
  {
    hide Run, FittingRun, Start, Ordered, PageOf;
    StartsWell(net, image, count);
    RunKeepsSound(net, steps, image, count, end);
    assert PageSound(end.nodes[n], image, i);
  }

  /** In every run, whatever packets are delivered, all pages below the one being received are complete, and a version
      changes only to the one the node is updating to, with all pages complete. */
  lemma VersionPromotion(net: Net, steps: seq<Step>, image: Image, count: nat, end: Net, step: Step, n: nat, i: nat)
    requires Start(net, image, count) && Run(net, steps, count, end) && Enabled(end, step) && n < |end.nodes|
             && i < count
    ensures |end.nodes[n].pages| == count && (i < end.nodes[n].rxPage ==> end.nodes[n].pages[i].complete)
    ensures InRange(end, count)
    ensures var next := Next(end, step, count);
            && |next.nodes| == |end.nodes| && |next.nodes[n].pages| == count
            && (next.nodes[n].version != end.nodes[n].version ==>
                  next.nodes[n].version == end.nodes[n].updateVersion && next.nodes[n].pages[i].complete)
  {
    hide Run, Start, Level, LevelProfile, Next;
    StartsWell(net, image, count);
    RunKeepsOrdered(net, steps, count, end);
    StepKeepsOrdered(end, step, count);
    assert Passed(end.nodes[n]) && NodeInRange(end.nodes[n], count);
    var t := Next(end, step, count).nodes[n];
    assert Promotes(end.nodes[n], t) && NodeInRange(t, count);
  }

  /** When moreover every profile followed so far was truthful, a node whose version is the one it was updating to holds
      the whole image of that version. */
  lemma PromotedNodesAreUpdated(net: Net, steps: seq<Step>, image: Image, count: nat, end: Net, n: nat, i: nat)
    requires Start(net, image, count) && Run(net, steps, count, end) && n < |end.nodes| && i < count
    requires FittingRun(net, steps, image, count) && TruthfulRun(net, steps, count)
    ensures var s := end.nodes[n];
            && |s.pages| == count && s.version <= s.updateVersion
            && (s.version == s.updateVersion ==>
                  s.pages[i].complete && i in s.file && s.file[i] == PageOf(image, s.version, i))
  {
    hide Run, FittingRun, TruthfulRun, Start, PageOf;
    StartsWell(net, image, count);
    RunKeepsOrdered(net, steps, count, end);
    RunKeepsSound(net, steps, image, count, end);
    RunKeepsUniform(net, steps, count, end);
    assert NodeInRange(end.nodes[n], count) && Uniform(end.nodes[n]) && Level(end.nodes[n]);
    assert PageSound(end.nodes[n], image, i);
  }

  // ----- careful nodes: what they have to avoid for every run to be of that kind

  /** No request is served for the first page that the server itself lacks. */
  ghost predicate Careful(net: Net, step: Step)
    requires Enabled(net, step)
  {
    step.ReceiveRequest? ==> !AsksForMissing(net.nodes[step.n], step.request)
  }

  /** No profile is sent by a node that is itself being updated. */
  ghost predicate Settled(net: Net, step: Step)
    requires Enabled(net, step)
  {
    step.SendProfile? ==> net.nodes[step.n].version == net.nodes[step.n].updateVersion
  }

  ghost predicate CarefulRun(net: Net, steps: seq<Step>, count: nat)
    decreases |steps|
  {
    steps != [] ==>
      && InRange(net, count) && Enabled(net, steps[0]) && Careful(net, steps[0])
      && CarefulRun(Next(net, steps[0], count), steps[1..], count)
  }

  ghost predicate SettledRun(net: Net, steps: seq<Step>, count: nat)
    decreases |steps|
  {
    steps != [] ==>
      && InRange(net, count) && Enabled(net, steps[0]) && Settled(net, steps[0])
      && SettledRun(Next(net, steps[0], count), steps[1..], count)
  }

  ghost predicate Healthy(net: Net, image: Image, count: nat) {
    && Ordered(net, count) && AllSound(net, image)
    && (forall n :: 0 <= n < |net.nodes| ==> Serving(net.nodes[n]))
    && (forall m :: m in net.packets ==> Genuine(m, image))
  }

  lemma SentHealthy(s: NodeState, image: Image)
    requires Sound(s, image) && Serving(s) && Transmits(s)
    ensures s.txPage < |s.pages| && s.txPage in s.file && |s.file[s.txPage]| == N_PKT
    ensures forall m :: m in PacketsFrom(s, s.txPage, 0) ==> Genuine(m, image)
  {
    assert PageSound(s, image, s.txPage);
    SentGenuine(s, s.txPage, 0, image);
  }

  lemma ServingAfter(s: NodeState)
    requires Serving(s)
    ensures Serving(AfterTransmission(s))
  {
  }

  /** Only genuine packets are sent as long as all nodes are careful, and those fit everywhere. */
  lemma StepKeepsHealthy(net: Net, step: Step, image: Image, count: nat)
    requires Healthy(net, image, count) && Enabled(net, step) && Careful(net, step)
    ensures Healthy(Next(net, step, count), image, count) && Fitting(net, step, image, count)
  {
    hide AfterPacket, AfterProfile, AfterRequest, AfterTransmission, NodeInRange, PacketsFrom, Sound, Level,
      LevelProfile, Serving, AsksForMissing, Passed, Promotes;
    StepKeepsOrdered(net, step, count);
    StepKeepsSoundIff(net, step, image, count);
    var s := net.nodes[step.n];
    match step
    case ReceivePacket(n, m) =>
      InRangePacket(s, m, count);
      PacketKeepsServing(s, m);
    case ReceiveProfile(n, m) => ProfileKeepsServing(s, m);
    case ReceiveRequest(n, m) => RequestKeepsServing(s, m);
    case SendRequest(n) =>
    case SendProfile(n) =>
    case Transmit(n) =>
      ServingAfter(s);
      if Transmits(s) {
        SentHealthy(s, image);
      }
  }

  lemma {:induction false} CarefulRunFits(net: Net, steps: seq<Step>, image: Image, count: nat, end: Net)
    requires Healthy(net, image, count) && Run(net, steps, count, end) && CarefulRun(net, steps, count)
    ensures FittingRun(net, steps, image, count)
    decreases |steps|
  {
    hide Healthy, Enabled, Careful, Next, InRange, Fitting;
    if steps != [] {
      StepKeepsHealthy(net, steps[0], image, count);
      CarefulRunFits(Next(net, steps[0], count), steps[1..], image, count, end);
    }
  }

  /** If no node serves a request for its own first missing page, every packet that is delivered fits. */
  lemma CarefulRunsAreFitting(net: Net, steps: seq<Step>, image: Image, count: nat, end: Net)
    requires Start(net, image, count) && Run(net, steps, count, end) && CarefulRun(net, steps, count)
    ensures FittingRun(net, steps, image, count)
  {
    hide Run, CarefulRun, FittingRun;
    StartsWell(net, image, count);
    CarefulRunFits(net, steps, image, count, end);
  }

  ghost predicate TruthfulProfiles(net: Net) { forall m :: m in net.profiles ==> EvenVector(m, m.version) }

  lemma ProfileOfUniform(s: NodeState)
    requires Uniform(s) && s.version == s.updateVersion
    ensures EvenVector(ProfileOf(s), s.version)
  {
  }

  lemma {:induction false} SettledRunTruthful(net: Net, steps: seq<Step>, count: nat, end: Net)
    requires Ordered(net, count) && AllUniform(net) && TruthfulProfiles(net)
    requires Run(net, steps, count, end) && SettledRun(net, steps, count)
    ensures TruthfulRun(net, steps, count)
    decreases |steps|
  {
    hide Ordered, InRange, EvenVector, AfterPacket, AfterProfile, AfterRequest, AfterTransmission, Uniform;
    if steps != [] {
      var next := Next(net, steps[0], count);
      StepKeepsOrdered(net, steps[0], count);
      StepKeepsUniformIff(net, steps[0], count);
      if steps[0].SendProfile? {
        ProfileOfUniform(net.nodes[steps[0].n]);
      }
      SettledRunTruthful(next, steps[1..], count, end);
    }
  }

  /** If no node sends its profile during its own update, every profile that is followed is truthful. */
  lemma SettledRunsAreTruthful(net: Net, steps: seq<Step>, image: Image, count: nat, end: Net)
    requires Start(net, image, count) && Run(net, steps, count, end) && SettledRun(net, steps, count)
    ensures TruthfulRun(net, steps, count)
  {
    hide Run, SettledRun, TruthfulRun;
    StartsWell(net, image, count);
    SettledRunTruthful(net, steps, count, end);
  }

  // ----- what goes wrong without the two conditions

  /** All four packets of page 0. */
  function Received(s: NodeState, version: nat, file: seq<Payload>): NodeState
    requires |s.currentPage| == N_PKT == |file| && |s.pages| == 1 && s.rxPage == 0
  {
    var s0 := AfterPacket(s, Packet(version, 0, 0, true, file[0]));
    var s1 := if s0.rxPage == 0 then AfterPacket(s0, Packet(version, 0, 1, true, file[1])) else s0;
    var s2 := if s1.rxPage == 0 then AfterPacket(s1, Packet(version, 0, 2, true, file[2])) else s1;
    if s2.rxPage == 0 then AfterPacket(s2, Packet(version, 0, 3, true, file[3])) else s2
  }

  lemma FourPackets(s: NodeState, version: nat, file: seq<Payload>)
    requires |s.currentPage| == N_PKT == |file| && s.pages == [PageInfo({}, false, version)] && s.rxPage == 0
    ensures var t := Received(s, version, file);
            t.pages == [PageInfo(ALL_PACKETS, true, version)] && t.file == s.file[0 := file]
              && t.version == s.updateVersion
  {
    var current := s.currentPage[0 := file[0]][1 := file[1]][2 := file[2]][3 := file[3]];
    assert current == file;
    assert {0, 1, 2} + {3} == ALL_PACKETS && {0, 1} + {2} == {0, 1, 2} && {0} + {1} == {0, 1} && {} + {0} == {0};
    assert 3 !in {0, 1, 2} && 3 !in {0, 1} && 3 !in {0};
    var s0 := AfterPacket(s, Packet(version, 0, 0, true, file[0]));
    assert s0.pages[0].packets == {0};
    var s1 := AfterPacket(s0, Packet(version, 0, 1, true, file[1]));
    assert s1.pages[0].packets == {0, 1};
    var s2 := AfterPacket(s1, Packet(version, 0, 2, true, file[2]));
    assert s2.pages[0].packets == {0, 1, 2};
  }

  /** Three nodes with versions 0, 1 and 2. The first asks the second for version 1; before the request arrives, both
      hear the third's profile. The second answers although its page is missing, with the old data under the new label,
      and the first ends up claiming version 2 with the data of version 1. */
  lemma MissingPageIsMislabelled(image: Image)
    ensures var a := Initial(0, [PageOf(image, 0, 0)]);
            var b := Initial(1, [PageOf(image, 1, 0)]);
            var c := Initial(2, [PageOf(image, 2, 0)]);
            var a1 := AfterProfile(a, ProfileOf(b));
            var request := RequestOf(a1);
            var b1 := AfterProfile(b, ProfileOf(c));
            var a2 := AfterProfile(a1, ProfileOf(c));
            var b2 := AfterRequest(b1, request);
            && AsksForMissing(b1, request) && Transmits(b2)
            && var sent := PacketsFrom(b2, 0, 0);
               |sent| == 4
               && var end := Received(a2, 2, [sent[0].payload, sent[1].payload, sent[2].payload, sent[3].payload]);
                  && (forall k :: 0 <= k < 4 ==> sent[k] == Packet(2, 0, k, true, image(1, 0, k)))
                  && end.version == 2 && end.pages[0].complete && end.pages[0].version == 2
                  && end.file[0] == PageOf(image, 1, 0)
  {
    var a := Initial(0, [PageOf(image, 0, 0)]);
    var b := Initial(1, [PageOf(image, 1, 0)]);
    var a1 := AfterProfile(a, Profile(1, [1]));
    var b1 := AfterProfile(b, Profile(2, [2]));
    var a2 := AfterProfile(a1, Profile(2, [2]));
    assert ProfileOf(b) == Profile(1, [1]) && ProfileOf(Initial(2, [PageOf(image, 2, 0)])) == Profile(2, [2]);
    assert a1.pages == [PageInfo({}, false, 1)] && b1.pages == [PageInfo({}, false, 2)]
           && a2.pages == [PageInfo({}, false, 2)];
    var b2 := AfterRequest(b1, RequestOf(a1));
    assert b2.txSet == {0, 1, 2, 3, 4, 5, 6, 7};
    AllFour(b2, image);
    FourPackets(a2, 2, PageOf(image, 1, 0));
  }

  lemma AllFour(s: NodeState, image: Image)
    requires s.pages == [PageInfo({}, false, 2)] && 0 in s.file && s.file[0] == PageOf(image, 1, 0)
             && ALL_PACKETS <= s.txSet
    ensures PacketsFrom(s, 0, 0) == [Packet(2, 0, 0, true, image(1, 0, 0)), Packet(2, 0, 1, true, image(1, 0, 1)),
                                     Packet(2, 0, 2, true, image(1, 0, 2)), Packet(2, 0, 3, true, image(1, 0, 3))]
  {
    assert 0 in ALL_PACKETS && 1 in ALL_PACKETS && 2 in ALL_PACKETS && 3 in ALL_PACKETS;
    PacketsUnfold(s, 0, 0);
    PacketsUnfold(s, 0, 1);
    PacketsUnfold(s, 0, 2);
    PacketsUnfold(s, 0, 3);
    PacketsUnfold(s, 0, 4);
  }

  /** A profile sent during an update names the old version with the page versions of the new one: whoever follows it
      ends up claiming the old version with the data of the new one. */
  lemma UnsettledProfileMislabels(image: Image)
    ensures var sender := AfterProfile(Initial(1, [PageOf(image, 1, 0)]), Profile(2, [2]));
            var a := AfterProfile(Initial(0, [PageOf(image, 0, 0)]), ProfileOf(sender));
            && sender.version != sender.updateVersion && |a.pages| == 1 && a.rxPage == 0
            && var end := Received(a, 2, PageOf(image, 2, 0));
               end.version == end.updateVersion == 1 && end.pages[0].complete && end.file[0] == PageOf(image, 2, 0)
  {
    var sender := AfterProfile(Initial(1, [PageOf(image, 1, 0)]), Profile(2, [2]));
    assert sender.pages == [PageInfo({}, false, 2)];
    assert ProfileOf(sender) == Profile(1, [2]);
    var a := AfterProfile(Initial(0, [PageOf(image, 0, 0)]), Profile(1, [2]));
    assert a.pages == [PageInfo({}, false, 2)];
    FourPackets(a, 2, PageOf(image, 2, 0));
  }
}
