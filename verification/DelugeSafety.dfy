/** What the messages of dep/apps/deluge/deluge.c keep on one node, and when they do not. */
module DelugeSafety {
  import opened Deluge

  ghost predicate Stored(s: NodeState, image: Image, i: nat)
    requires i < |s.pages|
  {
    i in s.file && s.file[i] == PageOf(image, s.pages[i].version, i)
  }

  /** The set bits of page i mark packets that stand in the page buffer. */
  ghost predicate Collected(s: NodeState, image: Image, i: nat)
    requires i < |s.pages|
  {
    && s.pages[i].packets < ALL_PACKETS && |s.currentPage| == N_PKT
    && forall k :: k in s.pages[i].packets && k < N_PKT ==> s.currentPage[k] == image(s.pages[i].version, i, k)
  }

  /** Complete pages hold the image of their version; an incomplete page has packets only while it is being received. */
  ghost predicate PageSound(s: NodeState, image: Image, i: nat)
    requires i < |s.pages|
  {
    if s.pages[i].complete then Stored(s, image, i)
    else if i == s.rxPage then Collected(s, image, i)
    else s.pages[i].packets == {}
  }

  ghost predicate Sound(s: NodeState, image: Image) {
    && |s.currentPage| == N_PKT && s.rxPage <= |s.pages|
    && (forall i :: 0 <= i < s.rxPage ==> s.pages[i].complete)
    && (forall i :: 0 <= i < |s.pages| ==> PageSound(s, image, i))
  }

  /** A packet that carries the data it is labelled with. */
  ghost predicate Genuine(m: Packet, image: Image) {
    m.num < N_PKT && m.intact && m.payload == image(m.version, m.page, m.num)
  }

  lemma InitialSound(version: nat, file: seq<seq<Payload>>, image: Image)
    requires forall i :: 0 <= i < |file| ==> file[i] == PageOf(image, version, i)
    ensures Sound(Initial(version, file), image)
  {
    var s := Initial(version, file);
    forall i | 0 <= i < |s.pages| ensures PageSound(s, image, i) {
      assert s.pages[i].version == version && i in s.file && s.file[i] == file[i];
    }
  }

  // ----- packets

  /** The packet is ignored, or it does no harm: an intact one carries the data it is labelled with, a damaged one,
      which is written before its CRC is looked at, does not change a slot that has been collected. */
  ghost predicate Fits(s: NodeState, m: Packet, image: Image)
    requires m.num < N_PKT == |s.currentPage| && (m.page == s.rxPage ==> m.page < |s.pages|)
  {
    || m.page != s.rxPage || s.pages[m.page].complete || m.version != s.pages[m.page].version
    || if m.intact then m.payload == image(m.version, m.page, m.num)
       else m.num !in s.pages[m.page].packets || m.payload == s.currentPage[m.num]
  }

  lemma IntactPacketIff(s: NodeState, m: Packet, image: Image)
    requires Sound(s, image) && m.intact && m.num < N_PKT && (m.page == s.rxPage ==> m.page < |s.pages|)
    ensures Sound(AfterPacket(s, m), image) <==> Fits(s, m, image)
  {
    if m.page == s.rxPage && !s.pages[m.page].complete && m.version == s.pages[m.page].version {
      if m.payload == image(m.version, m.page, m.num) {
        RightPayload(s, m, image);
      } else {
        WrongPayload(s, m, image);
      }
    }
  }

  lemma RightPayload(s: NodeState, m: Packet, image: Image)
    requires Sound(s, image) && m.intact && m.num < N_PKT && m.page == s.rxPage < |s.pages|
    requires !s.pages[m.page].complete && m.version == s.pages[m.page].version
    requires m.payload == image(m.version, m.page, m.num)
    ensures Sound(AfterPacket(s, m), image)
  {
    var t := AfterPacket(s, m);
    assert PageSound(s, image, m.page);
    forall i | 0 <= i < |t.pages| ensures PageSound(t, image, i) {
      assert PageSound(s, image, i);
      if i == m.page && t.pages[i].complete {
        CompletedPage(s, m, image);
      }
    }
  }

  lemma WrongPayload(s: NodeState, m: Packet, image: Image)
    requires |s.currentPage| == N_PKT && m.intact && m.num < N_PKT && m.page == s.rxPage < |s.pages|
    requires !s.pages[m.page].complete && m.version == s.pages[m.page].version
    requires m.payload != image(m.version, m.page, m.num)
    ensures !Sound(AfterPacket(s, m), image)
  {
    var t := AfterPacket(s, m);
    assert t.currentPage[m.num] == m.payload && m.num in t.pages[m.page].packets;
    if t.pages[m.page].complete {
      assert t.file[m.page][m.num] == m.payload;
      PageAt(image, m.version, m.page, m.num);
      assert !Stored(t, image, m.page);
    } else {
      assert !Collected(t, image, m.page);
    }
    assert !PageSound(t, image, m.page);
  }

  lemma PageAt(image: Image, version: nat, page: nat, k: nat)
    requires k < N_PKT
    ensures PageOf(image, version, page)[k] == image(version, page, k)
  {
  }

  lemma CompletedPage(s: NodeState, m: Packet, image: Image)
    requires m.page < |s.pages| && m.num < N_PKT && |s.currentPage| == N_PKT && m.version == s.pages[m.page].version
    requires Collected(s, image, m.page) && m.payload == image(m.version, m.page, m.num)
    requires s.pages[m.page].packets + {m.num} == ALL_PACKETS
    ensures s.currentPage[m.num := m.payload] == PageOf(image, m.version, m.page)
  {
    var current := s.currentPage[m.num := m.payload];
    forall k | 0 <= k < N_PKT ensures current[k] == image(m.version, m.page, k) {
      assert k in ALL_PACKETS;
      if k != m.num {
        assert k in s.pages[m.page].packets;
      }
    }
  }

  lemma DamagedPacketIff(s: NodeState, m: Packet, image: Image)
    requires Sound(s, image) && m.num < N_PKT && !m.intact && (m.page == s.rxPage ==> m.page < |s.pages|)
    ensures Sound(AfterPacket(s, m), image) <==> Fits(s, m, image)
  {
    var t := AfterPacket(s, m);
    if m.page == s.rxPage && !s.pages[m.page].complete && m.version == s.pages[m.page].version {
      assert PageSound(s, image, m.page);
      if m.num in s.pages[m.page].packets && m.payload != s.currentPage[m.num] {
        assert t.currentPage[m.num] == m.payload != image(m.version, m.page, m.num);
        assert !PageSound(t, image, m.page);
      } else {
        forall i | 0 <= i < |t.pages| ensures PageSound(t, image, i) {
          assert PageSound(s, image, i);
        }
      }
    }
  }

  /** A packet, whenever and however often it comes, keeps the node sound exactly when it fits. */
  lemma PacketKeepsSoundIff(s: NodeState, m: Packet, image: Image)
    requires Sound(s, image) && m.num < N_PKT && (m.page == s.rxPage ==> m.page < |s.pages|)
    ensures Sound(AfterPacket(s, m), image) <==> Fits(s, m, image)
  {
    if m.intact {
      IntactPacketIff(s, m, image);
    } else {
      DamagedPacketIff(s, m, image);
    }
  }

  /** All pages below the one being received are complete. */
  ghost predicate Passed(s: NodeState) {
    s.rxPage <= |s.pages| && forall i :: 0 <= i < s.rxPage ==> s.pages[i].complete
  }

  /** Any packet leaves the pages that have been passed complete; it promotes the version only to the one the node is
      updating to, and only if every page is complete then. */
  lemma PacketPromotes(s: NodeState, m: Packet)
    requires Passed(s) && m.num < N_PKT == |s.currentPage| && (m.page == s.rxPage ==> m.page < |s.pages|)
    ensures Passed(AfterPacket(s, m))
    ensures var t := AfterPacket(s, m);
            t.version != s.version ==>
              t.version == s.updateVersion && forall i :: 0 <= i < |t.pages| ==> t.pages[i].complete
  {
  }

  // ----- profiles

  /** What has been collected of the page being received either stays with that page or is thrown away. */
  predicate KeepsPartialPage(s: NodeState, m: Profile) {
    || s.rxPage >= |s.pages| || s.pages[s.rxPage].complete || s.pages[s.rxPage].packets == {}
    || s.rxPage >= |m.vector| || m.vector[s.rxPage] > s.pages[s.rxPage].version
    || forall i :: 0 <= i < s.rxPage ==> m.vector[i] <= s.pages[i].version
  }

  /** A newer profile restarts exactly the pages whose version grows, with nothing collected, adds pages of version 0,
      and drops what is queued; receiving goes on at the first page that is missing. Any other profile changes
      nothing. */
  lemma ProfileRestarts(s: NodeState, m: Profile)
    ensures m.version <= s.updateVersion ==> AfterProfile(s, m) == s
    ensures m.version > s.updateVersion ==>
              var t := AfterProfile(s, m);
              && t == s.(pages := t.pages, rxPage := t.rxPage, txSet := {}, updateVersion := m.version)
              && |t.pages| == |m.vector| && t.rxPage <= |t.pages|
              && (forall i :: 0 <= i < |t.pages| && i < |s.pages| && m.vector[i] <= s.pages[i].version ==>
                    t.pages[i] == s.pages[i])
              && (forall i :: 0 <= i < |t.pages| && (i < |s.pages| ==> m.vector[i] > s.pages[i].version) ==>
                    !t.pages[i].complete && t.pages[i].packets == {}
                    && t.pages[i].version == if i < |s.pages| then m.vector[i] else 0)
              && (forall i :: 0 <= i < t.rxPage ==> t.pages[i].complete)
              && (t.rxPage < |t.pages| ==> !t.pages[t.rxPage].complete)
  {
  }

  lemma HighestIs(pages: seq<PageInfo>, k: nat)
    requires k < |pages| && !pages[k].complete && forall i :: 0 <= i < k ==> pages[i].complete
    ensures Highest(pages) == k
  {
  }

  /** All packets collected so far share one buffer: a profile keeps the node sound exactly when it does not make an
      earlier page the one to be received while leaving a partly received page as it is. */
  lemma ProfileKeepsSoundIff(s: NodeState, m: Profile, image: Image)
    requires Sound(s, image) && m.version > s.updateVersion
    ensures Sound(AfterProfile(s, m), image) <==> KeepsPartialPage(s, m)
  {
    var t := AfterProfile(s, m);
    var r := s.rxPage;
    if KeepsPartialPage(s, m) {
      forall i | 0 <= i < |t.pages| ensures PageSound(t, image, i) {
        if i < |s.pages| && m.vector[i] <= s.pages[i].version {
          assert t.pages[i] == s.pages[i] && PageSound(s, image, i);
          if i == r && !s.pages[r].complete && s.pages[r].packets != {} {
            HighestIs(t.pages, r);
          }
        }
      }
    } else {
      assert t.pages[r] == s.pages[r];
      var i :| 0 <= i < r && m.vector[i] > s.pages[i].version;
      assert !t.pages[i].complete;
      assert t.rxPage <= i;
      assert !PageSound(t, image, r);
    }
  }

  // ----- requests and transmissions

  /** What is queued for sending is a complete page. */
  ghost predicate Serving(s: NodeState) { Transmits(s) ==> s.txPage < |s.pages| && s.pages[s.txPage].complete }

  /** A request is answered although it names the first page that is missing here: then and only then an incomplete page
      may be queued. */
  predicate AsksForMissing(s: NodeState, m: Request) {
    m.page < |s.pages| && m.version == s.version && m.page == Highest(s.pages)
  }

  lemma RequestKeepsServing(s: NodeState, m: Request)
    requires Serving(s) && !AsksForMissing(s, m)
    ensures Serving(AfterRequest(s, m))
  {
  }

  lemma PacketKeepsServing(s: NodeState, m: Packet)
    requires Serving(s) && m.num < N_PKT == |s.currentPage| && (m.page == s.rxPage ==> m.page < |s.pages|)
    ensures Serving(AfterPacket(s, m))
  {
  }

  lemma ProfileKeepsServing(s: NodeState, m: Profile)
    requires Serving(s)
    ensures Serving(AfterProfile(s, m))
  {
  }

  /** A complete page is sent under its own label. */
  lemma {:induction false} SentGenuine(s: NodeState, page: nat, num: nat, image: Image)
    requires page < |s.pages| && s.pages[page].complete && Stored(s, image, page)
    ensures forall i :: 0 <= i < |PacketsFrom(s, page, num)| ==>
              var m := PacketsFrom(s, page, num)[i]; Genuine(m, image) && m.page == page
    decreases N_PKT - num
  {
    hide PacketsFrom;
    PacketsUnfold(s, page, num);
    if num < N_PKT {
      SentGenuine(s, page, num + 1, image);
      assert s.file[page][num] == image(s.pages[page].version, page, num);
    }
  }
}
