/** One Deluge node, dep/apps/deluge/deluge.c: how messages change its pages, and what every message keeps. */
module Deluge {
  import opened Bytes

  const N_PKT: nat := 4

  /** The S_PKT bytes of one packet. */
  type Payload = seq<byte>

  /** The data of every version: version, page, packet. */
  type Image = (nat, nat, nat) -> Payload

  datatype PageInfo = PageInfo(packets: set<nat>, complete: bool, version: nat)

  const ALL_PACKETS: set<nat> := {0, 1, 2, 3}

  /** struct deluge_object; file is what has been written to the stored file, page by page. */
  datatype NodeState = NodeState(version: nat, updateVersion: nat, pages: seq<PageInfo>, rxPage: nat, txPage: int,
                                 txSet: set<nat>, currentPage: seq<Payload>, file: map<nat, seq<Payload>>)

  /** intact: the CRC in the packet is that of the payload. */
  datatype Packet = Packet(version: nat, page: nat, num: nat, intact: bool, payload: Payload)
  datatype Request = Request(version: nat, page: nat, wanted: set<nat>)
  datatype Profile = Profile(version: nat, vector: seq<nat>)

  function PageOf(image: Image, version: nat, page: nat): seq<Payload> {
    [image(version, page, 0), image(version, page, 1), image(version, page, 2), image(version, page, 3)]
  }

  // ----- what a message does, as functions

  /** highest_available_page: the first page that is not complete. */
  function Highest(pages: seq<PageInfo>): (i: nat)
    ensures i <= |pages| && (forall k :: 0 <= k < i ==> pages[k].complete) && (i < |pages| ==> !pages[i].complete)
  {
    if pages == [] || !pages[0].complete then 0 else 1 + Highest(pages[1..])
  }

  function AfterPacket(s: NodeState, m: Packet): NodeState
    requires m.num < N_PKT == |s.currentPage| && (m.page == s.rxPage ==> m.page < |s.pages|)
  {
    if m.page != s.rxPage then s else
    var info := s.pages[m.page];
    if m.version != info.version || info.complete then s else
    var current := s.currentPage[m.num := m.payload];
    if !m.intact then s.(currentPage := current) else
    var packets := info.packets + {m.num};
    if packets != ALL_PACKETS then s.(currentPage := current, pages := s.pages[m.page := info.(packets := packets)])
    else
      s.(currentPage := current, pages := s.pages[m.page := PageInfo(packets, true, m.version)],
         file := s.file[m.page := current], rxPage := s.rxPage + 1,
         version := if m.page == |s.pages| - 1 then s.updateVersion else s.version)
  }

  /** One page under a profile. */
  function Renewed(pages: seq<PageInfo>, vector: seq<nat>, i: nat): PageInfo
    requires i < |vector|
  {
    if i >= |pages| then PageInfo({}, false, 0)
    else if vector[i] > pages[i].version then PageInfo({}, false, vector[i])
    else pages[i]
  }

  function RenewedPages(pages: seq<PageInfo>, vector: seq<nat>): (r: seq<PageInfo>)
    ensures |r| == |vector|
  {
    seq(|vector|, i requires 0 <= i < |vector| => Renewed(pages, vector, i))
  }

  function AfterProfile(s: NodeState, m: Profile): NodeState {
    if m.version <= s.updateVersion then s
    else
      var pages := RenewedPages(s.pages, m.vector);
      s.(txSet := {}, pages := pages, rxPage := Highest(pages), updateVersion := m.version)
  }

  /** int8_t current_tx_page. */
  function Int8(page: nat): int { if page % 256 < 128 then page % 256 else page % 256 - 256 }

  function AfterRequest(s: NodeState, m: Request): NodeState {
    if m.page >= |s.pages| || m.version != s.version || m.page > Highest(s.pages) then s
    else if m.page == s.txPage then s.(txSet := s.txSet + m.wanted)
    else s.(txPage := Int8(m.page), txSet := m.wanted)
  }

  /** The packets that send_page broadcasts from packet number num on. */
  function PacketsFrom(s: NodeState, page: nat, num: nat): seq<Packet>
    requires page < |s.pages| && page in s.file && |s.file[page]| == N_PKT
    decreases N_PKT - num
  {
    if num >= N_PKT then []
    else
      (if num in s.txSet then [Packet(s.pages[page].version, page, num, true, s.file[page][num])] else [])
      + PacketsFrom(s, page, num + 1)
  }

  /** Whether tx_callback has something to send. */
  predicate Transmits(s: NodeState) { s.txPage >= 0 && s.txSet != {} }

  function AfterTransmission(s: NodeState): NodeState { if Transmits(s) then s.(txSet := {}, txPage := -1) else s }

  function RequestOf(s: NodeState): Request
    requires s.rxPage < |s.pages|
  {
    Request(s.pages[s.rxPage].version, s.rxPage, {0, 1, 2, 3, 4, 5, 6, 7} - s.pages[s.rxPage].packets)
  }

  function ProfileOf(s: NodeState): Profile {
    Profile(s.version, seq(|s.pages|, i requires 0 <= i < |s.pages| => s.pages[i].version))
  }

  // ----- the node

  class Node {
    var version: nat
    var updateVersion: nat
    var pages: seq<PageInfo>
    var rxPage: nat
    var txPage: int
    var txSet: set<nat>
    var currentPage: seq<Payload>
    var file: map<nat, seq<Payload>>

    ghost function State(): NodeState
      reads this
    {
      NodeState(version, updateVersion, pages, rxPage, txPage, txSet, currentPage, file)
    }

    /** init_object: all pages of the file are there. */
    constructor (version: nat, file: seq<seq<Payload>>)
      ensures State() == Initial(version, file)
    {
      this.version, updateVersion, rxPage, txPage, txSet := version, version, 0, 0, {};
      pages := seq(|file|, _ => PageInfo(ALL_PACKETS, true, version));
      currentPage := [[], [], [], []];
      this.file := map i | 0 <= i < |file| :: file[i];
    }

    method HighestAvailablePage() returns (i: nat)
      ensures i == Highest(pages)
    {
      i := 0;
      assert pages[0..] == pages;
      while i < |pages|
        invariant i <= |pages| && Highest(pages) == i + Highest(pages[i..])
      {
        assert pages[i..][1..] == pages[i + 1..];
        if !pages[i].complete {
          break;
        }
        i := i + 1;
      }
    }

    /** handle_packet. */
    method HandlePacket(m: Packet)
      requires m.num < N_PKT == |currentPage| && (m.page == rxPage ==> m.page < |pages|)
      modifies this
      ensures State() == AfterPacket(old(State()), m)
    {
      if m.page != rxPage {
        return;
      }
      if m.version == pages[m.page].version && !pages[m.page].complete {
        currentPage := currentPage[m.num := m.payload];
        if !m.intact {
          return;
        }
        pages := pages[m.page := pages[m.page].(packets := pages[m.page].packets + {m.num})];
        if pages[m.page].packets == ALL_PACKETS {
          file := file[m.page := currentPage];
          pages := pages[m.page := pages[m.page].(version := m.version, complete := true)];
          rxPage := rxPage + 1;
          if m.page == |pages| - 1 {
            version := updateVersion;
          }
        }
      }
    }

    /** handle_profile. */
    method HandleProfile(m: Profile)
      modifies this
      ensures State() == AfterProfile(old(State()), m)
    {
      if m.version <= updateVersion {
        return;
      }
      txSet := {};
      ghost var before := pages;
      var npages := if |m.vector| < |pages| then |m.vector| else |pages|;
      pages := pages[..npages];
      var i := 0;
      while i < npages
        invariant i <= npages == |pages|
        invariant forall k :: 0 <= k < i ==> pages[k] == Renewed(before, m.vector, k)
        invariant forall k :: i <= k < npages ==> pages[k] == before[k]
        invariant State() == old(State()).(txSet := {}, pages := pages)
      {
        if m.vector[i] > pages[i].version {
          pages := pages[i := PageInfo({}, false, m.vector[i])];
        }
        i := i + 1;
      }
      while i < |m.vector|
        invariant npages <= i == |pages| <= |m.vector|
        invariant forall k :: 0 <= k < i ==> pages[k] == Renewed(before, m.vector, k)
        invariant State() == old(State()).(txSet := {}, pages := pages)
      {
        pages := pages + [PageInfo({}, false, 0)];
        i := i + 1;
      }
      assert pages == RenewedPages(before, m.vector);
      rxPage := HighestAvailablePage();
      updateVersion := m.version;
    }

    /** handle_request. */
    method HandleRequest(m: Request)
      modifies this
      ensures State() == AfterRequest(old(State()), m)
    {
      if m.page >= |pages| {
        return;
      }
      var highest := HighestAvailablePage();
      if m.version == version && m.page <= highest {
        if m.page == txPage {
          txSet := txSet + m.wanted;
        } else {
          txPage := Int8(m.page);
          txSet := m.wanted;
        }
      }
    }

    /** tx_callback with send_page; the page to be sent is in the file. */
    method Transmit() returns (sent: seq<Packet>)
      requires Transmits(State()) ==> txPage < |pages| && txPage in file && |file[txPage]| == N_PKT
      modifies this
      ensures State() == AfterTransmission(old(State()))
      ensures sent == if Transmits(old(State())) then PacketsFrom(old(State()), old(txPage), 0) else []
    {
      sent := [];
      if txPage >= 0 && txSet != {} {
        sent := SendPage(txPage);
        txSet, txPage := {}, -1;
      }
    }

    /** send_page. */
    method SendPage(page: nat) returns (sent: seq<Packet>)
      requires page < |pages| && page in file && |file[page]| == N_PKT
      ensures sent == PacketsFrom(State(), page, 0)
    {
      hide PacketsFrom;
      sent := [];
      assert [] + PacketsFrom(State(), page, 0) == PacketsFrom(State(), page, 0);
      var num := 0;
      while num < N_PKT
        invariant num <= N_PKT && sent + PacketsFrom(State(), page, num) == PacketsFrom(State(), page, 0)
      {
        ghost var rest := PacketsFrom(State(), page, num + 1);
        PacketsUnfold(State(), page, num);
        if num in txSet {
          var packet := Packet(pages[page].version, page, num, true, file[page][num]);
          assert sent + ([packet] + rest) == sent + [packet] + rest;
          sent := sent + [packet];
        }
        num := num + 1;
      }
      PacketsUnfold(State(), page, num);
      assert sent + [] == sent;
    }
  }

  lemma PacketsUnfold(s: NodeState, page: nat, num: nat)
    requires page < |s.pages| && page in s.file && |s.file[page]| == N_PKT
    ensures num >= N_PKT ==> PacketsFrom(s, page, num) == []
    ensures num < N_PKT ==>
              PacketsFrom(s, page, num) ==
              if num in s.txSet then [Packet(s.pages[page].version, page, num, true, s.file[page][num])] +
                PacketsFrom(s, page, num + 1)
              else PacketsFrom(s, page, num + 1)
  {
  }

  function Initial(version: nat, file: seq<seq<Payload>>): NodeState {
    NodeState(version, version, seq(|file|, _ => PageInfo(ALL_PACKETS, true, version)), 0, 0, {}, [[], [], [], []],
              map i | 0 <= i < |file| :: file[i])
  }
}
