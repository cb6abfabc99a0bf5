/** Requests and their answers in dep/apps/deluge/deluge.c: what a node that has been asked sends, and that one exchange
    between two nodes hands over a page. */
module DelugeExchange {
  import opened Deluge
  import opened DelugeSafety

  /** A node after any requests. */
  function AfterRequests(s: NodeState, requests: seq<Request>): NodeState
    decreases |requests|
  {
    if requests == [] then s else AfterRequests(AfterRequest(s, requests[0]), requests[1..])
  }

  /** A request is followed if it names the node's version and a page that it has, or the first that is missing. */
  ghost predicate Followed(s: NodeState, m: Request) {
    m.version == s.version && m.page < |s.pages| && forall k :: 0 <= k < m.page ==> s.pages[k].complete
  }

  ghost predicate WantedBy(requests: seq<Request>, page: nat, num: nat) {
    exists i :: 0 <= i < |requests| && requests[i].page == page && num in requests[i].wanted
  }

  lemma FollowedIff(s: NodeState, m: Request)
    ensures Followed(s, m) <==> m.page < |s.pages| && m.version == s.version && m.page <= Highest(s.pages)
  {
  }

  /** Only the queue changes, and only by a request that is followed. */
  lemma RequestStep(s: NodeState, m: Request)
    ensures var t := AfterRequest(s, m);
            && t == s.(txPage := t.txPage, txSet := t.txSet)
            && (!Followed(s, m) ==> t == s)
            && (Followed(s, m) && m.page < 128 ==>
                  t.txPage == m.page && t.txSet == m.wanted + if s.txPage == m.page then s.txSet else {})
            && (Followed(s, m) && 128 <= m.page < 256 && s.txPage < 128 ==> t.txPage < 0)
  {
    FollowedIff(s, m);
    hide Highest;
  }

  /** A run of requests for one page: those that are followed are added up, to each other and to what is queued for the
      page already. */
  lemma {:induction false} RequestsAddUp(s: NodeState, requests: seq<Request>, page: nat)
    requires page < 128 && forall i :: 0 <= i < |requests| ==> requests[i].page == page && Followed(s, requests[i])
    ensures var t := AfterRequests(s, requests);
            && t == s.(txPage := t.txPage, txSet := t.txSet)
            && (requests != [] ==> t.txPage == page)
            && forall num :: num in t.txSet <==>
                 WantedBy(requests, page, num) || (num in s.txSet && (requests == [] || s.txPage == page))
    decreases |requests|
  {
    hide AfterRequest;
    if requests != [] {
      RequestStep(s, requests[0]);
      var u := AfterRequest(s, requests[0]);
      RequestsAddUp(u, requests[1..], page);
      forall num ensures WantedBy(requests, page, num) <==>
                           num in requests[0].wanted || WantedBy(requests[1..], page, num) {
        WantedFirst(requests, page, num);
      }
    }
  }

  lemma WantedFirst(requests: seq<Request>, page: nat, num: nat)
    requires requests != [] && requests[0].page == page
    ensures WantedBy(requests, page, num) <==> num in requests[0].wanted || WantedBy(requests[1..], page, num)
  {
    if WantedBy(requests[1..], page, num) {
      var i :| 0 <= i < |requests[1..]| && requests[1..][i].page == page && num in requests[1..][i].wanted;
      assert requests[i + 1] == requests[1..][i];
    }
    if WantedBy(requests, page, num) && num !in requests[0].wanted {
      var i :| 0 <= i < |requests| && requests[i].page == page && num in requests[i].wanted;
      assert requests[1..][i - 1] == requests[i];
    }
  }

  /** A packet of the page as stored, under the page's version, that has been asked for. */
  predicate AskedFor(m: Packet, s: NodeState, page: nat)
    requires page < |s.pages| && page in s.file && |s.file[page]| == N_PKT
  {
    m.num < 4 && m.num in s.txSet && m == Packet(s.pages[page].version, page, m.num, true, s.file[page][m.num])
  }

  /** What is sent of a page: each packet asked for, once, in ascending order. */
  ghost predicate Answers(sent: seq<Packet>, s: NodeState, page: nat)
    requires page < |s.pages| && page in s.file && |s.file[page]| == N_PKT
  {
    && (forall num :: 0 <= num < 4 && num in s.txSet ==> exists i :: 0 <= i < |sent| && sent[i].num == num)
    && (forall i :: 0 <= i < |sent| ==> AskedFor(sent[i], s, page))
    && (forall i, j :: 0 <= i < j < |sent| ==> sent[i].num < sent[j].num)
  }

  lemma {:induction false} SentAscending(s: NodeState, page: nat, from: nat)
    requires page < |s.pages| && page in s.file && |s.file[page]| == N_PKT
    ensures var sent := PacketsFrom(s, page, from);
            && (forall i :: 0 <= i < |sent| ==> AskedFor(sent[i], s, page) && sent[i].num >= from)
            && (forall i, j :: 0 <= i < j < |sent| ==> sent[i].num < sent[j].num)
    decreases N_PKT - from
  {
    hide PacketsFrom;
    PacketsUnfold(s, page, from);
    if from < N_PKT {
      SentAscending(s, page, from + 1);
      var sent, rest := PacketsFrom(s, page, from), PacketsFrom(s, page, from + 1);
      if from in s.txSet {
        forall i | 0 < i < |sent| ensures sent[i] == rest[i - 1] {
        }
      }
    }
  }

  lemma {:induction false} SentWhole(s: NodeState, page: nat, from: nat, num: nat) returns (i: nat)
    requires page < |s.pages| && page in s.file && |s.file[page]| == N_PKT
    requires from <= num < 4 && num in s.txSet
    ensures i < |PacketsFrom(s, page, from)| && PacketsFrom(s, page, from)[i].num == num
    decreases N_PKT - from
  {
    hide PacketsFrom;
    PacketsUnfold(s, page, from);
    if from == num {
      i := 0;
    } else {
      i := SentWhole(s, page, from + 1, num);
      i := if from in s.txSet then i + 1 else i;
    }
  }

  lemma SentAnswers(s: NodeState, page: nat)
    requires page < |s.pages| && page in s.file && |s.file[page]| == N_PKT
    ensures Answers(PacketsFrom(s, page, 0), s, page)
  {
    hide PacketsFrom, AskedFor;
    SentAscending(s, page, 0);
    var sent := PacketsFrom(s, page, 0);
    forall num | 0 <= num < 4 && num in s.txSet ensures exists i :: 0 <= i < |sent| && sent[i].num == num {
      var i := SentWhole(s, page, 0, num);
    }
  }

  /** All packets asked for in any number of requests for a page are sent, and only those. Afterwards nothing is queued.
      The page number is kept in eight bits with sign: requests for pages from 128 on are never answered. */
  lemma RequestsAreAnswered(s: NodeState, requests: seq<Request>, page: nat)
    requires requests != [] && forall i :: 0 <= i < |requests| ==> requests[i].page == page && Followed(s, requests[i])
    requires page < 256 && s.txPage < 128 && page in s.file && |s.file[page]| == N_PKT && s.txSet == {}
    ensures page < |s.pages|
    ensures var t := AfterRequests(s, requests);
            t == s.(txPage := t.txPage, txSet := t.txSet) && |s.file[page]| == N_PKT &&
            if page < 128 then
              && (Transmits(t) <==> exists num :: WantedBy(requests, page, num))
              && (Transmits(t) ==> t.txPage == page && Answers(PacketsFrom(t, page, 0), t, page))
              && (forall num :: num in t.txSet <==> WantedBy(requests, page, num))
              && (Transmits(t) ==> AfterTransmission(t) == t.(txPage := -1, txSet := {}))
              && !Transmits(AfterTransmission(t)) && AfterTransmission(t).txSet == {}
            else !Transmits(t)
  {
    assert Followed(s, requests[0]);
    hide PacketsFrom, Answers, AfterRequest, WantedBy, Followed;
    var t := AfterRequests(s, requests);
    if page < 128 {
      RequestsAddUp(s, requests, page);
      SentAnswers(t, page);
      assert t.txSet != {} <==> exists num :: num in t.txSet;
    } else {
      HighPages(s, requests, page);
    }
  }

  lemma {:induction false} HighPages(s: NodeState, requests: seq<Request>, page: nat)
    requires 128 <= page < 256 && s.txPage < 128
    requires forall i :: 0 <= i < |requests| ==> requests[i].page == page && Followed(s, requests[i])
    ensures var t := AfterRequests(s, requests); t == s.(txPage := t.txPage, txSet := t.txSet)
    ensures requests != [] ==> AfterRequests(s, requests).txPage < 0
    decreases |requests|
  {
    hide AfterRequest;
    if requests != [] {
      RequestStep(s, requests[0]);
      HighPages(AfterRequest(s, requests[0]), requests[1..], page);
    }
  }

  // ----- one exchange

  /** The packets are numbered as packets of the node's pages. */
  predicate Receivable(s: NodeState, m: Packet) {
    m.num < N_PKT == |s.currentPage| && (m.page == s.rxPage ==> m.page < |s.pages|)
  }

  /** A node after packets, as long as they are such. */
  function Receive(s: NodeState, packets: seq<Packet>): NodeState
    decreases |packets|
  {
    if packets == [] || !Receivable(s, packets[0]) then s else Receive(AfterPacket(s, packets[0]), packets[1..])
  }

  /** What a node transmits next. */
  function Transmitted(s: NodeState): seq<Packet> {
    if Transmits(s) && s.txPage < |s.pages| && s.txPage in s.file && |s.file[s.txPage]| == N_PKT then
      PacketsFrom(s, s.txPage, 0)
    else []
  }

  /** The page that a node is receiving is missing packets, all of which the other node has queued. */
  ghost predicate Lacks(r: NodeState, t: NodeState, page: nat, from: nat) {
    && r.rxPage == page < |r.pages| && !r.pages[page].complete && r.pages[page].packets < ALL_PACKETS
    && (forall k :: 0 <= k < from ==> k in r.pages[page].packets)
    && (forall k :: from <= k < 4 && k !in r.pages[page].packets ==> k in t.txSet)
  }

  lemma {:induction false} PageArrives(r: NodeState, t: NodeState, page: nat, from: nat, image: Image)
    requires Sound(r, image) && page < |t.pages| && t.pages[page].complete && Stored(t, image, page)
    requires |r.pages| > page && from <= 4 && Lacks(r, t, page, from) && r.pages[page].version == t.pages[page].version
    ensures page in t.file && |t.file[page]| == N_PKT
    ensures var u := Receive(r, PacketsFrom(t, page, from));
            && Sound(u, image) && |u.pages| == |r.pages| && u.rxPage == page + 1 && u.pages[page].complete
            && u.pages[page].version == t.pages[page].version
            && u.version == if page == |r.pages| - 1 then r.updateVersion else r.version
    decreases 4 - from
  {
    hide PacketsFrom, AfterPacket, Sound;
    SoundForm(r, image);
    SentGenuine(t, page, from, image);
    PacketsUnfold(t, page, from);
    var packets := PacketsFrom(t, page, from);
    if from == 4 {
      assert false;
    } else if from in t.txSet {
      var m := packets[0];
      assert packets[1..] == PacketsFrom(t, page, from + 1);
      OnePacket(r, m, image);
      var u := AfterPacket(r, m);
      if u.rxPage == page {
        PageArrives(u, t, page, from + 1, image);
      } else {
        SentGenuine(t, page, from + 1, image);
        OthersIgnored(u, packets[1..], page);
      }
    } else {
      PageArrives(r, t, page, from + 1, image);
    }
  }

  lemma OnePacket(r: NodeState, m: Packet, image: Image)
    requires Sound(r, image) && Genuine(m, image) && m.page == r.rxPage < |r.pages| && !r.pages[m.page].complete
    requires m.version == r.pages[m.page].version && r.pages[m.page].packets < ALL_PACKETS
    ensures var u := AfterPacket(r, m);
            && Sound(u, image) && |u.pages| == |r.pages| && u.updateVersion == r.updateVersion
            && |u.currentPage| == N_PKT && u.rxPage <= |u.pages| && u.pages[m.page].version == m.version
            && if r.pages[m.page].packets + {m.num} == ALL_PACKETS then
                 && u.rxPage == m.page + 1 && u.pages[m.page].complete
                 && u.version == if m.page == |r.pages| - 1 then r.updateVersion else r.version
               else
                 && u.rxPage == m.page && !u.pages[m.page].complete && u.version == r.version
                 && u.pages[m.page].packets == r.pages[m.page].packets + {m.num} < ALL_PACKETS
  {
    PacketKeepsSoundIff(r, m, image);
    hide Sound;
    SoundForm(r, image);
    assert m.num in ALL_PACKETS;
  }

  lemma SoundForm(r: NodeState, image: Image)
    requires Sound(r, image)
    ensures |r.currentPage| == N_PKT && r.rxPage <= |r.pages|
  {
  }

  lemma {:induction false} OthersIgnored(u: NodeState, packets: seq<Packet>, page: nat)
    requires |u.currentPage| == N_PKT && u.rxPage == page + 1 <= |u.pages|
    requires forall i :: 0 <= i < |packets| ==> packets[i].num < N_PKT && packets[i].page == page
    ensures Receive(u, packets) == u
    decreases |packets|
  {
    if packets != [] {
      OthersIgnored(u, packets[1..], page);
    }
  }

  /** One node lacks packets of the page it is receiving, and the other has that page in the version asked for. */
  ghost predicate CanHelp(r: NodeState, s: NodeState, image: Image) {
    && Sound(r, image) && Sound(s, image) && r.rxPage < |r.pages| && r.rxPage < 128
    && !r.pages[r.rxPage].complete
    && r.rxPage < |s.pages| && (forall k :: 0 <= k <= r.rxPage ==> s.pages[k].complete)
    && s.pages[r.rxPage].version == s.version == r.pages[r.rxPage].version
  }

  lemma LackingPage(r: NodeState, image: Image, page: nat)
    requires Sound(r, image) && page == r.rxPage < |r.pages| && !r.pages[page].complete
    ensures r.pages[page].packets < ALL_PACKETS
  {
    assert PageSound(r, image, page);
  }

  /** What the request puts into the queue. */
  lemma RequestQueued(r: NodeState, s: NodeState, image: Image)
    requires CanHelp(r, s, image)
    ensures var page, t := r.rxPage, AfterRequest(s, RequestOf(r));
            && t == s.(txPage := page, txSet := t.txSet) && Stored(t, image, page)
            && page in t.file && |t.file[page]| == N_PKT && Transmitted(t) == PacketsFrom(t, page, 0)
            && (forall k :: 0 <= k < 4 && k !in r.pages[page].packets ==> k in t.txSet)
            && (s.txPage != page ==> forall k :: 0 <= k < 4 && k in t.txSet ==> k !in r.pages[page].packets)
            && r.pages[page].packets < ALL_PACKETS
  {
    var page, m := r.rxPage, RequestOf(r);
    SoundPage(s, image, page);
    LackingPage(r, image, page);
    assert Followed(s, m);
    RequestStep(s, m);
    hide PacketsFrom, AfterRequest, Highest, Sound, PageSound, Followed;
    assert 7 in m.wanted;
    assert Transmits(AfterRequest(s, m));
  }

  /** A node asks for the page it is receiving, a node of that version that has the page answers, and every packet
      arrives: then the page is complete, with the data of its version, and receiving goes on behind it; with the last
      page the node has the version it was updating to. */
  lemma ExchangeHandsOverPage(r: NodeState, s: NodeState, image: Image)
    requires CanHelp(r, s, image)
    ensures var page, sent := r.rxPage, Transmitted(AfterRequest(s, RequestOf(r)));
            var u := Receive(r, sent);
            && Sound(u, image) && u.rxPage == page + 1 <= |u.pages| && u.pages[page].complete
            && page in u.file && u.file[page] == PageOf(image, s.version, page)
            && u.version == if page == |r.pages| - 1 then r.updateVersion else r.version
  {
    hide PacketsFrom, Receive, AfterRequest, AfterPacket, Highest, Transmitted, Sound;
    var page, t := r.rxPage, AfterRequest(s, RequestOf(r));
    RequestQueued(r, s, image);
    PageArrives(r, t, page, 0, image);
    SoundPage(Receive(r, PacketsFrom(t, page, 0)), image, page);
  }

  lemma SoundPage(u: NodeState, image: Image, page: nat)
    requires Sound(u, image) && page < |u.pages| && u.pages[page].complete
    ensures u.rxPage <= |u.pages| && Stored(u, image, page)
  {
    assert PageSound(u, image, page);
  }

  /** What is sent in answer to a node that lacks packets of a page is what it lacks, and nothing else. */
  lemma AnswerIsMissing(r: NodeState, s: NodeState, image: Image, num: nat)
    requires CanHelp(r, s, image) && s.txPage != r.rxPage
    ensures var sent := Transmitted(AfterRequest(s, RequestOf(r)));
            (exists i :: 0 <= i < |sent| && sent[i].num == num) <==> num < 4 && num !in r.pages[r.rxPage].packets
  {
    hide PacketsFrom, AfterRequest, Highest, Transmitted, Sound, Answers;
    var page, t := r.rxPage, AfterRequest(s, RequestOf(r));
    RequestQueued(r, s, image);
    SentAnswers(t, page);
    AnswersHave(PacketsFrom(t, page, 0), t, page, num);
  }

  lemma AnswersHave(sent: seq<Packet>, s: NodeState, page: nat, num: nat)
    requires page < |s.pages| && page in s.file && |s.file[page]| == N_PKT && Answers(sent, s, page)
    ensures (exists i :: 0 <= i < |sent| && sent[i].num == num) <==> num < 4 && num in s.txSet
  {
  }
}
