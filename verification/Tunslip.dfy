/** dep/tools/tunslip.c: checking IP packets, filling in the IP id, and the DHCP replies that are put together here. */
module Tunslip {
  import opened Bytes
  import opened Checksum

  /** check_ip: Dropped(n) is the return value -n. OutOfBuffer: a length in the header leads behind the buffer. */
  datatype Verdict = Passed | Dropped(code: nat) | OutOfBuffer

  // offsets in struct ip
  const LEN_AT: nat := 2
  const ID_AT: nat := 4
  const OFF_AT: nat := 6
  const PROTO_AT: nat := 9
  const SUM_AT: nat := 10
  const SRC_AT: nat := 12
  const UDP_AT: nat := 20
  const UDP_SUM_AT: nat := 26

  const TCP: nat := 6
  const UDP: nat := 17
  const ICMP: nat := 1

  /** Room for the longest IP header. */
  const MIN_BUFFER: nat := 60

  function HeaderLength(buf: seq<byte>): nat
    requires |buf| >= MIN_BUFFER
  {
    4 * (buf[0] as int % 16)
  }

  /** u_int16_t tcp_len = ip_len - ip_hl. */
  function DataLength(buf: seq<byte>, len: Half): Half
    requires |buf| >= MIN_BUFFER
  {
    if HeaderLength(buf) <= len then len - HeaderLength(buf) else len - HeaderLength(buf) + 0x1_0000
  }

  /** u_int16_t sum = ip_p + tcp_len, without a carry. */
  function PseudoStart(proto: byte, n: Half): Half {
    if proto as int + n < 0x1_0000 then proto as int + n else proto as int + n - 0x1_0000
  }

  function Addresses(buf: seq<byte>): seq<byte>
    requires |buf| >= MIN_BUFFER
  {
    buf[SRC_AT..SRC_AT + 8]
  }

  function HeaderSum(buf: seq<byte>): Half
    requires |buf| >= MIN_BUFFER
  {
    Sum(0, buf[..HeaderLength(buf)])
  }

  /** The checksum of what follows the header, with the pseudo header for TCP and UDP. */
  function DataSum(buf: seq<byte>, n: Half): Half
    requires |buf| >= MIN_BUFFER && HeaderLength(buf) + n <= |buf|
  {
    var data := buf[HeaderLength(buf)..HeaderLength(buf) + n];
    var proto := buf[PROTO_AT] as int;
    if proto == ICMP then Sum(0, data) else Sum(Sum(PseudoStart(buf[PROTO_AT], n), Addresses(buf)), data)
  }

  function Check(buf: seq<byte>, len: nat): Verdict
    requires |buf| >= MIN_BUFFER
  {
    if buf[0] as int / 16 != 4 then Dropped(1)
    else if Word(buf, LEN_AT) > len then Dropped(2)
    else if Word(buf, LEN_AT) < len then Dropped(3)
    else if !Correct(HeaderSum(buf)) then Dropped(4)
    else
      var proto, n := buf[PROTO_AT] as int, DataLength(buf, len);
      if proto != TCP && proto != UDP && proto != ICMP then Passed
      else if HeaderLength(buf) + n > |buf| then OutOfBuffer
      else if Correct(DataSum(buf, n)) then Passed
      else if proto == TCP then Dropped(5)
      else if proto == ICMP then Dropped(7)
      else if Word(buf, UDP_SUM_AT) != 0 then Dropped(6)
      else Passed
  }

  /** check_ip. */
  method CheckIp(buf: array<byte>, len: nat) returns (verdict: Verdict)
    requires buf.Length >= MIN_BUFFER
    ensures verdict == Check(buf[..], len)
  {
    hide Sum, Word, Correct, HeaderLength, DataLength, DataSum;
    var bytes := buf[..];
    if buf[0] as int / 16 != 4 {
      return Dropped(1);
    }
    var total := ReadWord(buf, LEN_AT);
    if total > len {
      return Dropped(2);
    }
    if total < len {
      return Dropped(3);
    }
    var hl := ReadHeaderLength(buf);
    assert bytes[..hl] == buf[..hl];
    var sum := Ip4sum(0, buf[..hl]);
    var correct := IsCorrect(sum);
    if !correct {
      return Dropped(4);
    }
    var proto := buf[PROTO_AT] as int;
    if proto == TCP || proto == UDP || proto == ICMP {
      var n := DataLength(bytes, len);
      if hl + n > buf.Length {
        return OutOfBuffer;
      }
      sum := SumData(buf, hl, n);
      correct := IsCorrect(sum);
      if !correct {
        if proto == TCP {
          return Dropped(5);
        } else if proto == ICMP {
          return Dropped(7);
        }
        var udpSum := ReadWord(buf, UDP_SUM_AT);
        if udpSum != 0 {
          return Dropped(6);
        }
      }
    }
    verdict := Passed;
  }

  method ReadWord(buf: array<byte>, at: nat) returns (w: Half)
    requires at + 1 < buf.Length
    ensures w == Word(buf[..], at)
  {
    w := 256 * (buf[at] as int) + buf[at + 1] as int;
  }

  method ReadHeaderLength(buf: array<byte>) returns (hl: nat)
    requires buf.Length >= MIN_BUFFER
    ensures hl == HeaderLength(buf[..]) <= buf.Length
  {
    hl := 4 * (buf[0] as int % 16);
  }

  method IsCorrect(sum: Half) returns (correct: bool)
    ensures correct == Correct(sum)
  {
    correct := sum == 0xFFFF || sum == 0;
  }

  /** The pseudo header, then the header and data of the protocol. */
  method SumData(buf: array<byte>, hl: nat, n: Half) returns (sum: Half)
    requires buf.Length >= MIN_BUFFER && hl == HeaderLength(buf[..]) && hl + n <= buf.Length
    ensures sum == DataSum(buf[..], n)
  {
    hide Sum, HeaderLength;
    assert buf[..][hl..hl + n] == buf[hl..hl + n] && buf[..][SRC_AT..SRC_AT + 8] == buf[SRC_AT..SRC_AT + 8];
    sum := 0;
    if buf[PROTO_AT] as int != ICMP {
      sum := Ip4sum(PseudoStart(buf[PROTO_AT], n), buf[SRC_AT..SRC_AT + 8]);
    }
    sum := Ip4sum(sum, buf[hl..hl + n]);
  }

  // ----- what the verdicts say about the packet

  /** The length that the data behind the header has, in 16 bits. */
  function Behind(buf: seq<byte>, len: nat): int
    requires |buf| >= MIN_BUFFER
  {
    var n := len - 4 * (buf[0] as int % 16);
    if n < 0 then n + 0x1_0000 else n
  }

  function LengthField(buf: seq<byte>): int
    requires |buf| >= MIN_BUFFER
  {
    256 * (buf[2] as int) + buf[3] as int
  }

  /** Version 4, a length field that is the length, and header words that add up to 0 modulo 65535. */
  ghost predicate HeaderRight(buf: seq<byte>, len: nat)
    requires |buf| >= MIN_BUFFER
  {
    buf[0] as int / 16 == 4 && LengthField(buf) == len && Congruent(Total(buf[..4 * (buf[0] as int % 16)]), 0)
  }

  /** One of the three protocols whose data is summed. */
  predicate Summed(buf: seq<byte>)
    requires |buf| >= MIN_BUFFER
  {
    buf[9] == 6 || buf[9] == 17 || buf[9] == 1
  }

  predicate DataInside(buf: seq<byte>, len: nat)
    requires |buf| >= MIN_BUFFER
  {
    0 <= Behind(buf, len) && 4 * (buf[0] as int % 16) + Behind(buf, len) <= |buf|
  }

  /** The words behind the header and those of the pseudo header add up to 0 modulo 65535. */
  ghost predicate DataRight(buf: seq<byte>, len: nat)
    requires |buf| >= MIN_BUFFER && DataInside(buf, len) && len < 0x1_0000
  {
    var hl, n := 4 * (buf[0] as int % 16), Behind(buf, len);
    Congruent(DataStart(buf, n) + Total(buf[hl..hl + n]), 0)
  }

  lemma HeaderRightIff(buf: seq<byte>, len: nat)
    requires |buf| >= MIN_BUFFER
    ensures HeaderRight(buf, len) <==>
              buf[0] as int / 16 == 4 && Word(buf, LEN_AT) == len && Correct(HeaderSum(buf))
    ensures Word(buf, LEN_AT) == LengthField(buf)
  {
    HeaderSumIff(buf);
    hide Congruent, Total, Correct, HeaderSum;
    assert buf[0..HeaderLength(buf)] == buf[..4 * (buf[0] as int % 16)];
  }

  lemma DataRightIff(buf: seq<byte>, len: nat)
    requires |buf| >= MIN_BUFFER && len < 0x1_0000
    ensures Behind(buf, len) == DataLength(buf, len) && HeaderLength(buf) == 4 * (buf[0] as int % 16)
    ensures DataInside(buf, len) <==> HeaderLength(buf) + DataLength(buf, len) <= |buf|
    ensures DataInside(buf, len) ==> (DataRight(buf, len) <==> Correct(DataSum(buf, DataLength(buf, len))))
  {
    hide Congruent, Total, Correct, DataSum, DataStart;
    if DataInside(buf, len) {
      DataSumIff(buf, DataLength(buf, len));
    }
  }

  /** A packet passes exactly when its version, its length and the sums that are checked are right; each other verdict
      names the first of them that is not. A UDP packet without checksum passes whatever its data is. */
  lemma CheckIff(buf: seq<byte>, len: nat)
    requires |buf| >= MIN_BUFFER
    ensures Check(buf, len) == Passed <==>
            HeaderRight(buf, len) &&
            (Summed(buf) ==> DataInside(buf, len) && (DataChecked(buf) ==> DataRight(buf, len)))
    ensures Check(buf, len) == OutOfBuffer <==> HeaderRight(buf, len) && Summed(buf) && !DataInside(buf, len)
  {
    hide Total, Congruent, HeaderSum, DataSum, Correct, HeaderLength, DataLength, HeaderRight, DataRight, DataInside,
      DataChecked, Word, Behind;
    DataCheckedIff(buf);
    HeaderRightIff(buf, len);
    if Word(buf, LEN_AT) == len {
      DataRightIff(buf, len);
    }
  }

  lemma HeaderDroppedIff(buf: seq<byte>, len: nat)
    requires |buf| >= MIN_BUFFER
    ensures Check(buf, len) == Dropped(1) <==> buf[0] as int / 16 != 4
    ensures Check(buf, len) == Dropped(2) <==> buf[0] as int / 16 == 4 && LengthField(buf) > len
    ensures Check(buf, len) == Dropped(3) <==> buf[0] as int / 16 == 4 && LengthField(buf) < len
    ensures Check(buf, len) == Dropped(4) <==>
            buf[0] as int / 16 == 4 && LengthField(buf) == len && !HeaderRight(buf, len)
  {
    hide Total, Congruent, HeaderSum, DataSum, Correct, HeaderLength, DataLength, HeaderRight, Word;
    HeaderRightIff(buf, len);
  }

  lemma DataDroppedIff(buf: seq<byte>, len: nat)
    requires |buf| >= MIN_BUFFER
    ensures HeaderRight(buf, len) ==> len < 0x1_0000
    ensures var wrong := HeaderRight(buf, len) && DataInside(buf, len) && !DataRight(buf, len);
            && (Check(buf, len) == Dropped(5) <==> wrong && buf[9] == 6)
            && (Check(buf, len) == Dropped(6) <==> wrong && buf[9] == 17 && DataChecked(buf))
            && (Check(buf, len) == Dropped(7) <==> wrong && buf[9] == 1)
  {
    hide Total, Congruent, HeaderSum, DataSum, Correct, HeaderLength, DataLength, HeaderRight, DataRight, DataInside,
      DataChecked, Word, Behind;
    DataCheckedIff(buf);
    HeaderRightIff(buf, len);
    if Word(buf, LEN_AT) == len {
      DataRightIff(buf, len);
    }
  }

  // ----- filling in the IP id

  /** The checksum field after the complement of the id has been added to it in host byte order. */
  function NewSum(sum: Half, id: Half, little: bool): Half {
    Host(Add(Host(sum, little), Complement(Host(id, little))), little)
  }

  function Rewritten(buf: seq<byte>, id: Half, little: bool): (r: seq<byte>)
    requires |buf| >= MIN_BUFFER
    ensures |r| == |buf|
  {
    SetWord(SetWord(buf, ID_AT, id), SUM_AT, NewSum(Word(buf, SUM_AT), id, little))
  }

  lemma RewrittenFields(buf: seq<byte>, id: Half, little: bool)
    requires |buf| >= MIN_BUFFER
    ensures var r := Rewritten(buf, id, little);
            && |r| == |buf| && r[0] == buf[0] && r[PROTO_AT] == buf[PROTO_AT] && Word(r, LEN_AT) == Word(buf, LEN_AT)
            && Word(r, UDP_SUM_AT) == Word(buf, UDP_SUM_AT)
            && HeaderLength(r) == HeaderLength(buf) && Addresses(r) == Addresses(buf)
            && forall len: Half :: DataLength(r, len) == DataLength(buf, len)
  {
    hide NewSum;
    var w := NewSum(Word(buf, SUM_AT), id, little);
    var r := Rewritten(buf, id, little);
    OtherBytes(buf, ID_AT, id);
    OtherBytes(SetWord(buf, ID_AT, id), SUM_AT, w);
    hide SetWord;
    assert r[SRC_AT..SRC_AT + 8] == buf[SRC_AT..SRC_AT + 8];
  }

  lemma OtherBytes(p: seq<byte>, i: nat, w: Half)
    requires i + 1 < |p|
    ensures forall k :: 0 <= k < |p| && k != i && k != i + 1 ==> SetWord(p, i, w)[k] == p[k]
  {
  }

  /** How the sum of the words of a part of the packet changes with the word at i: a part that ends in the middle of the
      word has only its high byte. */
  function WordDelta(i: nat, a: nat, b: nat, before: Half, after: Half): int {
    if a <= i && i + 2 <= b then after - before
    else if a <= i < b then 256 * (after / 256 - before / 256)
    else 0
  }

  lemma WordInside(i: nat, a: nat, b: nat, before: Half, after: Half)
    requires a <= i && i + 2 <= b
    ensures WordDelta(i, a, b, before, after) == after - before
  {
  }

  /** The change of a checksummed part: by the id, and by what replaces the header checksum. */
  function Delta(buf: seq<byte>, id: Half, little: bool, a: nat, b: nat): int
    requires |buf| >= MIN_BUFFER
  {
    var c := Word(buf, SUM_AT);
    WordDelta(ID_AT, a, b, 0, id) + WordDelta(SUM_AT, a, b, c, NewSum(c, id, little))
  }

  lemma PartTotal(buf: seq<byte>, id: Half, little: bool, a: nat, b: nat)
    requires |buf| >= MIN_BUFFER && Word(buf, ID_AT) == 0 && a % 2 == 0 && a <= b <= |buf|
    ensures Total(Rewritten(buf, id, little)[a..b]) == Total(buf[a..b]) + Delta(buf, id, little, a, b)
  {
    var c := Word(buf, SUM_AT);
    var w := NewSum(c, id, little);
    hide NewSum, Total, WordDelta;
    var s := SetWord(buf, ID_AT, id);
    PartSet(buf, ID_AT, id, a, b);
    PartSet(s, SUM_AT, w, a, b);
    assert Word(s, SUM_AT) == c;
  }

  lemma PartSet(p: seq<byte>, i: nat, w: Half, a: nat, b: nat)
    requires i % 2 == 0 && i + 1 < |p| && a % 2 == 0 && a <= b <= |p|
    ensures Total(SetWord(p, i, w)[a..b]) == Total(p[a..b]) + WordDelta(i, a, b, Word(p, i), w)
  {
    hide Total;
    if a <= i && i + 2 <= b {
      assert SetWord(p, i, w)[a..b] == SetWord(p[a..b], i - a, w);
      assert Word(p[a..b], i - a) == Word(p, i);
      TotalSet(p[a..b], i - a, w);
    } else if a <= i < b {
      var high := (w / 256) as byte;
      assert SetWord(p, i, w)[a..b] == p[a..b][i - a := high];
      TotalSetLast(p[a..b], high);
    } else {
      assert SetWord(p, i, w)[a..b] == p[a..b];
    }
  }

  lemma CongruentAfter(x: int, t: int, d: int)
    requires Congruent(x + t, 0)
    ensures Congruent(x + (t + d), 0) <==> Congruent(d, 0)
  {
    hide Congruent;
    CongruentIff(x + t, 0);
    CongruentIff(x + (t + d), 0);
    CongruentIff(d, 0);
    assert x + (t + d) == (x + t) + d;
  }

  /** A correct part stays correct exactly when its sum changes by a multiple of 65535. */
  lemma PartKeptIff(buf: seq<byte>, id: Half, little: bool, a: nat, b: nat, x: nat)
    requires |buf| >= MIN_BUFFER && Word(buf, ID_AT) == 0 && a % 2 == 0 && a <= b <= |buf|
    requires Congruent(x + Total(buf[a..b]), 0)
    ensures Congruent(x + Total(Rewritten(buf, id, little)[a..b]), 0) <==> Congruent(Delta(buf, id, little, a, b), 0)
  {
    hide *;
    PartTotal(buf, id, little, a, b);
    CongruentAfter(x, Total(buf[a..b]), Delta(buf, id, little, a, b));
  }

  lemma Offsets()
    ensures SUM_AT == 10 && ID_AT == 4 && MIN_BUFFER == 60 && UDP_AT == 20 && UDP_SUM_AT == 26
  {
  }

  lemma NewSumCongruent(c: Half, id: Half, little: bool)
    ensures Congruent(NewSum(c, id, little) + id, c)
  {
    AddComplement(c, id, little);
    hide Host, Add, Congruent;
  }

  /** The one header length that separates the two fields. */
  predicate SplitsHeader(buf: seq<byte>)
    requires |buf| >= MIN_BUFFER
  {
    HeaderLength(buf) == 8
  }

  lemma HeaderLengths(buf: seq<byte>)
    requires |buf| >= MIN_BUFFER
    ensures var hl := HeaderLength(buf);
            && hl <= |buf| && hl % 2 == 0 && (SplitsHeader(buf) <==> hl == 8)
            && (!SplitsHeader(buf) ==> hl <= 4 || hl >= 12)
  {
  }

  lemma HeaderKeptIff(buf: seq<byte>, id: Half, little: bool)
    requires |buf| >= MIN_BUFFER && Word(buf, ID_AT) == 0 && Correct(HeaderSum(buf))
    ensures Correct(HeaderSum(Rewritten(buf, id, little))) <==>
              Congruent(Delta(buf, id, little, 0, HeaderLength(buf)), 0)
  {
    hide *;
    var r := Rewritten(buf, id, little);
    RewrittenFields(buf, id, little);
    HeaderLengths(buf);
    HeaderSumIff(buf);
    HeaderSumIff(r);
    PartKeptIff(buf, id, little, 0, HeaderLength(buf), 0);
  }

  lemma HeaderSumIff(buf: seq<byte>)
    requires |buf| >= MIN_BUFFER
    ensures HeaderLength(buf) <= |buf|
            && (Correct(HeaderSum(buf)) <==> Congruent(0 + Total(buf[0..HeaderLength(buf)]), 0))
  {
    hide Sum, Total, Congruent;
    var hl := HeaderLength(buf);
    assert buf[0..hl] == buf[..hl];
    CorrectIff(0, buf[..hl]);
  }

  /** What the checksum behind the header starts from: the protocol and the length, in 16 bits, and the addresses. */
  function DataStart(buf: seq<byte>, n: Half): nat
    requires |buf| >= MIN_BUFFER
  {
    var sum := buf[9] as int + n;
    if buf[9] == 1 then 0 else (if sum < 0x1_0000 then sum else sum - 0x1_0000) + Total(buf[12..20])
  }

  lemma DataSumIff(buf: seq<byte>, n: Half)
    requires |buf| >= MIN_BUFFER && HeaderLength(buf) + n <= |buf|
    ensures Correct(DataSum(buf, n)) <==>
              Congruent(DataStart(buf, n) + Total(buf[HeaderLength(buf)..HeaderLength(buf) + n]), 0)
  {
    hide Sum, Total, Congruent, HeaderLength, Correct;
    var hl := HeaderLength(buf);
    var data := buf[hl..hl + n];
    if buf[PROTO_AT] as int == ICMP {
      CorrectIff(0, data);
    } else {
      CorrectTwoIff(PseudoStart(buf[PROTO_AT], n), Addresses(buf), data);
    }
  }

  lemma DataKeptIff(buf: seq<byte>, id: Half, little: bool, n: Half)
    requires |buf| >= MIN_BUFFER && Word(buf, ID_AT) == 0 && HeaderLength(buf) + n <= |buf| && Correct(DataSum(buf, n))
    ensures HeaderLength(Rewritten(buf, id, little)) == HeaderLength(buf)
    ensures Correct(DataSum(Rewritten(buf, id, little), n)) <==>
            Congruent(Delta(buf, id, little, HeaderLength(buf), HeaderLength(buf) + n), 0)
  {
    hide *;
    var hl, r := HeaderLength(buf), Rewritten(buf, id, little);
    RewrittenFields(buf, id, little);
    HeaderLengths(buf);
    DataSumIff(buf, n);
    DataSumIff(r, n);
    SameStart(buf, r, n);
    PartKeptIff(buf, id, little, hl, hl + n, DataStart(buf, n));
  }

  lemma SameStart(buf: seq<byte>, r: seq<byte>, n: Half)
    requires |buf| >= MIN_BUFFER && |r| == |buf| && r[PROTO_AT] == buf[PROTO_AT] && Addresses(r) == Addresses(buf)
    ensures DataStart(r, n) == DataStart(buf, n)
  {
    hide Total;
  }

  /** The packet has a checksum behind its header that has to be right. */
  predicate DataChecked(buf: seq<byte>)
    requires |buf| >= MIN_BUFFER
  {
    buf[9] == 6 || buf[9] == 1 || (buf[9] == 17 && (buf[26] != 0 || buf[27] != 0))
  }

  /** The words of the header, and those of what follows it, keep their sums modulo 65535. */
  ghost predicate KeepsSums(buf: seq<byte>, len: Half, id: Half, little: bool)
    requires |buf| >= MIN_BUFFER
  {
    var hl, n := HeaderLength(buf), DataLength(buf, len);
    && Congruent(Delta(buf, id, little, 0, hl), 0)
    && (DataChecked(buf) ==> Congruent(Delta(buf, id, little, hl, hl + n), 0))
  }

  /** Filling in the id keeps a packet of any length valid, in either byte order of the host, exactly when the sums of
      the checksummed parts do not change. */
  lemma RewriteKeepsValidIff(buf: seq<byte>, len: nat, id: Half, little: bool)
    requires |buf| >= MIN_BUFFER && Word(buf, ID_AT) == 0 && Check(buf, len) == Passed
    ensures Check(Rewritten(buf, id, little), len) == Passed <==> KeepsSums(buf, len, id, little)
  {
    hide Sum, Correct, Word, HeaderSum, DataSum, DataLength, HeaderLength, Delta, Congruent, Rewritten, Check;
    var r := Rewritten(buf, id, little);
    RewrittenFields(buf, id, little);
    PassedHeader(buf, len);
    HeaderKeptIff(buf, id, little);
    var n := DataLength(buf, len);
    if DataChecked(buf) {
      DataKeptIff(buf, id, little, n);
    }
    SameVerdict(buf, r, len);
  }

  lemma DataCheckedIff(buf: seq<byte>)
    requires |buf| >= MIN_BUFFER
    ensures var proto := buf[PROTO_AT] as int;
            DataChecked(buf) <==> proto == TCP || proto == ICMP || (proto == UDP && Word(buf, UDP_SUM_AT) != 0)
  {
  }

  lemma PassedHeader(buf: seq<byte>, len: nat)
    requires |buf| >= MIN_BUFFER && Check(buf, len) == Passed
    ensures Correct(HeaderSum(buf)) && len == Word(buf, LEN_AT)
    ensures DataChecked(buf) ==>
              HeaderLength(buf) + DataLength(buf, len) <= |buf| && Correct(DataSum(buf, DataLength(buf, len)))
  {
    hide HeaderSum, DataSum, Correct, HeaderLength, DataLength, Word, DataChecked;
    DataCheckedIff(buf);
  }

  lemma SameVerdict(buf: seq<byte>, r: seq<byte>, len: nat)
    requires |buf| >= MIN_BUFFER && |r| == |buf| && Check(buf, len) == Passed
    requires r[0] == buf[0] && r[PROTO_AT] == buf[PROTO_AT] && Word(r, LEN_AT) == Word(buf, LEN_AT)
    requires Word(r, UDP_SUM_AT) == Word(buf, UDP_SUM_AT)
    requires HeaderLength(r) == HeaderLength(buf) && DataLength(r, len) == DataLength(buf, len)
    ensures Check(r, len) == Passed <==>
            Correct(HeaderSum(r)) &&
            (DataChecked(buf) ==>
               && HeaderLength(buf) + DataLength(buf, len) <= |buf|
               && Correct(DataSum(r, DataLength(r, len))))
  {
    hide HeaderSum, DataSum, Correct, HeaderLength, DataLength, Word, DataChecked;
    DataCheckedIff(buf);
  }

  /** From 20 bytes on only one header length separates the two fields. */
  lemma KeepsSumsIff(buf: seq<byte>, len: Half, id: Half, little: bool)
    requires |buf| >= MIN_BUFFER && 20 <= len
    ensures KeepsSums(buf, len, id, little) <==> !SplitsHeader(buf) || id == 0 || id == 0xFFFF
  {
    hide NewSum, Word, Congruent;
    var hl, n, c := HeaderLength(buf), DataLength(buf, len), Word(buf, SUM_AT);
    var w := NewSum(c, id, little);
    HeaderLengths(buf);
    NewSumCongruent(c, id, little);
    CongruentParts(id, w, c);
    assert hl + n >= 20;
  }

  lemma CongruentParts(id: Half, w: Half, c: Half)
    requires Congruent(w + id, c)
    ensures Congruent(0, 0) && Congruent(id - 0 + (w - c), 0)
    ensures Congruent(id - 0 + 0, 0) <==> id == 0 || id == 0xFFFF
    ensures id == 0 || id == 0xFFFF ==> Congruent(0 + (w - c), 0)
  {
    hide Congruent;
    CongruentIff(w + id, c);
    CongruentIff(0, 0);
    CongruentIff(id - 0 + (w - c), 0);
    CongruentIff(id - 0 + 0, 0);
    CongruentIff(0 + (w - c), 0);
  }

  // ----- DHCP replies

  /** The length of the DHCP message without options. */
  const DHCP_BASE_LEN: nat := 44

  function Bytes2(w: Half): seq<byte> { [(w / 256) as byte, (w % 256) as byte] }

  /** The packet around a DHCP message before its checksums are filled in. */
  function Unsummed(message: seq<byte>, id: Half, addresses: seq<byte>): (p: seq<byte>)
    requires |message| <= 0xFF00 && |addresses| == 8
    ensures |p| == 28 + |message|
  {
    [0x45, 0] + Bytes2(28 + |message|) + Bytes2(id) + [0, 0, 64, 17, 0, 0] + addresses
    + Bytes2(67) + Bytes2(68) + Bytes2(8 + |message|) + [0, 0] + message
  }

  /** The fields that filling in the checksums leaves alone: an IPv4 header without options or fragments, of protocol
      UDP, ports 67 and 68, and the message. */
  predicate ReplyFields(p: seq<byte>, message: seq<byte>, id: Half, addresses: seq<byte>) {
    && DHCP_BASE_LEN <= |message| <= 0xFF00 && |p| == 28 + |message| && |addresses| == 8
    && p[0] == 0x45 && p[1] == 0 && Word(p, LEN_AT) == 28 + |message| && Word(p, ID_AT) == id && Word(p, OFF_AT) == 0
    && p[8] == 64 && p[PROTO_AT] == 17 && p[SRC_AT..SRC_AT + 8] == addresses
    && Word(p, 20) == 67 && Word(p, 22) == 68 && Word(p, 24) == 8 + |message| && p[28..] == message
  }

  lemma UnsummedFields(message: seq<byte>, id: Half, addresses: seq<byte>)
    requires DHCP_BASE_LEN <= |message| <= 0xFF00 && |addresses| == 8
    ensures var p := Unsummed(message, id, addresses);
            && ReplyFields(p, message, id, addresses) && |p| >= MIN_BUFFER
            && Word(p, SUM_AT) == 0 && Word(p, UDP_SUM_AT) == 0
  {
    var len: Half := 28 + |message|;
    BigOfBytes(len);
    BigOfBytes(id);
    BigOfBytes(67);
    BigOfBytes(68);
    BigOfBytes(8 + |message|);
    hide Bytes2;
  }

  lemma BigOfBytes(w: Half)
    ensures |Bytes2(w)| == 2 && Big(Bytes2(w)[0], Bytes2(w)[1]) == w
  {
  }

  /** Setting the header checksum does not touch what follows the header, setting the UDP checksum does not touch the
      header. */
  lemma SetKeepsFields(p: seq<byte>, w: Half, message: seq<byte>, id: Half, addresses: seq<byte>)
    requires ReplyFields(p, message, id, addresses)
    ensures |p| >= MIN_BUFFER && ReplyFields(SetWord(p, SUM_AT, w), message, id, addresses)
            && SetWord(p, SUM_AT, w)[UDP_AT..] == p[UDP_AT..]
    ensures Word(SetWord(p, SUM_AT, w), UDP_SUM_AT) == Word(p, UDP_SUM_AT)
    ensures ReplyFields(SetWord(p, UDP_SUM_AT, w), message, id, addresses)
            && SetWord(p, UDP_SUM_AT, w)[..UDP_AT] == p[..UDP_AT]
  {
    OtherBytes(p, SUM_AT, w);
    OtherBytes(p, UDP_SUM_AT, w);
    hide SetWord;
    var q, r := SetWord(p, SUM_AT, w), SetWord(p, UDP_SUM_AT, w);
    assert q[SRC_AT..SRC_AT + 8] == p[SRC_AT..SRC_AT + 8] && r[SRC_AT..SRC_AT + 8] == p[SRC_AT..SRC_AT + 8];
    assert q[28..] == p[28..] && r[28..] == p[28..];
    assert q[UDP_AT..] == p[UDP_AT..] && r[..UDP_AT] == p[..UDP_AT];
  }

  lemma ComplementCorrects(t: int, sum: Half)
    requires Congruent(sum, t)
    ensures Congruent(t + Complement(sum), 0) && Congruent(t + (if sum != 0xFFFF then Complement(sum) else 0xFFFF), 0)
  {
    var k :| sum - t == Times(k);
    CongruentBy(t + Complement(sum), 0, 1 - k);
    if sum == 0xFFFF {
      CongruentBy(t + 0xFFFF, 0, 2 - k);
    }
  }

  lemma HeaderSummed(p: seq<byte>, sum: Half)
    requires |p| >= MIN_BUFFER && Word(p, SUM_AT) == 0 && sum == Sum(0, p[..UDP_AT])
    ensures Correct(Sum(0, SetWord(p, SUM_AT, Complement(sum))[..UDP_AT]))
  {
    hide *;
    Offsets();
    var q := SetWord(p, SUM_AT, Complement(sum));
    assert p[0..20] == p[..20] && q[0..20] == q[..20];
    SumCongruent(0, p[..20]);
    PartSet(p, SUM_AT, Complement(sum), 0, 20);
    WordInside(SUM_AT, 0, 20, 0, Complement(sum));
    ComplementCorrects(Total(p[..20]), sum);
    CorrectIff(0, q[..20]);
  }

  lemma DataSummed(p: seq<byte>, start: Half, addresses: seq<byte>, sum: Half)
    requires |p| >= MIN_BUFFER && Word(p, UDP_SUM_AT) == 0 && sum == Sum(Sum(start, addresses), p[UDP_AT..])
    ensures Correct(Sum(Sum(start, addresses),
                        SetWord(p, UDP_SUM_AT, if sum != 0xFFFF then Complement(sum) else 0xFFFF)[UDP_AT..]))
  {
    hide *;
    Offsets();
    var w: Half := if sum != 0xFFFF then Complement(sum) else 0xFFFF;
    var q := SetWord(p, UDP_SUM_AT, w);
    assert p[20..|p|] == p[20..] && q[20..|q|] == q[20..];
    SumCongruent(start, addresses);
    SumCongruent(Sum(start, addresses), p[20..]);
    var t := start + Total(addresses) + Total(p[20..]);
    CongruentChain(Sum(start, addresses), start + Total(addresses), Total(p[20..]), sum);
    PartSet(p, UDP_SUM_AT, w, 20, |p|);
    WordInside(UDP_SUM_AT, 20, |p|, 0, w);
    ComplementCorrects(t, sum);
    CorrectTwoIff(start, addresses, q[20..]);
  }

  lemma CongruentChain(a: int, b: int, t: int, sum: int)
    requires Congruent(a, b) && Congruent(sum, a + t)
    ensures Congruent(sum, b + t)
  {
    var j :| a - b == Times(j);
    CongruentBy(a + t, b + t, j);
    CongruentTransitive(sum, a + t, b + t);
  }

  lemma ReplyPasses(p: seq<byte>, message: seq<byte>, id: Half, addresses: seq<byte>)
    requires ReplyFields(p, message, id, addresses) && Correct(Sum(0, p[..UDP_AT]))
    requires Correct(Sum(Sum(25 + |message|, addresses), p[UDP_AT..]))
    ensures |p| >= MIN_BUFFER && Check(p, |p|) == Passed
  {
    hide Sum, Correct, Word;
    assert HeaderLength(p) == 20;
    assert DataLength(p, |p|) == 8 + |message|;
    assert p[20..20 + (8 + |message|)] == p[20..];
    assert Addresses(p) == addresses;
  }

  /** The part of relay_dhcp_to_client that builds the packet around the message for the client, with whatever options
      have been copied: the result passes check_ip. */
  method AssembleReply(message: seq<byte>, id: Half, addresses: seq<byte>) returns (packet: seq<byte>)
    requires DHCP_BASE_LEN <= |message| <= 0xFF00 && |addresses| == 8
    ensures ReplyFields(packet, message, id, addresses) && |packet| >= MIN_BUFFER && Check(packet, |packet|) == Passed
  {
    hide Sum, Unsummed, Total, SetWord, Complement, ReplyFields, Check, Correct, Word;
    UnsummedFields(message, id, addresses);
    packet := Unsummed(message, id, addresses);
    var headerSum := Ip4sum(0, packet[..UDP_AT]);
    HeaderSummed(packet, headerSum);
    SetKeepsFields(packet, Complement(headerSum), message, id, addresses);
    packet := SetWord(packet, SUM_AT, Complement(headerSum));
    AddressesOf(packet, message, id, addresses);
    var sum := Ip4sum(25 + |message|, packet[SRC_AT..SRC_AT + 8]);
    sum := Ip4sum(sum, packet[UDP_AT..]);
    var udpSum: Half := if sum != 0xFFFF then Complement(sum) else 0xFFFF;
    DataSummed(packet, 25 + |message|, addresses, sum);
    SetKeepsFields(packet, udpSum, message, id, addresses);
    packet := SetWord(packet, UDP_SUM_AT, udpSum);
    ReplyPasses(packet, message, id, addresses);
  }

  lemma AddressesOf(p: seq<byte>, message: seq<byte>, id: Half, addresses: seq<byte>)
    requires ReplyFields(p, message, id, addresses)
    ensures |p| >= MIN_BUFFER && p[SRC_AT..SRC_AT + 8] == addresses
  {
  }
}
