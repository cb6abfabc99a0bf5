/** The Internet checksum of dep/tools/tunslip.c: a 16-bit sum with end-around carry. */
module Checksum {
  import opened Bytes

  type Half = x: int | 0 <= x < 0x1_0000

  function Big(b0: byte, b1: byte): Half { 256 * (b0 as int) + b1 as int }

  function Word(p: seq<byte>, i: nat): Half
    requires i + 1 < |p|
  {
    Big(p[i], p[i + 1])
  }

  /** sum += t; if (sum < t) sum++; */
  function Add(sum: Half, t: Half): Half {
    if sum + t < 0x1_0000 then sum + t else sum + t - 0xFFFF
  }

  /** ip4sum. */
  function Sum(sum: Half, p: seq<byte>): Half
    decreases |p|
  {
    if p == [] then sum
    else if |p| == 1 then Add(sum, Big(p[0], 0))
    else Sum(Add(sum, Word(p, 0)), p[2..])
  }

  /** The unbounded sum of the 16-bit words, an odd byte being the high one of the last. */
  function Total(p: seq<byte>): nat
    decreases |p|
  {
    if p == [] then 0
    else if |p| == 1 then 256 * (p[0] as int)
    else 256 * (p[0] as int) + p[1] as int + Total(p[2..])
  }

  function Times(k: int): int { 0xFFFF * k }

  /** Equal modulo 65535. */
  ghost predicate Congruent(a: int, b: int) { exists k :: a - b == Times(k) }

  lemma CongruentIff(a: int, b: int)
    ensures Congruent(a, b) <==> (a - b) % 0xFFFF == 0
  {
    if (a - b) % 0xFFFF == 0 {
      assert a - b == Times((a - b) / 0xFFFF);
    } else {
      forall k ensures a - b != Times(k) {
        Multiple(k);
      }
    }
  }

  lemma Multiple(k: int)
    ensures Times(k) % 0xFFFF == 0
  {
  }

  lemma CongruentBy(a: int, b: int, k: int)
    requires a - b == Times(k)
    ensures Congruent(a, b)
  {
  }

  lemma CongruentTransitive(a: int, b: int, c: int)
    requires Congruent(a, b) && Congruent(b, c)
    ensures Congruent(a, c)
  {
    var j :| a - b == Times(j);
    var k :| b - c == Times(k);
    CongruentBy(a, c, j + k);
  }

  /** What check_ip accepts as a correct sum. */
  predicate Correct(sum: Half) { sum == 0xFFFF || sum == 0 }

  lemma AddCongruent(sum: Half, t: Half, x: int)
    ensures Congruent(Add(sum, t) + x, sum + t + x)
  {
    CongruentBy(Add(sum, t) + x, sum + t + x, if sum + t < 0x1_0000 then 0 else -1);
  }

  /** The sum with end-around carry is the sum of the words modulo 65535. */
  lemma {:induction false} SumCongruent(sum: Half, p: seq<byte>)
    ensures Congruent(Sum(sum, p), sum + Total(p))
    decreases |p|
  {
    hide Add, Congruent;
    if p == [] {
      CongruentBy(sum, sum + 0, 0);
    } else if |p| == 1 {
      AddCongruent(sum, Big(p[0], 0), 0);
    } else {
      var next := Add(sum, Word(p, 0));
      SumCongruent(next, p[2..]);
      AddCongruent(sum, Word(p, 0), Total(p[2..]));
      CongruentTransitive(Sum(next, p[2..]), next + Total(p[2..]), sum + Total(p));
    }
  }

  lemma CorrectCongruent(x: Half)
    ensures Correct(x) <==> Congruent(x, 0)
  {
    CongruentIff(x, 0);
  }

  lemma CorrectIff(sum: Half, p: seq<byte>)
    ensures Correct(Sum(sum, p)) <==> Congruent(sum + Total(p), 0)
  {
    hide Sum, Total, Congruent, Correct;
    SumCongruent(sum, p);
    CongruentShift(Sum(sum, p), sum + Total(p), 0);
    CorrectCongruent(Sum(sum, p));
  }

  /** Summing one part after the other. */
  lemma CorrectTwoIff(sum: Half, p: seq<byte>, q: seq<byte>)
    ensures Correct(Sum(Sum(sum, p), q)) <==> Congruent(sum + Total(p) + Total(q), 0)
  {
    hide *;
    SumCongruent(sum, p);
    CorrectIff(Sum(sum, p), q);
    CongruentShift(Sum(sum, p), sum + Total(p), Total(q));
  }

  lemma CongruentShift(a: int, b: int, t: int)
    requires Congruent(a, b)
    ensures Congruent(a + t, 0) <==> Congruent(b + t, 0)
  {
    hide Congruent;
    CongruentIff(a, b);
    CongruentIff(a + t, 0);
    CongruentIff(b + t, 0);
    assert a + t == (b + t) + (a - b);
  }

  lemma SumStep(sum: Half, p: seq<byte>, i: nat)
    requires i <= |p|
    ensures i + 1 < |p| ==> Sum(sum, p[i..]) == Sum(Add(sum, Word(p, i)), p[i + 2..])
    ensures i + 1 == |p| ==> Sum(sum, p[i..]) == Add(sum, Big(p[i], 0))
    ensures i == |p| ==> Sum(sum, p[i..]) == sum
  {
    hide Add, Big;
    if i + 1 < |p| {
      assert p[i..][2..] == p[i + 2..];
    }
  }

  /** ip4sum, as a loop. */
  method Ip4sum(start: Half, p: seq<byte>) returns (sum: Half)
    ensures sum == Sum(start, p)
  {
    hide Sum;
    sum := start;
    var i := 0;
    assert p[0..] == p;
    while i + 1 < |p|
      invariant i <= |p| && Sum(sum, p[i..]) == Sum(start, p)
    {
      SumStep(sum, p, i);
      var t := 256 * (p[i] as int) + p[i + 1] as int;
      sum := (sum + t) % 0x1_0000;
      if sum < t {
        sum := sum + 1;
      }
      i := i + 2;
    }
    SumStep(sum, p, i);
    if i < |p| {
      var t := 256 * (p[i] as int);
      sum := (sum + t) % 0x1_0000;
      if sum < t {
        sum := sum + 1;
      }
    }
  }

  // ----- changing one word

  function SetWord(p: seq<byte>, i: nat, w: Half): (r: seq<byte>)
    requires i + 1 < |p|
    ensures |r| == |p|
  {
    p[i := (w / 256) as byte][i + 1 := (w % 256) as byte]
  }

  lemma {:induction false} TotalSet(p: seq<byte>, i: nat, w: Half)
    requires i % 2 == 0 && i + 1 < |p|
    ensures Total(SetWord(p, i, w)) == Total(p) - Word(p, i) + w
    decreases i
  {
    if i > 0 {
      assert SetWord(p, i, w)[2..] == SetWord(p[2..], i - 2, w);
      TotalSet(p[2..], i - 2, w);
    } else {
      assert SetWord(p, 0, w)[2..] == p[2..];
    }
  }

  /** An odd byte at the end counts as a high one. */
  lemma {:induction false} TotalSetLast(p: seq<byte>, b: byte)
    requires |p| % 2 == 1
    ensures Total(p[|p| - 1 := b]) == Total(p) + 256 * (b as int - p[|p| - 1] as int)
    decreases |p|
  {
    if |p| > 1 {
      assert p[|p| - 1 := b][2..] == p[2..][|p| - 3 := b];
      TotalSetLast(p[2..], b);
    }
  }

  // ----- byte order

  /** A 16-bit field as the host loads it. */
  function Host(w: Half, little: bool): Half { if little then w % 256 * 256 + w / 256 else w }

  lemma HostTwice(w: Half, little: bool)
    ensures Host(Host(w, little), little) == w
  {
  }

  lemma SwapIsTimes256(w: Half)
    ensures 256 * w - Host(w, true) == 0xFFFF * (w / 256)
  {
  }

  function Complement(w: Half): Half { 0xFFFF - w }

  /** Adding the complement with end-around carry subtracts, whatever the byte order of the host. */
  lemma AddComplement(sum: Half, id: Half, little: bool)
    ensures Congruent(Host(Add(Host(sum, little), Complement(Host(id, little))), little) + id, sum)
  {
    var s, n := Host(sum, little), Host(id, little);
    var x := Add(s, Complement(n));
    if little {
      SwapIsTimes256(x);
      SwapIsTimes256(s);
      SwapIsTimes256(n);
      HostTwice(sum, true);
      HostTwice(id, true);
      var e := if x == s + Complement(n) then 1 else 0;
      var k := 256 * e - x / 256 - n / 256 + s / 256;
      CongruentBy(Host(x, true) + id, sum, k);
    } else {
      CongruentBy(x + id, sum, if x + id == sum then 0 else 1);
    }
  }
}
