/** dep/apps/json/jsontree.c: printing a JSON tree step by step with an explicit stack. */
module JsonTree {

  const JSONTREE_MAX_DEPTH: nat := 10

  type CString = s: string | '\0' !in s

  /** int without its smallest value, whose negation overflows. */
  type Int32 = n: int | -0x8000_0000 < n < 0x8000_0000

  datatype Pair = Pair(name: CString, value: Json)

  datatype Json = Object(pairs: seq<Pair>) | Array(values: seq<Json>) | Text(text: CString) | Number(number: Int32)

  // ----- the recursive printer

  function Escaped(s: CString): string {
    if s == [] then [] else (if s[0] == '"' then ['\\'] else []) + [s[0]] + Escaped(s[1..])
  }

  function Quoted(s: CString): string { ['"'] + Escaped(s) + ['"'] }

  function Digit(d: nat): char
    requires d < 10
  {
    '0' + d as char
  }

  function Digits(n: nat): (s: string)
    ensures s != []
  {
    if n < 10 then [Digit(n)] else Digits(n / 10) + [Digit(n % 10)]
  }

  function IntText(n: int): string { if n < 0 then ['-'] + Digits(-n) else Digits(n) }

  // ----- what a text denotes

  predicate IsDigit(c: char) { '0' <= c <= '9' }

  /** The number that decimal digits denote. */
  function DecimalValue(s: string): int {
    if s == [] then 0 else 10 * DecimalValue(s[..|s| - 1]) + (s[|s| - 1] as int - '0' as int)
  }

  /** Digits only, denoting n, without leading zeros. */
  ghost predicate IsDecimal(s: string, n: nat) {
    s != [] && (forall i :: 0 <= i < |s| ==> IsDigit(s[i])) && DecimalValue(s) == n && (s[0] == '0' ==> s == "0")
  }

  /** The text is the decimal notation of n. */
  ghost predicate Denotes(s: string, n: int) {
    if n < 0 then s != [] && s[0] == '-' && IsDecimal(s[1..], -n) else IsDecimal(s, n)
  }

  lemma {:induction false} DigitsDenote(n: nat)
    ensures IsDecimal(Digits(n), n) && (n > 0 ==> Digits(n)[0] != '0')
    decreases n
  {
    if n < 10 {
      assert [Digit(n)][..0] == [];
      assert DecimalValue([Digit(n)]) == 10 * DecimalValue([]) + n;
    } else {
      DigitsDenote(n / 10);
      var front := Digits(n / 10);
      assert (front + [Digit(n % 10)])[..|front|] == front;
    }
  }

  /** What is printed for a number is its decimal notation. */
  lemma IntTextDenotes(n: int)
    ensures Denotes(IntText(n), n)
  {
    hide Digits, DecimalValue;
    DigitsDenote(if n < 0 then -n else n);
  }

  /** A text with every escaped quote read as a quote. */
  function Unescaped(s: string): string {
    if s == [] then []
    else if |s| > 1 && s[0] == '\\' && s[1] == '"' then ['"'] + Unescaped(s[2..])
    else [s[0]] + Unescaped(s[1..])
  }

  /** Reading the escaped quotes gives back the string, and no quote is left that is not escaped. */
  lemma {:induction false} EscapedIsUndone(s: CString)
    ensures Unescaped(Escaped(s)) == s
    ensures forall i :: 0 <= i < |Escaped(s)| && Escaped(s)[i] == '"' ==> i > 0 && Escaped(s)[i - 1] == '\\'
    ensures s != [] && s[0] != '"' ==> Escaped(s)[0] == s[0]
    decreases |s|
  {
    if s != [] {
      var rest := Escaped(s[1..]);
      EscapedIsUndone(s[1..]);
      if s[0] == '"' {
        assert Escaped(s) == ['\\', '"'] + rest;
        assert Escaped(s)[2..] == rest;
      } else {
        assert Escaped(s) == [s[0]] + rest;
        assert Escaped(s)[1..] == rest;
        assert rest != [] ==> rest[0] != '"';
      }
    }
  }

  function Count(v: Json): nat {
    match v
    case Object(pairs) => |pairs|
    case Array(values) => |values|
    case _ => 0
  }

  predicate Container(v: Json) { v.Object? || v.Array? }

  function Child(v: Json, i: nat): Json
    requires i < Count(v)
  {
    if v.Object? then v.pairs[i].value else v.values[i]
  }

  function Open(v: Json): char { if v.Object? then '{' else '[' }
  function Close(v: Json): char { if v.Object? then '}' else ']' }

  /** The comma in front of a child, and its name. */
  function Lead(v: Json, i: nat): string
    requires i < Count(v)
  {
    (if i > 0 then [',', '\n'] else []) + if v.Object? then Quoted(v.pairs[i].name) + [':'] else []
  }

  function Printed(v: Json): (s: string)
    ensures s != []
    decreases v, Count(v) + 1
  {
    match v
    case Text(text) => Quoted(text)
    case Number(n) => IntText(n)
    case _ => [Open(v), '\n'] + Items(v, 0)
  }

  /** A container from its i-th child on. */
  function Items(v: Json, i: nat): (s: string)
    requires Container(v)
    ensures s != []
    decreases v, Count(v) - i
  {
    if i >= Count(v) then ['\n', Close(v)]
    else
      var child := if v.Object? then v.pairs[i].value else v.values[i];
      Lead(v, i) + Printed(child) + Items(v, i + 1)
  }

  function MaxHeight(v: Json, i: nat): nat
    requires i <= Count(v)
    decreases v, i
  {
    if i == 0 then 0
    else
      var h := Height(if v.Object? then v.pairs[i - 1].value else v.values[i - 1]);
      var m := MaxHeight(v, i - 1);
      if h > m then h else m
  }

  /** The levels of a tree. */
  function Height(v: Json): nat
    decreases v, Count(v) + 1
  {
    1 + MaxHeight(v, Count(v))
  }

  lemma {:induction false} ChildHeight(v: Json, i: nat, n: nat)
    requires i < n <= Count(v)
    ensures Height(Child(v, i)) <= MaxHeight(v, n)
    decreases n
  {
    if i < n - 1 {
      ChildHeight(v, i, n - 1);
    }
  }

  // ----- the stack

  datatype Frame = Frame(value: Json, index: nat)

  /** What is still to be printed for the frames below the top. */
  function Outer(frames: seq<Frame>): string {
    if frames == [] then []
    else
      var f := frames[|frames| - 1];
      (if Container(f.value) then Items(f.value, f.index + 1) else []) + Outer(frames[..|frames| - 1])
  }

  /** What is still to be printed for the frame on top. */
  function Inner(f: Frame): string {
    if f.index == 0 then Printed(f.value) else if Container(f.value) then Items(f.value, f.index) else []
  }

  function Remaining(frames: seq<Frame>): string
    requires frames != []
  {
    Inner(frames[|frames| - 1]) + Outer(frames[..|frames| - 1])
  }

  /** Each frame holds the child of the one below that is being printed, and the whole tree fits the stack. */
  ghost predicate Nested(frames: seq<Frame>) {
    && 0 < |frames| <= JSONTREE_MAX_DEPTH
    && (forall d :: 0 <= d < |frames| ==> d + Height(frames[d].value) <= JSONTREE_MAX_DEPTH)
    && (forall d :: 0 <= d < |frames| - 1 ==> Container(frames[d].value))
    && (!Container(frames[|frames| - 1].value) ==> frames[|frames| - 1].index == 0)
  }

  /** Stepping down to a child. */
  function Down(frames: seq<Frame>): seq<Frame>
    requires frames != [] && frames[|frames| - 1].index < Count(frames[|frames| - 1].value)
  {
    var top := frames[|frames| - 1];
    frames + [Frame(Child(top.value, top.index), 0)]
  }

  /** Backing up one level, unless the root is done. */
  function Up(frames: seq<Frame>): seq<Frame>
    requires |frames| > 1
  {
    var n := |frames| - 2;
    frames[..n] + [Frame(frames[n].value, frames[n].index + 1)]
  }

  lemma NestedDown(frames: seq<Frame>)
    requires Nested(frames) && frames[|frames| - 1].index < Count(frames[|frames| - 1].value)
    ensures |frames| < JSONTREE_MAX_DEPTH && Nested(Down(frames))
  {
    var top := frames[|frames| - 1];
    ChildHeight(top.value, top.index, Count(top.value));
    hide MaxHeight;
  }

  lemma NestedUp(frames: seq<Frame>)
    requires Nested(frames) && |frames| > 1
    ensures Nested(Up(frames))
  {
    hide Height;
  }

  lemma DownRemaining(frames: seq<Frame>)
    requires frames != [] && Nested(frames) && frames[|frames| - 1].index < Count(frames[|frames| - 1].value)
    ensures var top := frames[|frames| - 1];
            var head := if top.index == 0 then [Open(top.value), '\n'] else [];
            Remaining(frames) == head + Lead(top.value, top.index) + Remaining(Down(frames))
  {
    hide *;
    Unfold(frames);
    var top := frames[|frames| - 1];
    var head := if top.index == 0 then [Open(top.value), '\n'] else [];
    Shuffle(head, Lead(top.value, top.index), Printed(Child(top.value, top.index)), Items(top.value, top.index + 1),
            Outer(frames[..|frames| - 1]));
  }

  lemma Unfold(frames: seq<Frame>)
    requires frames != [] && Nested(frames) && frames[|frames| - 1].index < Count(frames[|frames| - 1].value)
    ensures var top := frames[|frames| - 1];
            var head := if top.index == 0 then [Open(top.value), '\n'] else [];
            var child, rest := Printed(Child(top.value, top.index)), Items(top.value, top.index + 1);
            && Container(top.value)
            && Remaining(frames) == head + (Lead(top.value, top.index) + child + rest) + Outer(frames[..|frames| - 1])
            && Remaining(Down(frames)) == child + (rest + Outer(frames[..|frames| - 1]))
  {
    hide Lead, Nested, Items, Printed, Height;
    var top := frames[|frames| - 1];
    InnerUnfold(top);
    assert Down(frames)[..|Down(frames)| - 1] == frames;
  }

  lemma InnerUnfold(f: Frame)
    requires f.index < Count(f.value)
    ensures var head := if f.index == 0 then [Open(f.value), '\n'] else [];
            && Container(f.value)
            && Inner(f) ==
               head + (Lead(f.value, f.index) + Printed(Child(f.value, f.index)) + Items(f.value, f.index + 1))
  {
    hide Lead;
    var items := Items(f.value, f.index);
    assert items == Lead(f.value, f.index) + Printed(Child(f.value, f.index)) + Items(f.value, f.index + 1);
    assert [] + items == items;
  }

  lemma Shuffle(head: string, lead: string, child: string, rest: string, outer: string)
    ensures head + (lead + child + rest) + outer == head + lead + (child + (rest + outer))
  {
  }

  lemma OuterUnfold(frames: seq<Frame>)
    ensures frames == [] ==> Outer(frames) == []
    ensures frames != [] ==>
              var f := frames[|frames| - 1];
              Outer(frames) == (if Container(f.value) then Items(f.value, f.index + 1) else []) +
                Outer(frames[..|frames| - 1])
  {
    hide Items;
  }

  lemma InnerBehind(v: Json, i: nat)
    requires Container(v) && i > 0
    ensures Inner(Frame(v, i)) == Items(v, i)
  {
  }

  /** A finished frame: what is left on top, and then the frames below. */
  lemma UpRemaining(frames: seq<Frame>)
    requires Nested(frames) && frames[|frames| - 1].index >= Count(frames[|frames| - 1].value)
    ensures Remaining(frames) == Inner(frames[|frames| - 1]) + if |frames| > 1 then Remaining(Up(frames)) else []
  {
    hide Printed, Items, Height, Inner, Outer;
    var outer := frames[..|frames| - 1];
    OuterUnfold(outer);
    if |frames| > 1 {
      var n := |frames| - 2;
      assert Up(frames)[..|Up(frames)| - 1] == frames[..n];
      assert outer[..|outer| - 1] == frames[..n] && outer[|outer| - 1] == frames[n];
      InnerBehind(frames[n].value, frames[n].index + 1);
    }
  }

  // ----- the printer with its stack in fixed arrays

  class Context {
    const values: array<Json>
    const index: array<nat>
    var depth: nat
    /** What has been handed to putchar. */
    var output: string

    ghost predicate Valid()
      reads `depth, values, index
    {
      && values.Length == JSONTREE_MAX_DEPTH && index.Length == JSONTREE_MAX_DEPTH && depth < JSONTREE_MAX_DEPTH
      && Nested(Frames())
    }

    ghost function Frames(): seq<Frame>
      reads `depth, values, index
      requires depth < values.Length && depth < index.Length
    {
      seq(depth + 1, d requires 0 <= d < values.Length && d < index.Length reads values,
          index => Frame(values[d], index[d]))
    }

    /** jsontree_setup. */
    constructor (root: Json)
      requires Height(root) <= JSONTREE_MAX_DEPTH
      ensures Valid() && fresh(values) && fresh(index) && Frames() == [Frame(root, 0)] && output == []
    {
      values := new Json[JSONTREE_MAX_DEPTH](_ => root);
      index := new nat[JSONTREE_MAX_DEPTH](_ => 0);
      depth, output := 0, [];
    }

    method WriteString(text: CString)
      modifies `output
      ensures output == old(output) + Quoted(text)
    {
      output := output + ['"'];
      var i := 0;
      assert text[..0] == [];
      while i < |text|
        invariant i <= |text| && output == old(output) + ['"'] + Escaped(text[..i])
      {
        EscapedGrows(text, i);
        if text[i] == '"' {
          output := output + ['\\'];
        }
        output := output + [text[i]];
        i := i + 1;
      }
      assert text[..i] == text;
      output := output + ['"'];
    }

    /** jsontree_write_int. */
    method WriteInt(number: Int32)
      modifies `output
      ensures output == old(output) + IntText(number) && Denotes(output[|old(output)|..], number)
    {
      hide Denotes, Digits;
      var value: int := number;
      if value < 0 {
        output := output + ['-'];
        value := -value;
      }
      var buf := new char[10];
      var l := FillDigits(value, buf);
      ghost var before, all := output, buf[l..];
      while l < buf.Length
        invariant l <= buf.Length && output + buf[l..] == before + all
      {
        assert buf[l..] == [buf[l]] + buf[l + 1..];
        output := output + [buf[l]];
        l := l + 1;
      }
      assert output + buf[l..] == output;
      assert number >= 0 ==> before == old(output);
      assert output[|old(output)|..] == IntText(number);
      IntTextDenotes(number);
    }

    /** Up, in the arrays; at the root nothing is left to do. */
    method BackUp() returns (more: bool)
      requires Valid()
      modifies `depth, index
      ensures more == (|old(Frames())| > 1)
      ensures depth < values.Length && depth < index.Length && Frames() == if more then Up(old(Frames()))
              else old(Frames())
      ensures more ==> Valid()
    {
      hide Height;
      ghost var before := Frames();
      more := depth > 0;
      if more {
        NestedUp(before);
        depth := depth - 1;
        index[depth] := index[depth] + 1;
        assert Frames() == Up(before);
      }
    }

    /** Down, in the arrays. */
    method StepDown(child: Json)
      requires Valid() && index[depth] < Count(values[depth]) && child == Child(values[depth], index[depth])
      modifies `depth, index, values
      ensures Valid() && Frames() == Down(old(Frames()))
    {
      hide Height, MaxHeight;
      ghost var before := Frames();
      NestedDown(before);
      depth := depth + 1;
      index[depth] := 0;
      values[depth] := child;
      assert Frames() == Down(before);
    }

    /** What is printed before the position changes. */
    method WriteHere(v: Json, i: nat)
      requires !Container(v) ==> i == 0
      modifies `output
      ensures output == old(output) + Here(Frame(v, i))
    {
      hide Quoted, IntText, Tail;
      match v
      case Text(text) => WriteString(text);
      case Number(n) => WriteInt(n);
      case _ =>
        ghost var before := output;
        if i == 0 {
          output := output + [Open(v), '\n'];
        }
        WriteTail(v, i);
        TailJoined(before, if i == 0 then [Open(v), '\n'] else [], Tail(v, i));
    }

    method WriteTail(v: Json, i: nat)
      modifies `output
      ensures output == old(output) + Tail(v, i)
    {
      hide Lead;
      if i >= Count(v) {
        output := output + ['\n', Close(v)];
      } else {
        WriteLead(v, i);
      }
    }

    method WriteLead(v: Json, i: nat)
      requires i < Count(v)
      modifies `output
      ensures output == old(output) + Lead(v, i)
    {
      hide Quoted;
      if i > 0 {
        output := output + [',', '\n'];
      }
      if v.Object? {
        WriteString(v.pairs[i].name);
        output := output + [':'];
      }
    }

    /** jsontree_print_next: prints the next piece of what remains; false when nothing remains. */
    method PrintNext() returns (more: bool)
      requires Valid()
      modifies this, values, index
      ensures more ==> Valid()
      ensures old(output + Remaining(Frames())) == output + if more then Remaining(Frames()) else []
      ensures |output| > |old(output)|
    {
      hide Nested, Height, Here, Inner, Outer, Remaining, Up, Down;
      ghost var before, frames := output, Frames();
      var v, i := values[depth], index[depth];
      TopOf(frames);
      WriteHere(v, i);
      if i < Count(v) {
        DownRemaining(frames);
        StepDown(if v.Object? then v.pairs[i].value else v.values[i]);
        more := true;
      } else {
        UpRemaining(frames);
        more := BackUp();
      }
      Piece(before, output, Here(Frame(v, i)), if more then Remaining(Frames()) else []);
    }

    /** The callers' loop over jsontree_print_next: it prints the whole tree. */
    method PrintAll(root: Json)
      requires Valid() && Frames() == [Frame(root, 0)] && output == []
      modifies this, values, index
      ensures output == Printed(root)
    {
      hide Nested, Height, Printed, Inner, Outer, Remaining;
      Whole(root);
      var more := true;
      while more
        invariant more ==> Valid()
        invariant output + (if more then Remaining(Frames()) else []) == Printed(root)
        decreases |Printed(root)| - |output|
      {
        more := PrintNext();
      }
      assert output + [] == output;
    }
  }

  lemma Whole(root: Json)
    ensures [] + Remaining([Frame(root, 0)]) == Printed(root)
  {
    var frames := [Frame(root, 0)];
    assert Outer(frames[..0]) == [];
  }

  lemma Piece(before: string, after: string, piece: string, rest: string)
    requires after == before + piece
    ensures before + (piece + rest) == after + rest
  {
  }

  /** The text printed at a position: for a child, what leads to it; otherwise all that is left of the value. */
  function Here(f: Frame): string {
    match f.value
    case Text(text) => Quoted(text)
    case Number(n) => IntText(n)
    case _ => (if f.index == 0 then [Open(f.value), '\n'] else []) + Tail(f.value, f.index)
  }

  function Tail(v: Json, i: nat): string { if i < Count(v) then Lead(v, i) else ['\n', Close(v)] }

  lemma TailJoined(before: string, head: string, tail: string)
    ensures before + head + tail == before + (head + tail)
    ensures before + [] == before
  {
  }

  lemma TopOf(frames: seq<Frame>)
    requires Nested(frames)
    ensures frames != []
    ensures var f := frames[|frames| - 1];
            && Here(f) != [] && (!Container(f.value) ==> f.index == 0)
            && if f.index < Count(f.value) then
                 Here(f) == (if f.index == 0 then [Open(f.value), '\n'] else []) + Lead(f.value, f.index)
               else Here(f) == Inner(f)
  {
    hide Height, Escaped, Digits;
    var f := frames[|frames| - 1];
    if Container(f.value) && f.index >= Count(f.value) {
      assert Items(f.value, f.index) == ['\n', Close(f.value)];
      assert [] + Items(f.value, f.index) == Items(f.value, f.index);
    }
  }

  /** The digits are put into the buffer from its end. */
  method FillDigits(number: nat, buf: array<char>) returns (first: nat)
    requires number < 0x8000_0000 && buf.Length == 10
    modifies buf
    ensures first <= 10 && buf[first..] == Digits(number)
  {
    var value, l := number, 9;
    FirstDigit(value);
    hide Digits, Power10, Digit;
    buf[l] := Digit(value % 10);
    value := value / 10;
    l := l - 1;
    while value > 0 && l >= 0
      invariant -1 <= l < 9 && 0 <= value < Power10(l + 1)
      invariant Digits(number) == (if value > 0 then Digits(value) else []) + buf[l + 1..]
    {
      NextDigit(value, l + 1);
      ghost var tail := buf[l + 1..];
      ghost var more := if value / 10 > 0 then Digits(value / 10) else [];
      TailStep(more, Digit(value % 10), tail);
      buf[l] := Digit(value % 10);
      assert buf[l..] == [Digit(value % 10)] + tail;
      value := value / 10;
      l := l - 1;
    }
    NoDigits();
    first := l + 1;
  }

  lemma TailStep(digits: string, digit: char, tail: string)
    ensures digits + [digit] + tail == digits + ([digit] + tail)
  {
  }

  lemma NoDigits()
    ensures Power10(0) == 1
  {
  }

  function Power10(n: nat): nat { if n == 0 then 1 else 10 * Power10(n - 1) }

  lemma FirstDigit(value: nat)
    requires value < 0x8000_0000
    ensures value / 10 < Power10(9)
    ensures Digits(value) == (if value / 10 > 0 then Digits(value / 10) else []) + [Digit(value % 10)]
  {
    assert Power10(9) == 1_000_000_000;
  }

  lemma NextDigit(value: nat, n: nat)
    requires 0 < value < Power10(n)
    ensures n > 0 && value / 10 < Power10(n - 1)
    ensures Digits(value) == (if value / 10 > 0 then Digits(value / 10) else []) + [Digit(value % 10)]
  {
  }

  lemma EscapedGrows(s: CString, i: nat)
    requires i < |s|
    ensures Escaped(s[..i + 1]) == Escaped(s[..i]) + (if s[i] == '"' then ['\\'] else []) + [s[i]]
  {
    EscapedConcat(s[..i], [s[i]]);
    assert s[..i] + [s[i]] == s[..i + 1];
    assert [s[i]][1..] == [];
  }

  lemma {:induction false} EscapedConcat(a: CString, b: CString)
    ensures '\0' !in a + b && Escaped(a + b) == Escaped(a) + Escaped(b)
    decreases |a|
  {
    if a == [] {
      assert a + b == b;
    } else {
      assert (a + b)[1..] == a[1..] + b;
      EscapedConcat(a[1..], b);
    }
  }
}
