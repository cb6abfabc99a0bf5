/** Reading with jsonparse_next what jsontree_print_next has written. */
module JsonRoundTrip {
  import opened JsonTree
  import opened JsonParse

  // ----- the tokens of a tree

  function CommaTokens(i: nat): seq<Token> { if i > 0 then [Token(',', "")] else [] }

  function NameTokens(v: Json, i: nat): seq<Token>
    requires i < Count(v)
  {
    if v.Object? then [Token('N', Escaped(v.pairs[i].name)), Token(':', "")] else []
  }

  function Stream(v: Json): (s: seq<Token>)
    ensures s != []
    decreases v, Count(v) + 1
  {
    match v
    case Text(text) => [Token('"', Escaped(text))]
    case Number(n) => [Token('0', IntText(n))]
    case _ => [Token(Open(v), "")] + ItemTokens(v, 0)
  }

  function ItemTokens(v: Json, i: nat): (s: seq<Token>)
    requires Container(v)
    ensures s != []
    decreases v, Count(v) - i
  {
    if i >= Count(v) then [Token(Close(v), "")]
    else
      var child := if v.Object? then v.pairs[i].value else v.values[i];
      CommaTokens(i) + (NameTokens(v, i) + (Stream(child) + ItemTokens(v, i + 1)))
  }

  // ----- what the tokens say about the tree

  datatype Leaf = NameLeaf(name: CString) | TextLeaf(text: CString) | NumberLeaf(number: Int32)

  /** The names, strings and numbers of a tree, from left to right. */
  function Leaves(v: Json): seq<Leaf>
    decreases v, Count(v) + 1
  {
    match v
    case Text(text) => [TextLeaf(text)]
    case Number(n) => [NumberLeaf(n)]
    case _ => ItemLeaves(v, 0)
  }

  function ItemLeaves(v: Json, i: nat): seq<Leaf>
    requires Container(v)
    decreases v, Count(v) - i
  {
    if i >= Count(v) then []
    else
      var child := if v.Object? then v.pairs[i].value else v.values[i];
      (if v.Object? then [NameLeaf(v.pairs[i].name)] else []) + Leaves(child) + ItemLeaves(v, i + 1)
  }

  /** The tokens with a value. */
  function ValueTokens(tokens: seq<Token>): seq<Token> {
    if tokens == [] then []
    else
      var t := tokens[0];
      (if t.typ == 'N' || t.typ == '"' || t.typ == '0' then [t] else []) + ValueTokens(tokens[1..])
  }

  /** The token has the type of the leaf, and its value denotes it. */
  ghost predicate Carries(token: Token, leaf: Leaf) {
    match leaf
    case NameLeaf(name) => token.typ == 'N' && Unescaped(token.value) == name
    case TextLeaf(text) => token.typ == '"' && Unescaped(token.value) == text
    case NumberLeaf(n) => token.typ == '0' && Denotes(token.value, n)
  }

  ghost predicate CarryAll(tokens: seq<Token>, leaves: seq<Leaf>) {
    |tokens| == |leaves| && forall i :: 0 <= i < |tokens| ==> Carries(tokens[i], leaves[i])
  }

  lemma {:induction false} ValueTokensConcat(a: seq<Token>, b: seq<Token>)
    ensures ValueTokens(a + b) == ValueTokens(a) + ValueTokens(b)
    decreases |a|
  {
    if a == [] {
      assert a + b == b;
    } else {
      assert (a + b)[1..] == a[1..] + b;
      ValueTokensConcat(a[1..], b);
    }
  }

  lemma ValueOf(token: Token)
    ensures ValueTokens([token]) ==
              if token.typ == 'N' || token.typ == '"' || token.typ == '0' then [token] else []
  {
  }

  /** The tokens with a value are, in order, the names, strings and numbers of the tree. */
  lemma {:induction false} StreamCarries(v: Json)
    ensures CarryAll(ValueTokens(Stream(v)), Leaves(v))
    decreases v, Count(v) + 1
  {
    hide ValueTokens, Escaped, Unescaped, Denotes, IntText;
    ValueOf(Stream(v)[0]);
    match v
    case Text(text) => EscapedIsUndone(text);
    case Number(n) => IntTextDenotes(n);
    case _ =>
      ItemsCarry(v, 0);
      ValueTokensConcat([Token(Open(v), "")], ItemTokens(v, 0));
      assert [] + ValueTokens(ItemTokens(v, 0)) == ValueTokens(ItemTokens(v, 0));
  }

  lemma {:induction false} ItemsCarry(v: Json, i: nat)
    requires Container(v)
    ensures CarryAll(ValueTokens(ItemTokens(v, i)), ItemLeaves(v, i))
    decreases v, Count(v) - i
  {
    hide ValueTokens, Carries, Stream, Leaves, Escaped;
    if i >= Count(v) {
      ValueOf(Token(Close(v), ""));
    } else {
      var child := if v.Object? then v.pairs[i].value else v.values[i];
      StreamCarries(child);
      ItemsCarry(v, i + 1);
      LeadCarries(v, i);
      ValueTokensConcat(CommaTokens(i), NameTokens(v, i) + (Stream(child) + ItemTokens(v, i + 1)));
      ValueTokensConcat(NameTokens(v, i), Stream(child) + ItemTokens(v, i + 1));
      ValueTokensConcat(Stream(child), ItemTokens(v, i + 1));
    }
  }

  lemma LeadCarries(v: Json, i: nat)
    requires i < Count(v)
    ensures ValueTokens(CommaTokens(i)) == []
    ensures CarryAll(ValueTokens(NameTokens(v, i)), if v.Object? then [NameLeaf(v.pairs[i].name)] else [])
  {
    hide Escaped, Unescaped, Denotes;
    ValueOf(Token(',', ""));
    if v.Object? {
      var name := v.pairs[i].name;
      EscapedIsUndone(name);
      ValueOf(Token('N', Escaped(name)));
      ValueOf(Token(':', ""));
      ValueTokensConcat([Token('N', Escaped(name))], [Token(':', "")]);
      assert [Token('N', Escaped(name))] + [Token(':', "")] == NameTokens(v, i);
    }
  }

  // ----- which trees can be read

  /** The writer escapes quotes but not backslashes, and the tokenizer skips whatever follows a backslash: what follows
      one in the string must be another character than a quote. */
  predicate Scannable(s: string) {
    if s == [] then true
    else if s[0] == '\\' then |s| > 1 && s[1] != '"' && Scannable(s[2..])
    else Scannable(s[1..])
  }

  /** The last thing read is a string or a number, so that the tokenizer has seen a value since the last push. */
  predicate EndsInAtom(v: Json)
    decreases v
  {
    match v
    case Object(pairs) => pairs != [] && EndsInAtom(pairs[|pairs| - 1].value)
    case Array(values) => values != [] && EndsInAtom(values[|values| - 1])
    case _ => true
  }

  /** Strings are scannable, numbers not negative, and every value of a pair ends in an atom. */
  predicate Readable(v: Json)
    decreases v, Count(v) + 1
  {
    match v
    case Text(text) => Scannable(text)
    case Number(n) => n >= 0
    case _ => ItemsReadable(v, 0)
  }

  predicate ItemsReadable(v: Json, i: nat)
    requires Container(v)
    decreases v, Count(v) - i
  {
    if i >= Count(v) then true
    else
      var child := if v.Object? then v.pairs[i].value else v.values[i];
      NameReadable(v, i) && Readable(child) && (v.Object? ==> EndsInAtom(child)) && ItemsReadable(v, i + 1)
  }

  predicate NameReadable(v: Json, i: nat)
    requires i < Count(v)
  {
    v.Object? ==> Scannable(v.pairs[i].name)
  }

  function MaxNeed(v: Json, i: nat): nat
    requires i <= Count(v)
    decreases v, i
  {
    if i == 0 then 0
    else
      var h := (if v.Object? then 1 else 0) + Need(if v.Object? then v.pairs[i - 1].value else v.values[i - 1]);
      var m := MaxNeed(v, i - 1);
      if h > m then h else m
  }

  /** The entries a value takes on the tokenizer's stack. */
  function Need(v: Json): nat
    decreases v, Count(v) + 1
  {
    if Container(v) then 1 + MaxNeed(v, Count(v)) else 0
  }

  lemma {:induction false} ChildNeed(v: Json, i: nat, n: nat)
    requires i < n <= Count(v)
    ensures (if v.Object? then 1 else 0) + Need(Child(v, i)) <= MaxNeed(v, n)
    decreases n
  {
    if i < n - 1 {
      ChildNeed(v, i, n - 1);
    }
  }

  // ----- runs of the tokenizer

  function Run(json: string, s: State, n: nat): (State, seq<Token>)
    decreases n
  {
    if n == 0 then (s, [])
    else
      var (t, token) := Next(json, s);
      var (u, tokens) := Run(json, t, n - 1);
      (u, [token] + tokens)
  }

  ghost predicate Matches(json: string, s: State, tokens: seq<Token>) { Run(json, s, |tokens|).1 == tokens }

  function After(json: string, s: State, tokens: seq<Token>): State { Run(json, s, |tokens|).0 }

  lemma {:induction false} RunConcat(json: string, s: State, m: nat, n: nat)
    ensures Run(json, s, m + n).0 == Run(json, Run(json, s, m).0, n).0
    ensures Run(json, s, m + n).1 == Run(json, s, m).1 + Run(json, Run(json, s, m).0, n).1
    ensures |Run(json, s, m).1| == m
    decreases m
  {
    hide Next;
    if m > 0 {
      RunConcat(json, Next(json, s).0, m - 1, n);
    }
  }

  lemma MatchesConcat(json: string, s: State, a: seq<Token>, b: seq<Token>)
    ensures Matches(json, s, a + b) <==> Matches(json, s, a) && Matches(json, After(json, s, a), b)
    ensures After(json, s, a + b) == After(json, After(json, s, a), b)
  {
    hide Run;
    RunConcat(json, s, |a|, |b|);
    var x, y := Run(json, s, |a|).1, Run(json, After(json, s, a), |b|).1;
    if x + y == a + b {
      assert x == (x + y)[..|a|] == (a + b)[..|a|] == a;
      assert y == (x + y)[|a|..] == (a + b)[|a|..] == b;
    }
  }

  lemma MatchesOne(json: string, s: State, token: Token)
    ensures Matches(json, s, [token]) <==> Next(json, s).1 == token
    ensures After(json, s, [token]) == Next(json, s).0
  {
    hide Next;
    var (t, x) := Next(json, s);
    assert Run(json, t, 0) == (t, []);
    assert Run(json, s, 1).1 == [x] + [] == [x];
    assert [x] == [token] ==> [x][0] == [token][0];
  }

  /** Reading these tokens succeeds exactly if good, and then the tokenizer has moved on by length, is left with this
      stack, and has seen a value since the last push exactly if atom. */
  ghost predicate Outcome(json: string, s: State, tokens: seq<Token>, good: bool, length: nat, stack: seq<char>,
                          atom: bool) {
    && (Matches(json, s, tokens) <==> good)
    && (good ==>
          var t := After(json, s, tokens);
          && t.pos == s.pos + length && t.stack == stack && (t.vtype != '\0' <==> atom) && t.overflow == s.overflow
          && t.error == s.error)
  }

  lemma OutcomeConcat(json: string, s: State, a: seq<Token>, goodA: bool, lengthA: nat, stackA: seq<char>, atomA: bool,
                      b: seq<Token>, goodB: bool, lengthB: nat, stackB: seq<char>, atomB: bool)
    requires Outcome(json, s, a, goodA, lengthA, stackA, atomA)
    requires goodA ==> Outcome(json, After(json, s, a), b, goodB, lengthB, stackB, atomB)
    ensures Outcome(json, s, a + b, goodA && goodB, lengthA + lengthB, stackB, atomB)
  {
    hide Matches, After;
    MatchesConcat(json, s, a, b);
  }

  /** Blanks in front of a token do not matter. */
  lemma OutcomeBlank(json: string, s: State, tokens: seq<Token>, good: bool, length: nat, stack: seq<char>, atom: bool)
    requires tokens != [] && s.pos < |json| && json[s.pos] == '\n'
    requires Outcome(json, s.(pos := s.pos + 1), tokens, good, length, stack, atom)
    ensures Outcome(json, s, tokens, good, length + 1, stack, atom)
  {
    var s1 := s.(pos := s.pos + 1);
    assert Next(json, s) == Next(json, s1) by {
      hide Atomic, Push, Pop, Substring;
      assert SkipSpace(json, s.pos) == SkipSpace(json, s.pos + 1);
    }
    hide Next;
    assert Run(json, s, |tokens|) == Run(json, s1, |tokens|);
  }

  // ----- single tokens

  ghost predicate At(json: string, k: nat, text: string) { k + |text| <= |json| && json[k..k + |text|] == text }

  lemma AtSplit(json: string, k: nat, a: string, b: string)
    requires At(json, k, a + b)
    ensures At(json, k, a) && At(json, k + |a|, b) && |a + b| == |a| + |b|
  {
    assert json[k..k + |a|] == (a + b)[..|a|];
    assert json[k + |a|..k + |a| + |b|] == (a + b)[|a|..];
  }

  lemma AtChar(json: string, k: nat, text: string)
    requires At(json, k, text) && text != []
    ensures k < |json| && json[k] == text[0]
  {
    assert json[k] == json[k..k + |text|][0];
  }

  lemma {:induction false} ScanIff(json: string, k: nat, s: CString)
    requires At(json, k, Escaped(s) + ['"'])
    ensures StringEnd(json, k) == k + |Escaped(s)| + 1 <==> Scannable(s)
    decreases |s|
  {
    var text := Escaped(s) + ['"'];
    AtChar(json, k, text);
    if s == [] {
    } else if s[0] == '"' {
      AtSplit(json, k, ['\\', '"'], Escaped(s[1..]) + ['"']);
      assert text == ['\\', '"'] + (Escaped(s[1..]) + ['"']);
      ScanIff(json, k + 2, s[1..]);
    } else if s[0] == '\\' {
      assert StringEnd(json, k) == StringEnd(json, k + 2);
      ScanBackslash(json, k, s);
    } else {
      assert text == [s[0]] + (Escaped(s[1..]) + ['"']);
      AtSplit(json, k, [s[0]], Escaped(s[1..]) + ['"']);
      ScanIff(json, k + 1, s[1..]);
    }
  }

  lemma {:induction false} ScanBackslash(json: string, k: nat, s: CString)
    requires s != [] && s[0] == '\\' && At(json, k, Escaped(s) + ['"'])
    ensures StringEnd(json, k + 2) == k + |Escaped(s)| + 1 <==> Scannable(s)
    decreases |s|, 0
  {
    hide Escaped, At;
    var text := Escaped(s) + ['"'];
    EscapedBackslash(s);
    if |s| > 1 {
      var more := Escaped(s[2..]) + ['"'];
      if s[1] == '"' {
        AtSplit(json, k, ['\\', '\\'], ['"'] + more);
        AtChar(json, k + 2, ['"'] + more);
      } else {
        AtSplit(json, k, ['\\', s[1]], more);
        ScanIff(json, k + 2, s[2..]);
      }
    }
  }

  lemma EscapedBackslash(s: CString)
    requires s != [] && s[0] == '\\'
    ensures |s| == 1 ==> Escaped(s) == ['\\']
    ensures |s| > 1 ==>
              var more := Escaped(s[2..]) + ['"'];
              Escaped(s) + ['"'] == if s[1] == '"' then ['\\', '\\'] + (['"'] + more) else ['\\', s[1]] + more
  {
    hide Escaped;
    EscapedCons(s);
    if |s| > 1 {
      assert s[1..][1..] == s[2..];
      EscapedCons(s[1..]);
      Regrouped(Escaped(s[2..]), s[1]);
    } else {
      assert s[1..] == [];
      EscapedNothing();
    }
  }

  lemma EscapedNothing()
    ensures Escaped([]) == []
  {
  }

  lemma EscapedCons(s: CString)
    requires s != []
    ensures Escaped(s) == (if s[0] == '"' then ['\\', '"'] else [s[0]]) + Escaped(s[1..])
  {
  }

  lemma Regrouped(rest: string, c: char)
    ensures ['\\'] + (['\\', '"'] + rest) + ['"'] == ['\\', '\\'] + (['"'] + (rest + ['"']))
    ensures ['\\'] + ([c] + rest) + ['"'] == ['\\', c] + (rest + ['"'])
  {
  }

  lemma SpaceNone(json: string, k: nat, c: char)
    requires k < |json| && json[k] == c && c != ' ' && c != '\n'
    ensures SkipSpace(json, k) == k && CharAt(json, k) == c
  {
  }

  // ----- strings and numbers

  lemma SliceIff(json: string, k: nat, length: nat, text: string)
    requires At(json, k, text) && k + |text| < |json|
    ensures Substring(json, k, length) == text <==> length == |text|
  {
  }

  lemma ReadString(json: string, s: State, text: CString)
    requires At(json, s.pos, Quoted(text)) && (Top(s.stack) == '{' || Top(s.stack) == '[' || Top(s.stack) == ':')
    ensures Outcome(json, s, [Token(if Top(s.stack) == '{' then 'N' else '"', Escaped(text))], Scannable(text),
                    |Quoted(text)|, s.stack, true)
  {
    hide Matches, After, Scannable, StringEnd, SkipSpace, NumberEnd, Escaped, Substring;
    var k := s.pos;
    var body := Escaped(text) + ['"'];
    assert Quoted(text) == ['"'] + body;
    AtSplit(json, k, ['"'], body);
    AtChar(json, k, ['"']);
    AtSplit(json, k + 1, Escaped(text), ['"']);
    SpaceNone(json, k, '"');
    ScanIff(json, k + 1, text);
    SliceIff(json, k + 1, StringEnd(json, k + 1) - (k + 1) - 1, Escaped(text));
    MatchesOne(json, s, Token(if Top(s.stack) == '{' then 'N' else '"', Escaped(text)));
  }

  lemma {:induction false} DigitsAreDigits(n: nat)
    ensures forall i :: 0 <= i < |Digits(n)| ==> '0' <= Digits(n)[i] <= '9'
    decreases n
  {
    if n >= 10 {
      DigitsAreDigits(n / 10);
    }
  }

  lemma {:induction false} NumberEnds(json: string, k: nat, text: string)
    requires At(json, k, text) && !InNumber(CharAt(json, k + |text|))
             && forall i :: 0 <= i < |text| ==> '0' <= text[i] <= '9'
    ensures NumberEnd(json, k) == k + |text|
    decreases |text|
  {
    if text != [] {
      AtChar(json, k, text);
      AtSplit(json, k, [text[0]], text[1..]);
      assert text == [text[0]] + text[1..];
      NumberEnds(json, k + 1, text[1..]);
    }
  }

  lemma ReadNumber(json: string, s: State, n: Int32)
    requires At(json, s.pos, IntText(n)) && (Top(s.stack) == '[' || Top(s.stack) == ':')
    requires !InNumber(CharAt(json, s.pos + |IntText(n)|))
    ensures Outcome(json, s, [Token('0', IntText(n))], n >= 0, |IntText(n)|, s.stack, true)
  {
    hide Matches, After, SkipSpace, StringEnd, NumberEnd, Digits, At, InNumber;
    var k, text := s.pos, IntText(n);
    AtChar(json, k, text);
    MatchesOne(json, s, Token('0', text));
    if n < 0 {
      SpaceNone(json, k, '-');
    } else {
      DigitsAreDigits(n);
      SpaceNone(json, k, text[0]);
      NumberSlice(json, k, text);
    }
  }

  lemma NumberSlice(json: string, k: nat, text: string)
    requires At(json, k, text) && text != [] && !InNumber(CharAt(json, k + |text|))
             && forall i :: 0 <= i < |text| ==> '0' <= text[i] <= '9'
    ensures NumberEnd(json, k + 1) == k + |text| && Substring(json, k, |text|) == text
  {
    hide NumberEnd;
    assert text == [text[0]] + text[1..];
    AtSplit(json, k, [text[0]], text[1..]);
    NumberEnds(json, k + 1, text[1..]);
  }

  // ----- the tokens between values

  /** The stack entries of a container in front of its i-th child: a pair that has been begun stays on the stack. */
  function Pending(v: Json, i: nat): seq<char> {
    if v.Object? then (if i > 0 then ['{', ':'] else ['{']) else ['[']
  }

  predicate Seen(v: Json, i: nat)
    requires i <= Count(v)
  {
    i > 0 && EndsInAtom(Child(v, i - 1))
  }

  /** A pair can only be ended by a comma or a brace when a value has been seen. */
  predicate PairEnds(v: Json, i: nat)
    requires i <= Count(v)
  {
    v.Object? && i > 0 ==> Seen(v, i)
  }

  lemma ReadClose(json: string, s: State, v: Json, base: seq<char>)
    requires Container(v) && s.stack == base + Pending(v, Count(v)) && (s.vtype != '\0' <==> Seen(v, Count(v)))
    requires s.pos < |json| && json[s.pos] == Close(v)
    ensures Outcome(json, s, [Token(Close(v), "")], PairEnds(v, Count(v)), 1, base, Seen(v, Count(v)))
  {
    hide Matches, After, SkipSpace, EndsInAtom, Child;
    SpaceNone(json, s.pos, Close(v));
    MatchesOne(json, s, Token(Close(v), ""));
    assert (base + ['{', ':'])[..|base| + 1] == base + ['{'];
    assert (base + ['{'])[..|base|] == base;
    assert (base + ['['])[..|base|] == base;
  }

  lemma ReadEnd(json: string, s: State, v: Json, base: seq<char>)
    requires Container(v) && s.stack == base + Pending(v, Count(v)) && (s.vtype != '\0' <==> Seen(v, Count(v)))
    requires At(json, s.pos, ['\n', Close(v)])
    ensures Outcome(json, s, [Token(Close(v), "")], PairEnds(v, Count(v)), 2, base, Seen(v, Count(v)))
  {
    AtChar(json, s.pos, ['\n', Close(v)]);
    assert ['\n', Close(v)] == ['\n'] + [Close(v)];
    AtSplit(json, s.pos, ['\n'], [Close(v)]);
    AtChar(json, s.pos + 1, [Close(v)]);
    hide *;
    ReadClose(json, s.(pos := s.pos + 1), v, base);
    OutcomeBlank(json, s, [Token(Close(v), "")], PairEnds(v, Count(v)), 1, base, Seen(v, Count(v)));
  }

  lemma ReadComma(json: string, s: State, v: Json, i: nat, base: seq<char>)
    requires Container(v) && 0 < i <= Count(v) && s.stack == base + Pending(v, i) && (s.vtype != '\0' <==> Seen(v, i))
    requires s.pos < |json| && json[s.pos] == ','
    ensures Outcome(json, s, [Token(',', "")], PairEnds(v, i), 1, base + Pending(v, 0), Seen(v, i))
  {
    hide Matches, After, SkipSpace, EndsInAtom, Child;
    SpaceNone(json, s.pos, ',');
    MatchesOne(json, s, Token(',', ""));
    assert (base + ['{', ':'])[..|base| + 1] == base + ['{'];
  }

  lemma ReadColon(json: string, s: State)
    requires s.pos < |json| && json[s.pos] == ':' && |s.stack| < JSONPARSE_MAX_DEPTH
    ensures Outcome(json, s, [Token(':', "")], true, 1, s.stack + [':'], false)
  {
    hide Matches, After, SkipSpace;
    SpaceNone(json, s.pos, ':');
    MatchesOne(json, s, Token(':', ""));
  }

  lemma ReadOpen(json: string, s: State, v: Json)
    requires Container(v) && s.pos < |json| && json[s.pos] == Open(v) && |s.stack| < JSONPARSE_MAX_DEPTH
    requires v.Object? || Top(s.stack) == '[' || Top(s.stack) == ':'
    ensures Outcome(json, s, [Token(Open(v), "")], true, 1, s.stack + Pending(v, 0), false)
  {
    hide Matches, After, SkipSpace;
    SpaceNone(json, s.pos, Open(v));
    MatchesOne(json, s, Token(Open(v), ""));
  }

  function NameText(v: Json, i: nat): string
    requires i < Count(v)
  {
    if v.Object? then Quoted(v.pairs[i].name) + [':'] else []
  }

  lemma NothingRead(json: string, s: State)
    ensures Outcome(json, s, [], true, 0, s.stack, s.vtype != '\0')
  {
    assert Run(json, s, 0) == (s, []);
  }

  lemma ReadName(json: string, s: State, v: Json, i: nat, base: seq<char>) returns (atom: bool)
    requires Container(v) && i < Count(v) && At(json, s.pos, NameText(v, i)) && s.stack == base + Pending(v, 0)
    requires |base| + 1 < JSONPARSE_MAX_DEPTH || !v.Object?
    ensures Outcome(json, s, NameTokens(v, i), NameReadable(v, i), |NameText(v, i)|, base + Pending(v, i + 1), atom)
  {
    hide Scannable, Escaped, Matches, After, Outcome;
    if v.Object? {
      ReadPairName(json, s, v.pairs[i].name);
      assert base + ['{'] + [':'] == base + ['{', ':'];
      atom := false;
    } else {
      NothingRead(json, s);
      atom := s.vtype != '\0';
    }
  }

  lemma ReadPairName(json: string, s: State, name: CString)
    requires At(json, s.pos, Quoted(name) + [':']) && |s.stack| < JSONPARSE_MAX_DEPTH && Top(s.stack) == '{'
    ensures Outcome(json, s, [Token('N', Escaped(name)), Token(':', "")], Scannable(name), |Quoted(name)| + 1,
                    s.stack + [':'], false)
  {
    hide Scannable, Escaped, Matches, After, Quoted;
    AtSplit(json, s.pos, Quoted(name), [':']);
    AtChar(json, s.pos + |Quoted(name)|, [':']);
    ReadString(json, s, name);
    var a, b := [Token('N', Escaped(name))], [Token(':', "")];
    if Scannable(name) {
      ReadColon(json, After(json, s, a));
    }
    OutcomeConcat(json, s, a, Scannable(name), |Quoted(name)|, s.stack, true, b, true, 1, s.stack + [':'], false);
    assert a + b == [Token('N', Escaped(name)), Token(':', "")];
  }

  // ----- values

  /** What stands at the position where a value is read: its text, room on the stack, and a context that admits it. */
  ghost predicate ValueAhead(json: string, s: State, v: Json) {
    && At(json, s.pos, Printed(v)) && !InNumber(CharAt(json, s.pos + |Printed(v)|))
    && |s.stack| + Need(v) <= JSONPARSE_MAX_DEPTH
    && (v.Object? || Top(s.stack) == '[' || Top(s.stack) == ':')
  }

  /** The same in front of the i-th child of a container, or its end. */
  ghost predicate ItemsAhead(json: string, s: State, v: Json, i: nat, base: seq<char>) {
    && Container(v) && i <= Count(v) && At(json, s.pos, Items(v, i)) && |base| + Need(v) <= JSONPARSE_MAX_DEPTH
    && s.stack == base + Pending(v, i) && (s.vtype != '\0' <==> Seen(v, i))
  }

  /** The text of the i-th child, without its comma, and all that follow. */
  function RestText(v: Json, i: nat): string
    requires Container(v) && i < Count(v)
  {
    NameText(v, i) + (Printed(Child(v, i)) + Items(v, i + 1))
  }

  predicate RestReadable(v: Json, i: nat)
    requires Container(v) && i < Count(v)
  {
    NameReadable(v, i) && (Readable(Child(v, i)) && (PairEnds(v, i + 1) && ItemsReadable(v, i + 1)))
  }

  /** The same behind the comma. */
  ghost predicate RestAhead(json: string, s: State, v: Json, i: nat, base: seq<char>) {
    && Container(v) && i < Count(v) && |base| + Need(v) <= JSONPARSE_MAX_DEPTH && s.stack == base + Pending(v, 0)
    && At(json, s.pos, RestText(v, i))
  }

  lemma ItemsText(v: Json, i: nat)
    requires Container(v) && i < Count(v)
    ensures var rest := RestText(v, i);
            Items(v, i) == if i > 0 then [','] + (['\n'] + rest) else rest
  {
    hide Quoted, Printed;
    var lead, child, items := Lead(v, i), Printed(Child(v, i)), Items(v, i + 1);
    assert Items(v, i) == lead + child + items;
    assert i > 0 ==> lead == [',', '\n'] + NameText(v, i);
    assert i == 0 ==> lead == [] + NameText(v, i) == NameText(v, i);
    Regroup(NameText(v, i), child, items);
  }

  lemma Regroup(name: string, child: string, items: string)
    ensures [',', '\n'] + name + child + items == [','] + (['\n'] + (name + (child + items)))
    ensures name + child + items == name + (child + items)
  {
  }

  lemma ItemsFirst(json: string, k: nat, v: Json, i: nat)
    requires Container(v) && i <= Count(v) && At(json, k, Items(v, i)) && (i > 0 || i == Count(v))
    ensures k < |json| && json[k] == if i < Count(v) then ',' else '\n'
  {
    AtChar(json, k, Items(v, i));
    if i < Count(v) {
      ItemsText(v, i);
    }
  }

  /** The tokens of the i-th child and all that follow. */
  function RestTokens(v: Json, i: nat): seq<Token>
    requires Container(v) && i < Count(v)
  {
    NameTokens(v, i) + (Stream(Child(v, i)) + ItemTokens(v, i + 1))
  }

  lemma ItemFacts(v: Json, i: nat)
    requires Container(v) && i < Count(v)
    ensures RestTokens(v, i) != []
    ensures ItemTokens(v, i) == CommaTokens(i) + RestTokens(v, i) && (i == 0 ==> ItemTokens(v, i) == RestTokens(v, i))
    ensures PairEnds(v, i) && ItemsReadable(v, i) <==>
            PairEnds(v, i) && RestReadable(v, i)
    ensures PairEnds(v, 0)
    ensures Seen(v, i + 1) == EndsInAtom(Child(v, i))
    ensures |RestText(v, i)| == |NameText(v, i)| + |Printed(Child(v, i))| + |Items(v, i + 1)|
  {
    hide *;
    TokenFacts(v, i);
    ReadableFacts(v, i);
  }

  lemma TokenFacts(v: Json, i: nat)
    requires Container(v) && i < Count(v)
    ensures RestTokens(v, i) != []
    ensures ItemTokens(v, i) == CommaTokens(i) + RestTokens(v, i) && (i == 0 ==> ItemTokens(v, i) == RestTokens(v, i))
    ensures |RestText(v, i)| == |NameText(v, i)| + |Printed(Child(v, i))| + |Items(v, i + 1)|
  {
    hide Stream, Printed, Items, NameTokens, NameText;
    assert [] + RestTokens(v, i) == RestTokens(v, i);
  }

  lemma ReadableFacts(v: Json, i: nat)
    requires Container(v) && i < Count(v)
    ensures PairEnds(v, i) && ItemsReadable(v, i) <==> PairEnds(v, i) && RestReadable(v, i)
    ensures PairEnds(v, 0)
    ensures Seen(v, i + 1) == EndsInAtom(Child(v, i))
  {
    hide Readable, NameReadable, EndsInAtom;
  }

  lemma {:induction false} ReadValue(json: string, s: State, v: Json)
    requires ValueAhead(json, s, v)
    ensures Outcome(json, s, Stream(v), Readable(v), |Printed(v)|, s.stack, EndsInAtom(v))
    decreases v, Count(v) + 1, 0
  {
    match v
    case Text(text) => TextRead(json, s, text);
    case Number(n) => ReadNumber(json, s, n);
    case _ =>
      OpenRead(json, s, v);
      var open := [Token(Open(v), "")];
      var t := After(json, s, open);
      var u := t.(pos := t.pos + 1);
      ReadItems(json, u, v, 0, s.stack);
      ContainerRead(json, s, v);
  }

  lemma TextRead(json: string, s: State, text: CString)
    requires ValueAhead(json, s, Text(text))
    ensures Outcome(json, s, Stream(Text(text)), Readable(Text(text)), |Printed(Text(text))|, s.stack,
                    EndsInAtom(Text(text)))
  {
    hide Outcome, Scannable, Quoted, Escaped;
    ReadString(json, s, text);
  }

  lemma OpenRead(json: string, s: State, v: Json)
    requires ValueAhead(json, s, v) && Container(v)
    ensures var open := [Token(Open(v), "")];
            var t := After(json, s, open);
            && Outcome(json, s, open, true, 1, s.stack + Pending(v, 0), false)
            && t.pos == s.pos + 1 < |json| && json[t.pos] == '\n'
            && ItemsAhead(json, t.(pos := t.pos + 1), v, 0, s.stack)
  {
    hide Matches, After, Items;
    assert Printed(v) == [Open(v), '\n'] + Items(v, 0);
    AtSplit(json, s.pos, [Open(v), '\n'], Items(v, 0));
    assert [Open(v), '\n'] == [Open(v)] + ['\n'];
    AtSplit(json, s.pos, [Open(v)], ['\n']);
    AtChar(json, s.pos, [Open(v)]);
    AtChar(json, s.pos + 1, ['\n']);
    ReadOpen(json, s, v);
  }

  lemma ContainerRead(json: string, s: State, v: Json)
    requires ValueAhead(json, s, v) && Container(v)
    requires var t := After(json, s, [Token(Open(v), "")]);
             Outcome(json, t.(pos := t.pos + 1), ItemTokens(v, 0), PairEnds(v, 0) && ItemsReadable(v, 0), |Items(v, 0)|,
                     s.stack, Seen(v, Count(v)))
    ensures Outcome(json, s, Stream(v), Readable(v), |Printed(v)|, s.stack, EndsInAtom(v))
  {
    var open := [Token(Open(v), "")];
    ContainerFacts(v);
    OpenRead(json, s, v);
    hide *;
    var t := After(json, s, open);
    OutcomeBlank(json, t, ItemTokens(v, 0), PairEnds(v, 0) && ItemsReadable(v, 0), |Items(v, 0)|, s.stack,
                 Seen(v, Count(v)));
    OutcomeConcat(json, s, open, true, 1, s.stack + Pending(v, 0), false,
                  ItemTokens(v, 0), PairEnds(v, 0) && ItemsReadable(v, 0), |Items(v, 0)| + 1, s.stack,
                  Seen(v, Count(v)));
  }

  lemma ContainerFacts(v: Json)
    requires Container(v)
    ensures Stream(v) == [Token(Open(v), "")] + ItemTokens(v, 0) && ItemTokens(v, 0) != []
    ensures Readable(v) == ItemsReadable(v, 0) && PairEnds(v, 0) && EndsInAtom(v) == Seen(v, Count(v))
    ensures |Printed(v)| == 2 + |Items(v, 0)|
  {
  }

  lemma LastItem(json: string, s: State, v: Json, base: seq<char>)
    requires ItemsAhead(json, s, v, Count(v), base)
    ensures Outcome(json, s, ItemTokens(v, Count(v)), PairEnds(v, Count(v)) && ItemsReadable(v, Count(v)),
                    |Items(v, Count(v))|, base, Seen(v, Count(v)))
  {
    hide Outcome, EndsInAtom, Need;
    assert Items(v, Count(v)) == ['\n', Close(v)];
    ReadEnd(json, s, v, base);
  }

  /** The comma, and what is ahead behind it. */
  lemma CommaRead(json: string, s: State, v: Json, i: nat, base: seq<char>)
    requires ItemsAhead(json, s, v, i, base) && i < Count(v)
    ensures i == 0 ==> RestAhead(json, s, v, i, base) && |Items(v, i)| == |RestText(v, i)|
    ensures i > 0 ==>
              var t := After(json, s, CommaTokens(i));
              && Outcome(json, s, CommaTokens(i), PairEnds(v, i), 1, base + Pending(v, 0), Seen(v, i))
              && (PairEnds(v, i) ==>
                    && RestAhead(json, t.(pos := t.pos + 1), v, i, base) && t.pos < |json| && json[t.pos] == '\n'
                    && |Items(v, i)| == 1 + (|RestText(v, i)| + 1))
  {
    hide Matches, After, Items, Need, Seen, EndsInAtom, NameText, Printed, Pending, PairEnds, RestText, Count,
      Container;
    ItemsText(v, i);
    var rest := RestText(v, i);
    if i > 0 {
      AtSplit(json, s.pos, [','], ['\n'] + rest);
      AtSplit(json, s.pos + 1, ['\n'], rest);
      AtChar(json, s.pos, [',']);
      AtChar(json, s.pos + 1, ['\n']);
      ReadComma(json, s, v, i, base);
    }
  }

  lemma NextRead(json: string, s: State, v: Json, i: nat, base: seq<char>)
    requires Container(v) && 0 < i < Count(v) && ItemsAhead(json, s, v, i, base)
    requires PairEnds(v, i) ==>
               var t := After(json, s, CommaTokens(i));
               Outcome(json, t.(pos := t.pos + 1), RestTokens(v, i), RestReadable(v, i), |RestText(v, i)|, base,
                       Seen(v, Count(v)))
    ensures Outcome(json, s, ItemTokens(v, i), PairEnds(v, i) && ItemsReadable(v, i), |Items(v, i)|, base,
                    Seen(v, Count(v)))
  {
    hide *;
    ItemFacts(v, i);
    CommaRead(json, s, v, i, base);
    var t := After(json, s, CommaTokens(i));
    if PairEnds(v, i) {
      OutcomeBlank(json, t, RestTokens(v, i), RestReadable(v, i), |RestText(v, i)|, base, Seen(v, Count(v)));
    }
    OutcomeConcat(json, s, CommaTokens(i), PairEnds(v, i), 1, base + Pending(v, 0), Seen(v, i),
                  RestTokens(v, i), RestReadable(v, i), |RestText(v, i)| + 1, base, Seen(v, Count(v)));
    OutcomeSame(json, s, CommaTokens(i) + RestTokens(v, i), PairEnds(v, i) && RestReadable(v, i),
                1 + (|RestText(v, i)| + 1), base, Seen(v, Count(v)), PairEnds(v, i) && ItemsReadable(v, i),
                |Items(v, i)|);
  }

  lemma OutcomeSame(json: string, s: State, tokens: seq<Token>, good: bool, length: nat, stack: seq<char>, atom: bool,
                    good': bool, length': nat)
    requires Outcome(json, s, tokens, good, length, stack, atom) && good == good' && (good ==> length == length')
    ensures Outcome(json, s, tokens, good', length', stack, atom)
  {
  }

  lemma {:induction false} ReadItems(json: string, s: State, v: Json, i: nat, base: seq<char>)
    requires Container(v) && i <= Count(v) && ItemsAhead(json, s, v, i, base)
    ensures Outcome(json, s, ItemTokens(v, i), PairEnds(v, i) && ItemsReadable(v, i), |Items(v, i)|, base,
                    Seen(v, Count(v)))
    decreases v, Count(v) - i, 1
  {
    hide Outcome, Seen, PairEnds, Items, ItemTokens, ItemsReadable, RestReadable, Need, RestTokens, At, Printed,
      RestText, RestAhead, After, Run;
    if i == Count(v) {
      LastItem(json, s, v, base);
    } else {
      ItemFacts(v, i);
      CommaRead(json, s, v, i, base);
      if i == 0 {
        ReadRest(json, s, v, i, base);
      } else {
        if PairEnds(v, i) {
          var t := After(json, s, CommaTokens(i));
          ReadRest(json, t.(pos := t.pos + 1), v, i, base);
        }
        NextRead(json, s, v, i, base);
      }
    }
  }

  lemma {:induction false} ReadRest(json: string, u: State, v: Json, i: nat, base: seq<char>)
    requires RestAhead(json, u, v, i, base)
    ensures Outcome(json, u, RestTokens(v, i), RestReadable(v, i), |RestText(v, i)|, base, Seen(v, Count(v)))
    decreases v, Count(v) - i, 0
  {
    hide Outcome, Seen, PairEnds, Items, ItemTokens, ItemsReadable, NameReadable, Readable, Need, At, Printed, After,
      Run, Stream, NameText, NameTokens, EndsInAtom, Pending, ValueAhead, ItemsAhead;
    var child := if v.Object? then v.pairs[i].value else v.values[i];
    var atom := NameAhead(json, u, v, i, base);
    var t1 := After(json, u, NameTokens(v, i));
    var t2 := After(json, t1, Stream(child));
    if NameReadable(v, i) {
      ReadValue(json, t1, child);
      if Readable(child) {
        ChildAhead(json, u, v, i, base, atom);
        ReadItems(json, t2, v, i + 1, base);
      }
      OutcomeConcat(json, t1, Stream(child), Readable(child), |Printed(child)|, t1.stack, EndsInAtom(child),
                    ItemTokens(v, i + 1), PairEnds(v, i + 1) && ItemsReadable(v, i + 1), |Items(v, i + 1)|, base,
                    Seen(v, Count(v)));
    }
    OutcomeConcat(json, u, NameTokens(v, i), NameReadable(v, i), |NameText(v, i)|, base + Pending(v, i + 1), atom,
                  Stream(child) + ItemTokens(v, i + 1),
                  Readable(child) && (PairEnds(v, i + 1) && ItemsReadable(v, i + 1)),
                  |Printed(child)| + |Items(v, i + 1)|, base, Seen(v, Count(v)));
  }

  /** The name of a pair, and that the value is ahead behind it. */
  lemma NameAhead(json: string, u: State, v: Json, i: nat, base: seq<char>) returns (atom: bool)
    requires RestAhead(json, u, v, i, base)
    ensures Outcome(json, u, NameTokens(v, i), NameReadable(v, i), |NameText(v, i)|, base + Pending(v, i + 1), atom)
    ensures NameReadable(v, i) ==> ValueAhead(json, After(json, u, NameTokens(v, i)), Child(v, i))
  {
    hide Items, Printed, After, Matches, NameText, NameTokens, NameReadable, MaxNeed;
    AtSplit(json, u.pos, NameText(v, i), Printed(Child(v, i)) + Items(v, i + 1));
    AtSplit(json, u.pos + |NameText(v, i)|, Printed(Child(v, i)), Items(v, i + 1));
    ItemsFirst(json, u.pos + |NameText(v, i)| + |Printed(Child(v, i))|, v, i + 1);
    ChildNeed(v, i, Count(v));
    atom := ReadName(json, u, v, i, base);
  }

  /** Behind the value, the next item is ahead. */
  lemma ChildAhead(json: string, u: State, v: Json, i: nat, base: seq<char>, atom: bool)
    requires RestAhead(json, u, v, i, base) && NameReadable(v, i) && Readable(Child(v, i))
    requires Outcome(json, u, NameTokens(v, i), NameReadable(v, i), |NameText(v, i)|, base + Pending(v, i + 1), atom)
    requires var t1 := After(json, u, NameTokens(v, i));
             Outcome(json, t1, Stream(Child(v, i)), Readable(Child(v, i)), |Printed(Child(v, i))|, t1.stack,
                     EndsInAtom(Child(v, i)))
    ensures ItemsAhead(json, After(json, After(json, u, NameTokens(v, i)), Stream(Child(v, i))), v, i + 1, base)
  {
    hide Items, Printed, After, Matches, NameText, NameTokens, NameReadable, Need, Readable, Stream, EndsInAtom;
    AtSplit(json, u.pos, NameText(v, i), Printed(Child(v, i)) + Items(v, i + 1));
    AtSplit(json, u.pos + |NameText(v, i)|, Printed(Child(v, i)), Items(v, i + 1));
  }

  // ----- printing a tree and reading it back

  predicate HasNext(json: string, s: State) { s.pos < |json| }

  /** jsonparse_next for as long as jsonparse_has_next. */
  function AllTokens(json: string, s: State): seq<Token>
    decreases if s.pos < |json| then |json| - s.pos else 0
  {
    if HasNext(json, s) then
      var (t, token) := Next(json, s);
      NextMoves(json, s);
      [token] + AllTokens(json, t)
    else []
  }

  lemma {:induction false} SpaceMoves(json: string, k: nat)
    ensures SkipSpace(json, k) >= k
    decreases if k < |json| then |json| - k else 0
  {
    if k < |json| && (json[k] == ' ' || json[k] == '\n') {
      SpaceMoves(json, k + 1);
    }
  }

  lemma NextMoves(json: string, s: State)
    ensures Next(json, s).0.pos > s.pos
  {
    hide SkipSpace, StringEnd, NumberEnd, Substring;
    SpaceMoves(json, s.pos);
  }

  /** The tokens of the loop are those of a run that ends where no text is left. */
  lemma {:induction false} LoopIsRun(json: string, s: State)
    ensures var tokens := AllTokens(json, s);
            Matches(json, s, tokens) && !HasNext(json, After(json, s, tokens))
    ensures forall n :: 0 <= n < |AllTokens(json, s)| ==> HasNext(json, Run(json, s, n).0)
    decreases if s.pos < |json| then |json| - s.pos else 0
  {
    hide Next;
    if HasNext(json, s) {
      var (t, token) := Next(json, s);
      NextMoves(json, s);
      LoopIsRun(json, t);
      var rest := AllTokens(json, t);
      assert AllTokens(json, s) == [token] + rest;
      forall n | 0 <= n < |AllTokens(json, s)| ensures HasNext(json, Run(json, s, n).0) {
        if n > 0 {
          assert Run(json, s, n).0 == Run(json, t, n - 1).0;
        }
      }
    } else {
      assert Run(json, s, 0) == (s, []);
    }
  }

  /** Tokens that match and use the text up are the tokens of the loop, and no others are. */
  lemma LoopIff(json: string, s: State, tokens: seq<Token>)
    requires Matches(json, s, tokens) ==> !HasNext(json, After(json, s, tokens))
    requires forall n :: 0 <= n < |tokens| && Matches(json, s, tokens) ==> HasNext(json, Run(json, s, n).0)
    ensures AllTokens(json, s) == tokens <==> Matches(json, s, tokens)
  {
    hide Next, Run, AllTokens;
    LoopIsRun(json, s);
    var all := AllTokens(json, s);
    if Matches(json, s, tokens) {
      assert !HasNext(json, Run(json, s, |tokens|).0) && !HasNext(json, Run(json, s, |all|).0);
      assert |all| == |tokens|;
    }
  }

  lemma {:induction false} RunMoves(json: string, s: State, m: nat, n: nat)
    requires m < n
    ensures Run(json, s, m).0.pos < Run(json, s, n).0.pos
    decreases n
  {
    hide Next;
    var t := Next(json, s).0;
    NextMoves(json, s);
    if m > 0 {
      RunMoves(json, t, m - 1, n - 1);
    } else if n > 1 {
      RunMoves(json, t, 0, n - 1);
    }
  }

  /** At depth 0 only an object is accepted. */
  lemma RootRejected(json: string, s: State, root: Json)
    requires !root.Object? && s.stack == [] && At(json, s.pos, Printed(root))
    ensures !Matches(json, s, Stream(root))
  {
    hide Escaped, Items, ItemTokens, Digits, Substring, Atomic;
    AtChar(json, s.pos, Printed(root));
    var c := json[s.pos];
    if root.Number? && root.number >= 0 {
      DigitsAreDigits(root.number);
    }
    assert c != '\n' && c != ' ';
    SpaceNone(json, s.pos, c);
    hide SkipSpace;
    assert Next(json, s).1 == BAD;
    assert Run(json, s, |Stream(root)|).1[0] == BAD != Stream(root)[0];
  }

  function Setup(vtype: char): State { State(0, [], vtype, 0, 0, 0, false) }

  /** Reading back what has been printed gives exactly the tokens of the tree, with the values as written, precisely
      when the root is an object, no number is negative, a backslash is followed by something other than a quote in
      every string, and every value of a pair ends in an atom; the tokenizer is then at depth 0, at the end of the text,
      and has reported no error. */
  lemma RoundTripIff(root: Json, vtype: char)
    requires Need(root) <= JSONPARSE_MAX_DEPTH
    ensures var json, s := Printed(root), Setup(vtype);
            && (AllTokens(json, s) == Stream(root) <==> root.Object? && Readable(root))
            && (root.Object? && Readable(root) ==>
                  var t := After(json, s, Stream(root));
                  t.pos == |json| && t.stack == [] && t.error == 0 && !t.overflow)
  {
    var json, s := Printed(root), Setup(vtype);
    assert json[0..|json|] == json;
    assert At(json, 0, json) && CharAt(json, |json|) == '\0';
    hide Printed, Stream, Readable, AllTokens, Run, Need;
    if root.Object? {
      ReadValue(json, s, root);
      forall n | 0 <= n < |Stream(root)| && Matches(json, s, Stream(root)) ensures HasNext(json, Run(json, s, n).0) {
        RunMoves(json, s, n, |Stream(root)|);
      }
    } else {
      RootRejected(json, s, root);
    }
    LoopIff(json, s, Stream(root));
  }

  /** The loop of the callers. */
  method ReadAll(parser: Parser) returns (tokens: seq<Token>)
    requires parser.Valid()
    modifies parser, parser.stack
    ensures parser.Valid() && tokens == AllTokens(parser.json, old(parser.Abstract()))
    ensures parser.Abstract() == After(parser.json, old(parser.Abstract()), tokens)
  {
    hide Next, Run;
    ghost var s := parser.Abstract();
    tokens := [];
    NoTokens(parser.json, s);
    while parser.pos < |parser.json|
      invariant parser.Valid()
      invariant tokens + AllTokens(parser.json, parser.Abstract()) == AllTokens(parser.json, s)
      invariant parser.Abstract() == After(parser.json, s, tokens)
      decreases |parser.json| - parser.pos
    {
      ghost var u := parser.Abstract();
      NextMoves(parser.json, u);
      var token := parser.NextToken();
      MatchesConcat(parser.json, s, tokens, [token]);
      MatchesOne(parser.json, u, token);
      assert tokens + ([token] + AllTokens(parser.json, parser.Abstract())) ==
             tokens + [token] + AllTokens(parser.json, parser.Abstract());
      tokens := tokens + [token];
    }
    assert tokens + [] == tokens;
  }

  lemma NoTokens(json: string, s: State)
    ensures After(json, s, []) == s && [] + AllTokens(json, s) == AllTokens(json, s)
  {
  }

  /** jsontree_print_next until it is done, and jsonparse_next on the text it has produced. */
  method PrintAndRead(root: Json, vtype: char) returns (tokens: seq<Token>, parser: Parser)
    requires Height(root) <= JSONTREE_MAX_DEPTH && Need(root) <= JSONPARSE_MAX_DEPTH
    ensures tokens == Stream(root) <==> root.Object? && Readable(root)
    ensures root.Object? && Readable(root) ==> CarryAll(ValueTokens(tokens), Leaves(root))
    ensures tokens == Stream(root) ==> parser.error == 0 && parser.depth == 0 && parser.pos == |Printed(root)|
  {
    hide Printed, Stream, Readable, AllTokens, Run, Need, Height, CarryAll, ValueTokens, Leaves;
    var context := new Context(root);
    context.PrintAll(root);
    parser := new Parser(context.output, vtype);
    tokens := ReadAll(parser);
    RoundTripIff(root, vtype);
    StreamCarries(root);
  }
}
