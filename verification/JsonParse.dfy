/** dep/apps/json/jsonparse.c: the pushdown tokenizer. */
module JsonParse {

  const JSONPARSE_MAX_DEPTH: nat := 10

  const JSON_ERROR_SYNTAX: nat := 1
  const JSON_ERROR_UNEXPECTED_ARRAY: nat := 2
  const JSON_ERROR_UNEXPECTED_END_OF_ARRAY: nat := 3
  const JSON_ERROR_UNEXPECTED_STRING: nat := 5

  /** overflow: something has been pushed on a full stack, which the C code would write behind its array. */
  datatype State = State(pos: nat, stack: seq<char>, vtype: char, vstart: nat, vlen: nat, error: nat, overflow: bool)

  /** The returned type, '\0' if the text is not accepted, and for strings and numbers the text of the value. */
  datatype Token = Token(typ: char, value: string)

  const BAD := Token('\0', "")

  function CharAt(json: string, k: nat): char { if k < |json| then json[k] else '\0' }

  function Substring(json: string, start: nat, length: nat): string {
    if start > |json| then [] else if start + length > |json| then json[start..] else json[start..start + length]
  }

  function Top(stack: seq<char>): char { if stack == [] then '\0' else stack[|stack| - 1] }

  function Push(s: State, c: char): State {
    if |s.stack| == JSONPARSE_MAX_DEPTH then s.(overflow := true, vtype := '\0')
    else s.(stack := s.stack + [c], vtype := '\0')
  }

  function Pop(s: State): State { if s.stack == [] then s else s.(stack := s.stack[..|s.stack| - 1]) }

  function SkipSpace(json: string, k: nat): nat
    decreases if k < |json| then |json| - k else 0
  {
    if k < |json| && (json[k] == ' ' || json[k] == '\n') then SkipSpace(json, k + 1) else k
  }

  /** Behind the quote that ends a string; a backslash hides the character after it. */
  function StringEnd(json: string, k: nat): (end: nat)
    ensures end > k
    decreases if k < |json| then |json| - k else 0
  {
    if CharAt(json, k) == '\0' || CharAt(json, k) == '"' then k + 1
    else if CharAt(json, k) == '\\' then StringEnd(json, k + 2)
    else StringEnd(json, k + 1)
  }

  predicate InNumber(c: char) { '0' <= c <= '9' || c == '.' }

  function NumberEnd(json: string, k: nat): (end: nat)
    ensures end >= k
    decreases if k < |json| then |json| - k else 0
  {
    if InNumber(CharAt(json, k)) then NumberEnd(json, k + 1) else k
  }

  /** atomic: pos stands behind the first character of the value. */
  function Atomic(json: string, s: State, typ: char): State
    requires s.pos > 0
  {
    if typ == '0' then
      var end := NumberEnd(json, s.pos);
      s.(vtype := typ, pos := end, vstart := s.pos - 1, vlen := end - (s.pos - 1))
    else
      var end := StringEnd(json, s.pos);
      s.(vtype := typ, pos := end, vstart := s.pos, vlen := end - s.pos - 1)
  }

  function Accept(json: string, s: State, c: char): (State, Token) { (s, Token(c, "")) }

  function Value(json: string, s: State): (State, Token) { (s, Token(s.vtype, Substring(json, s.vstart, s.vlen))) }

  function Reject(s: State, error: nat): (State, Token) { (s.(error := error), BAD) }

  /** One call of jsonparse_next. */
  function Next(json: string, s: State): (State, Token) {
    var k := SkipSpace(json, s.pos);
    var c, t, s1 := CharAt(json, k), Top(s.stack), s.(pos := k + 1);
    if c == '{' || c == ':' then Accept(json, Push(s1, c), c)
    else if c == '}' then
      var s2 := if t == ':' && s.vtype != '\0' then Pop(s1) else s1;
      if Top(s2.stack) == '{' then Accept(json, Pop(s2), c) else Reject(s2, JSON_ERROR_SYNTAX)
    else if c == ']' then
      if t == '[' then Accept(json, Pop(s1), c) else Reject(s1, JSON_ERROR_UNEXPECTED_END_OF_ARRAY)
    else if c == ',' then
      if t == ':' && s.vtype != '\0' then Accept(json, Pop(s1), c)
      else if t == '[' then Accept(json, s1, c)
      else Reject(s1, JSON_ERROR_SYNTAX)
    else if c == '"' then
      if t == '{' || t == '[' || t == ':' then Value(json, Atomic(json, s1, if t == '{' then 'N' else '"'))
      else Reject(s1, JSON_ERROR_UNEXPECTED_STRING)
    else if c == '[' then
      if t == '{' || t == '[' || t == ':' then Accept(json, Push(s1, c), c) else Reject(s1, JSON_ERROR_UNEXPECTED_ARRAY)
    else if (t == ':' || t == '[') && '0' <= c <= '9' then Value(json, Atomic(json, s1, '0'))
    else (s1, BAD)
  }

  // ----- which characters are accepted where

  /** An object, an array, or a pair: what a value, or the name of a pair, may stand in. */
  predicate Holder(top: char) { top == '{' || top == '[' || top == ':' }

  /** A pair that has got a value is on top of the stack. */
  predicate PairDone(s: State) { Top(s.stack) == ':' && s.vtype != '\0' }

  /** The next character other than a blank is accepted. Opening an object and the colon are accepted anywhere. */
  predicate Admitted(s: State, c: char) {
    var top := Top(s.stack);
    if c == '{' || c == ':' then true
    else if c == '}' then top == '{' || (PairDone(s) && |s.stack| > 1 && s.stack[|s.stack| - 2] == '{')
    else if c == ']' then top == '['
    else if c == ',' then top == '[' || PairDone(s)
    else if c == '"' || c == '[' then Holder(top)
    else '0' <= c <= '9' && (top == ':' || top == '[')
  }

  /** The error reported for a character that is not accepted: syntax, unexpected end of an array, string or array; none
      for a character that begins no token, or a digit out of place. */
  function Complaint(c: char): nat {
    if c == '}' || c == ',' then 1 else if c == ']' then 3 else if c == '"' then 5 else if c == '[' then 2 else 0
  }

  lemma {:induction false} SkipsBlanks(json: string, k: nat)
    ensures var next := SkipSpace(json, k);
            && k <= next && (k <= |json| ==> next <= |json|)
            && (forall i :: k <= i < next ==> i < |json| && (json[i] == ' ' || json[i] == '\n'))
            && CharAt(json, next) != ' ' && CharAt(json, next) != '\n'
    decreases if k < |json| then |json| - k else 0
  {
    if k < |json| && (json[k] == ' ' || json[k] == '\n') {
      SkipsBlanks(json, k + 1);
    }
  }

  /** Blanks are passed over; the character behind them is accepted exactly where it is admitted, and leaves its error
      otherwise; the stack overflows exactly when something is opened on a full one. */
  lemma NextIff(json: string, s: State)
    ensures var (t, token) := Next(json, s);
            var c := CharAt(json, SkipSpace(json, s.pos));
            && (token != BAD <==> Admitted(s, c))
            && t.error == (if Admitted(s, c) || Complaint(c) == 0 then s.error else Complaint(c))
            && (t.overflow <==>
                  s.overflow || (Admitted(s, c) && (c == '{' || c == ':' || c == '[') && |s.stack| == 10))
  {
    hide SkipSpace, StringEnd, NumberEnd, Substring;
    SkipsBlanks(json, s.pos);
  }

  class Parser {
    const json: string
    const stack: array<char>
    var pos: nat
    var depth: nat
    var vstart: nat
    var vlen: nat
    var vtype: char
    var error: nat
    var overflow: bool

    ghost predicate Valid()
      reads this, stack
    {
      stack.Length == JSONPARSE_MAX_DEPTH && depth <= JSONPARSE_MAX_DEPTH
    }

    ghost function Abstract(): State
      reads this, stack
      requires Valid()
    {
      State(pos, stack[..depth], vtype, vstart, vlen, error, overflow)
    }

    /** jsonparse_setup, which leaves the type of the last value as it was. */
    constructor (json: string, vtype: char)
      ensures Valid() && fresh(stack) && this.json == json && Abstract() == State(0, [], vtype, 0, 0, 0, false)
    {
      this.json, this.vtype := json, vtype;
      stack := new char[JSONPARSE_MAX_DEPTH];
      pos, depth, vstart, vlen, error, overflow := 0, 0, 0, 0, 0, false;
    }

    method PushChar(c: char)
      requires Valid()
      modifies this, stack
      ensures Valid() && Abstract() == Push(old(Abstract()), c)
    {
      if depth < stack.Length {
        stack[depth] := c;
        depth := depth + 1;
      } else {
        overflow := true;
      }
      vtype := '\0';
    }

    method PopChar()
      requires Valid()
      modifies `depth
      ensures Valid() && Abstract() == Pop(old(Abstract()))
    {
      if depth > 0 {
        depth := depth - 1;
      }
    }

    method GetType() returns (c: char)
      requires Valid()
      ensures c == Top(Abstract().stack)
    {
      c := if depth == 0 then '\0' else stack[depth - 1];
    }

    method SkipBlanks()
      requires Valid()
      modifies `pos
      ensures pos == SkipSpace(json, old(pos))
    {
      while pos < |json| && (json[pos] == ' ' || json[pos] == '\n')
        invariant SkipSpace(json, pos) == SkipSpace(json, old(pos))
      {
        pos := pos + 1;
      }
    }

    method TakeAtom(typ: char)
      requires Valid() && pos > 0
      modifies `pos, `vstart, `vlen, `vtype
      ensures Valid() && Abstract() == Atomic(json, old(Abstract()), typ)
    {
      vstart, vtype := pos, typ;
      if typ == '0' {
        while InNumber(CharAt(json, pos))
          invariant pos >= vstart == old(pos) && vtype == typ && NumberEnd(json, pos) == NumberEnd(json, vstart)
          decreases |json| - pos
        {
          pos := pos + 1;
        }
        vstart := vstart - 1;
        vlen := pos - vstart;
      } else {
        while CharAt(json, pos) != '\0' && CharAt(json, pos) != '"'
          invariant pos >= vstart == old(pos) && vtype == typ && StringEnd(json, pos) == StringEnd(json, vstart)
          decreases |json| - pos
        {
          pos := pos + if json[pos] == '\\' then 2 else 1;
        }
        pos := pos + 1;
        vlen := pos - vstart - 1;
      }
    }

    /** jsonparse_next. */
    method NextToken() returns (token: Token)
      requires Valid()
      modifies this, stack
      ensures Valid() && (Abstract(), token) == Next(json, old(Abstract()))
    {
      hide Atomic, SkipSpace, StringEnd, NumberEnd, Substring, Push, Pop, Top;
      SkipBlanks();
      var c := CharAt(json, pos);
      var s := GetType();
      pos := pos + 1;
      token := Token(c, "");
      if c == '{' || c == ':' {
        PushChar(c);
      } else if c == '}' {
        if s == ':' && vtype != '\0' {
          PopChar();
          s := GetType();
        }
        if s == '{' {
          PopChar();
        } else {
          error, token := JSON_ERROR_SYNTAX, BAD;
        }
      } else if c == ']' {
        if s == '[' {
          PopChar();
        } else {
          error, token := JSON_ERROR_UNEXPECTED_END_OF_ARRAY, BAD;
        }
      } else if c == ',' {
        if s == ':' && vtype != '\0' {
          PopChar();
        } else if s != '[' {
          error, token := JSON_ERROR_SYNTAX, BAD;
        }
      } else if c == '"' {
        if s == '{' || s == '[' || s == ':' {
          TakeAtom(if s == '{' then 'N' else '"');
          token := Token(vtype, Substring(json, vstart, vlen));
        } else {
          error, token := JSON_ERROR_UNEXPECTED_STRING, BAD;
        }
      } else if c == '[' {
        if s == '{' || s == '[' || s == ':' {
          PushChar(c);
        } else {
          error, token := JSON_ERROR_UNEXPECTED_ARRAY, BAD;
        }
      } else if (s == ':' || s == '[') && '0' <= c <= '9' {
        TakeAtom('0');
        token := Token(vtype, Substring(json, vstart, vlen));
      } else {
        token := BAD;
      }
    }
  }
}
