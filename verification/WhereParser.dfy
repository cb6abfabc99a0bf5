/** The WHERE-clause parser of dep/apps/antelope/aql-parser.c. It reads infix tokens and emits
    prefix code by leaving gaps, shifting what was already emitted, and patching operators in. */
module WhereParser {
  import opened Bytes
  import opened Lvm
  import opened Machine
  import opened Clauses
  import opened Wrappers

  /** aql_status_t as the C code tests it: every value from 3 up is an error, so the 0 that
      parse_where passes on from a failed comparison is not one. */
  datatype AqlStatus = OK | SyntaxError | Zero {
    predicate Error() { SyntaxError? }
  }

  /** code[..end] is the old code[..start] followed by bytes; nothing went wrong. */
  ghost predicate Holding(code: seq<byte>, end: nat, before: seq<byte>, start: nat, bytes: seq<byte>) {
    start <= |before| && end == start + |bytes| <= |code| && code[..end] == before[..start] + bytes
  }

  class Parser {
    const p: Instance
    const tokens: seq<Token>
    var pos: nat
    var prev: nat
    var token: Token

    ghost predicate Valid()
      reads this, p
    {
      p.Valid() && prev <= pos <= |tokens|
    }

    constructor (p: Instance, tokens: seq<Token>)
      requires p.Valid()
      ensures Valid() && this.p == p && this.tokens == tokens && pos == 0
    {
      this.p := p;
      this.tokens := tokens;
      pos, prev, token := 0, 0, NoToken;
    }

    /** lexer_next. */
    method Next()
      requires Valid()
      modifies this
      ensures Valid() && prev == old(pos) && token == TokenAt(tokens, old(pos))
      ensures pos == if old(pos) < |tokens| then old(pos) + 1 else old(pos)
    {
      prev := pos;
      token := TokenAt(tokens, pos);
      if pos < |tokens| {
        pos := pos + 1;
      }
    }

    /** lexer_rewind. */
    method Rewind()
      requires Valid()
      modifies `pos
      ensures Valid() && pos == prev
    {
      pos := prev;
    }

    method ParseOperand(ghost t: Option<Term>) returns (status: AqlStatus)
      requires Valid() && (t.Some? ==> Spelled(tokens, pos, [TermToken(t.value)]))
      modifies this, p, p.code
      ensures Valid() && old(pos) <= pos && !status.Zero? && (status.OK? ==> old(pos) < pos)
              && (t.Some? ==> pos == old(pos) + 1)
      ensures p.values == old(p.values)
      ensures t.Some? ==>
                status.OK? && p.names == RegisterTerm(old(p.names), t.value) && p.error == old(p.error)
      ensures t.Some? && KnowsTerm(p.names, t.value) && old(p.end) + 12 <= p.code.Length ==>
                && p.overrun == old(p.overrun)
                && Holding(p.code[..], p.end, old(p.code[..]), old(p.end), EncodeOperand(Resolve(p.names, t.value)))
    {
      assert t.Some? ==> tokens[pos] == tokens[pos..pos + 1][0];
      Next();
      status := OK;
      match token
      case Identifier(name) =>
        p.RegisterVariable(name);
        p.SetVariable(name);
      case Integer(value) => p.SetOperand(Long(value));
      case Text =>
      case Float =>
      case _ => status := SyntaxError;
    }

    /** The parser's shift, set and set_end: patch an operator in at savedEnd. */
    method EmitOperator(kind: word, op: word, savedEnd: nat) returns (newEnd: nat)
      requires p.Valid()
      modifies p, p.code
      ensures p.Valid() && p.values == old(p.values) && p.names == old(p.names)
      ensures savedEnd < old(p.end) && old(p.end) + HEADER_SIZE <= p.code.Length ==>
                && newEnd == old(p.end) + HEADER_SIZE
                && p.overrun == old(p.overrun)
                && p.code[..newEnd] == old(p.code[..])[..savedEnd] + EncodeHeader(kind, op) +
                   old(p.code[..])[savedEnd..old(p.end)]
                && (newEnd < p.code.Length ==> p.end == newEnd && p.error == old(p.error))
    {
      ghost var before, oldEnd := p.code[..], p.end;
      newEnd := p.ShiftForOperator(savedEnd);
      p.SetOperator(kind, op);
      if savedEnd < oldEnd && oldEnd + HEADER_SIZE <= p.code.Length {
        PatchedShift(before, savedEnd, oldEnd, EncodeHeader(kind, op));
      }
      var _ := p.SetEnd(newEnd);
    }

    /** The side's identifiers have slots and its code fits into the buffer. */
    ghost predicate Fits(names: seq<string>, s: Side, start: nat) {
      KnowsSide(names, s) && start + |SideCode(names, s)| <= p.code.Length
    }

    /** The code of the side's first operand has been emitted. */
    ghost predicate Started(names: seq<string>, s: Side, start: nat, before: seq<byte>, overrun0: bool, error0: bool)
      reads p, p.code
    {
      && p.overrun == overrun0 && p.error == error0 && |before| == p.code.Length
      && Holding(p.code[..], p.end, before, start, EncodeOperand(Resolve(names, FirstTerm(s))))
    }

    /** bytes have been emitted at start; only a binary side that fills the buffer to the last byte
        makes set_end fail. */
    ghost predicate Emitted(bytes: seq<byte>, single: bool, start: nat, before: seq<byte>, overrun0: bool, error0: bool)
      reads p, p.code
    {
      && p.overrun == overrun0
      && Holding(p.code[..], start + |bytes|, before, start, bytes)
      && (start + |bytes| < p.code.Length || single ==> p.end == start + |bytes| && p.error == error0)
    }

    ghost predicate Finished(names: seq<string>, s: Side, start: nat, before: seq<byte>, overrun0: bool, error0: bool)
      reads p, p.code
    {
      Emitted(SideCode(names, s), s.Single?, start, before, overrun0, error0)
    }

    /** The rest of an operation, after its operator has been read. */
    method ParseOperation(op: ArithOp, savedEnd: nat, ghost s: Option<Side>, ghost names: seq<string>,
                          ghost before: seq<byte>, ghost overrun0: bool, ghost error0: bool)
      returns (status: AqlStatus, newEnd: nat)
      requires Valid()
      requires s.Some? ==> s.value.Binary? && s.value.op == op && Spelled(tokens, pos, [TermToken(s.value.right)])
      requires s.Some? ==> |names| <= VARIABLES && p.names == RegisterTerm(names, s.value.left)
      requires s.Some? && Fits(RegisterSide(names, s.value), s.value, savedEnd) ==>
                 Started(p.names, s.value, savedEnd, before, overrun0, error0)
      modifies this, p, p.code
      ensures Valid() && old(pos) <= pos && !status.Zero? && p.values == old(p.values)
      ensures s.Some? ==> status.OK? && pos == old(pos) + 1 && p.names == RegisterSide(names, s.value)
      ensures s.Some? && Fits(p.names, s.value, savedEnd) ==>
                Finished(p.names, s.value, savedEnd, before, overrun0, error0)
      decreases |tokens| - pos, 3
    {
      newEnd := 0;
      ghost var fits := s.Some? && Fits(RegisterSide(names, s.value), s.value, savedEnd);
      ghost var middle, end0, names1 := p.code[..], p.end, p.names;
      if fits {
        SideSize(RegisterSide(names, s.value), s.value);
      }
      status := ParseOperand(if s.Some? then Some(s.value.right) else None);
      if status.Error() {
        status := ParseExpr(None);
        if status.Error() {
          return;
        }
      }
      ghost var code := p.code[..];
      newEnd := EmitOperator(ARITH_OP, op.Code(), savedEnd);
      if fits {
        assert code[..end0 + 12] == middle[..end0] + EncodeOperand(Resolve(p.names, s.value.right));
        BinaryEmitted(s.value, names, before, savedEnd, middle, code, p.code[..]);
      }
    }

    /** The first operand of an expression, or a parenthesised expression. */
    method ParseFirst(ghost s: Option<Side>) returns (status: AqlStatus)
      requires Valid()
      requires s.Some? ==> Spelled(tokens, pos, SideTokens(s.value))
      modifies this, p, p.code
      ensures Valid() && old(pos) <= pos && !status.Zero? && (status.OK? ==> old(pos) < pos)
              && p.values == old(p.values)
      ensures s.Some? ==> status.OK? && pos == old(pos) + 1 && p.names == RegisterTerm(old(p.names), FirstTerm(s.value))
      ensures s.Some? && Fits(RegisterSide(old(p.names), s.value), s.value, old(p.end)) ==>
                Started(p.names, s.value, old(p.end), old(p.code[..]), old(p.overrun), old(p.error))
      decreases |tokens| - pos, 1
    {
      ghost var names0 := p.names;
      if s.Some? {
        SideSize(RegisterSide(names0, s.value), s.value);
        assert SideTokens(s.value)[0] == TermToken(FirstTerm(s.value)) == tokens[pos];
        if Fits(RegisterSide(names0, s.value), s.value, p.end) {
          FirstKnown(names0, s.value);
        }
      }
      Next();
      if token.LeftParen? {
        status := ParseExpr(None);
        if status.Error() {
          return;
        }
        Next();
        if !token.RightParen? {
          return SyntaxError;
        }
      } else {
        Rewind();
        status := ParseOperand(if s.Some? then Some(FirstTerm(s.value)) else None);
      }
    }

    method ParseExpr(ghost s: Option<Side>) returns (status: AqlStatus)
      requires Valid()
      requires s.Some? ==> Spelled(tokens, pos, SideTokens(s.value)) && ExprEnds(tokens, pos + |SideTokens(s.value)|)
      modifies this, p, p.code
      ensures Valid() && old(pos) <= pos && !status.Zero? && (status.OK? ==> old(pos) < pos)
              && p.values == old(p.values)
      ensures s.Some? ==>
                && status.OK? && pos == old(pos) + |SideTokens(s.value)|
                && p.names == RegisterSide(old(p.names), s.value)
      ensures s.Some? && Fits(p.names, s.value, old(p.end)) ==>
                Finished(p.names, s.value, old(p.end), old(p.code[..]), old(p.overrun), old(p.error))
      decreases |tokens| - pos, 2
    {
      hide SideTokens, SideCode, EncodeOperand, EncodeHeader, KnowsSide, Spelled, Resolve;
      ghost var start, pos0, names0, before, error0, overrun0 := p.end, pos, p.names, p.code[..], p.error, p.overrun;
      ghost var names2 := if s.None? then [] else RegisterSide(p.names, s.value);
      ghost var fits := s.Some? && Fits(names2, s.value, start);
      var savedEnd := p.end;
      status := ParseFirst(s);
      if status.Error() {
        return;
      }
      if s.Some? {
        SideSpelled(tokens, pos0, s.value);
        SideSize(names2, s.value);
      }
      while true
        invariant Valid() && pos0 < pos && p.values == old(p.values)
        invariant s.Some? ==> pos == pos0 + 1 || (s.value.Binary? && pos == pos0 + 3)
        invariant s.Some? && pos == pos0 + 1 ==>
                    p.names == RegisterTerm(names0, FirstTerm(s.value)) && savedEnd == start
        invariant fits && pos == pos0 + 1 ==> Started(p.names, s.value, start, before, overrun0, error0)
        invariant s.Some? && pos == pos0 + 3 ==> p.names == names2
        invariant fits && pos == pos0 + 3 ==> Finished(names2, s.value, start, before, overrun0, error0)
        decreases |tokens| - pos
      {
        Next();
        if token.RightParen? {
          break;
        }
        if !token.Arithmetic? {
          savedEnd := p.end;
          Rewind();
          break;
        }
        status, savedEnd := ParseOperation(token.op, savedEnd, s, names0, before, overrun0, error0);
        if status.Error() {
          return SyntaxError;
        }
      }
      return OK;
    }

    /** Leave a gap for the relation and emit the left side after it. */
    method ParseLeft(ghost c: Option<Comparison>) returns (status: AqlStatus, savedEnd: nat)
      requires Valid()
      requires c.Some? ==> Spelled(tokens, pos, ComparisonTokens(c.value))
      modifies this, p, p.code
      ensures Valid() && old(pos) <= pos && !status.Zero? && (status.OK? ==> old(pos) < pos)
              && p.values == old(p.values)
      ensures c.Some? ==>
                && status.OK? && pos == old(pos) + |SideTokens(c.value.lhs)|
                && p.names == RegisterSide(old(p.names), c.value.lhs)
      ensures c.Some? && FitsComparison(RegisterComparison(old(p.names), c.value), c.value, old(p.end)) ==>
                var l := SideCode(p.names, c.value.lhs);
                && p.end == old(p.end) && savedEnd == p.end + HEADER_SIZE + |l|
                && p.overrun == old(p.overrun) && p.error == old(p.error)
                && Holding(p.code[..], savedEnd, old(p.code[..]), old(p.end) + HEADER_SIZE, l)
      decreases |tokens| - pos, 3
    {
      hide SideCode, ComparisonCode, EncodeHeader, RegisterSide, RegisterComparison, KnowsSide, KnowsComparison,
        SideTokens, ComparisonTokens, ExprEnds, Spelled;
      if c.Some? {
        ComparisonSpelled(tokens, pos, c.value);
        if FitsComparison(RegisterComparison(p.names, c.value), c.value, p.end) {
          ComparisonFits(p.names, c.value);
        }
      }
      savedEnd := p.JumpToOperand();
      status := ParseExpr(if c.Some? then Some(c.value.lhs) else None);
      if !status.Error() {
        savedEnd := p.SetEnd(savedEnd);
      }
    }

    /** Read the relation and patch it into the gap. */
    method ParseRelation(savedEnd: nat) returns (status: AqlStatus)
      requires Valid()
      modifies this, p, p.code
      ensures Valid() && old(pos) <= pos && !status.Zero? && p.values == old(p.values) && p.names == old(p.names)
      ensures var t := TokenAt(tokens, old(pos));
              t.Relational? ==>
                && status.OK? && pos == old(pos) + 1
                && (old(p.end) + HEADER_SIZE <= p.code.Length && savedEnd < p.code.Length ==>
                      && p.code[..] == Overwrite(old(p.code[..]), old(p.end), EncodeHeader(CMP_OP, t.rel.Code()))
                      && p.end == savedEnd && p.overrun == old(p.overrun) && p.error == old(p.error))
    {
      Next();
      if !token.Relational? {
        return SyntaxError;
      }
      p.SetOperator(CMP_OP, token.rel.Code());
      var _ := p.SetEnd(savedEnd);
      status := OK;
    }

    ghost predicate FitsComparison(names: seq<string>, c: Comparison, start: nat) {
      KnowsComparison(names, c) && start + |ComparisonCode(names, c)| <= p.code.Length
    }

    /** The right side, after the relation has been patched in. */
    method ParseRight(ghost c: Option<Comparison>, ghost names: seq<string>, ghost start: nat, ghost before: seq<byte>,
                      ghost code1: seq<byte>, ghost overrun0: bool, ghost error0: bool) returns (status: AqlStatus)
      requires Valid() && |names| <= VARIABLES
      requires c.Some? ==>
                 && Spelled(tokens, pos, SideTokens(c.value.rhs)) && ExprEnds(tokens, pos + |SideTokens(c.value.rhs)|)
                 && p.names == RegisterSide(names, c.value.lhs)
      requires c.Some? && FitsComparison(RegisterComparison(names, c.value), c.value, start) ==>
                 var l := SideCode(p.names, c.value.lhs);
                 && |code1| == |before| == p.code.Length && p.end == start + HEADER_SIZE + |l|
                 && p.overrun == overrun0 && p.error == error0
                 && Holding(code1, p.end, before, start + HEADER_SIZE, l)
                 && p.code[..] == Overwrite(code1, start, EncodeHeader(CMP_OP, c.value.rel.Code()))
      modifies this, p, p.code
      ensures Valid() && old(pos) <= pos && !status.Zero? && p.values == old(p.values)
      ensures c.Some? ==>
                && status.OK? && pos == old(pos) + |SideTokens(c.value.rhs)|
                && p.names == RegisterComparison(names, c.value)
      ensures c.Some? && FitsComparison(p.names, c.value, start) ==>
                Emitted(ComparisonCode(p.names, c.value), c.value.rhs.Single?, start, before, overrun0, error0)
      decreases |tokens| - pos, 3
    {
      hide SideCode, ComparisonCode, EncodeHeader, RegisterSide, KnowsSide, SideTokens, ExprEnds, Spelled;
      ghost var fits := c.Some? && FitsComparison(RegisterComparison(names, c.value), c.value, start);
      ghost var code2 := p.code[..];
      if fits {
        ComparisonFits(names, c.value);
      }
      status := ParseExpr(if c.Some? then Some(c.value.rhs) else None);
      if fits {
        ComparisonEmitted(names, c.value, before, start, code1, code2, p.code[..]);
      }
    }

    method ParseComparison(ghost c: Option<Comparison>) returns (status: AqlStatus)
      requires Valid()
      requires c.Some? ==>
                 && Spelled(tokens, pos, ComparisonTokens(c.value))
                 && ExprEnds(tokens, pos + |ComparisonTokens(c.value)|)
      modifies this, p, p.code
      ensures Valid() && old(pos) <= pos && !status.Zero? && (status.OK? ==> old(pos) < pos)
              && p.values == old(p.values)
      ensures c.Some? ==>
                && status.OK? && pos == old(pos) + |ComparisonTokens(c.value)|
                && p.names == RegisterComparison(old(p.names), c.value)
      ensures c.Some? && FitsComparison(p.names, c.value, old(p.end)) ==>
                Emitted(ComparisonCode(p.names, c.value), c.value.rhs.Single?, old(p.end), old(p.code[..]),
                        old(p.overrun), old(p.error))
      decreases |tokens| - pos, 4
    {
      hide SideCode, ComparisonCode, EncodeHeader, RegisterComparison, RegisterSide, SideTokens, ExprEnds, Spelled,
        Emitted, KnowsComparison;
      ghost var start, before, names0, overrun0, error0 := p.end, p.code[..], p.names, p.overrun, p.error;
      if c.Some? {
        ComparisonSpelled(tokens, pos, c.value);
        if FitsComparison(RegisterComparison(names0, c.value), c.value, start) {
          ComparisonFits(names0, c.value);
        }
      }
      var savedEnd;
      status, savedEnd := ParseLeft(c);
      if status.Error() {
        return;
      }
      ghost var code1 := p.code[..];
      status := ParseRelation(savedEnd);
      if status.Error() {
        return;
      }
      status := ParseRight(c, names0, start, before, code1, overrun0, error0);
    }

    /** The comparison that starts what is left of the clause has been emitted, after done; names is
        the variable table the whole clause will end up with. */
    ghost predicate Reached(names: seq<string>, c: Clause, rest: Clause, done: seq<byte>, overrun0: bool, error0: bool)
      reads p, p.code
    {
      && ClauseCode(names, c) == done + ClauseCode(names, rest) && Knows(names, rest)
      && Emitted(done + ComparisonCode(names, rest.cmp), rest.cmp.rhs.Single?, 0, p.code[..], overrun0, error0)
    }

    /** Exactly done has been emitted, and it leaves room for the code of what is left. */
    ghost predicate Patched(names: seq<string>, c: Clause, rest: Clause, done: seq<byte>, overrun0: bool, error0: bool)
      reads p, p.code
    {
      && ClauseCode(names, c) == done + ClauseCode(names, rest) && Knows(names, rest)
      && p.end == |done| <= p.code.Length && p.code[..p.end] == done && p.overrun == overrun0 && p.error == error0
    }

    ghost predicate FitsClause(names: seq<string>, c: Clause) {
      Knows(names, c) && |ClauseCode(names, c)| <= p.code.Length
    }

    /** parse_comparison on the first comparison of what is left of the clause. */
    method ParseHead(ghost c: Option<Clause>, ghost rest: Clause, ghost names: seq<string>, ghost done: seq<byte>,
                     ghost overrun0: bool, ghost error0: bool)
      returns (status: AqlStatus)
      requires Valid()
      requires c.Some? ==> Spelled(tokens, pos, ClauseTokens(rest)) && ClauseEnds(tokens, pos + |ClauseTokens(rest)|)
                           && RegisterClause(p.names, rest) == names
      requires c.Some? && FitsClause(names, c.value) ==> Patched(names, c.value, rest, done, overrun0, error0)
      modifies this, p, p.code
      ensures Valid() && old(pos) <= pos && !status.Zero? && (status.OK? ==> old(pos) < pos)
              && p.values == old(p.values)
      ensures c.Some? ==> status.OK? && Spelled(tokens, pos, TailTokens(rest))
                          && pos + |TailTokens(rest)| == old(pos) + |ClauseTokens(rest)|
                          && RegisterTail(p.names, rest) == names
      ensures c.Some? && FitsClause(names, c.value) ==> Reached(names, c.value, rest, done, overrun0, error0)
      decreases |tokens| - pos, 5
    {
      hide ClauseCode, ComparisonCode, ComparisonTokens, ClauseTokens, TailTokens, RegisterComparison, RegisterClause,
        RegisterTail, Knows, KnowsComparison, Spelled, ClauseEnds, ExprEnds;
      if c.Some? {
        ClauseSpelled(tokens, pos, rest);
        if FitsClause(names, c.value) {
          ComparisonFinal(p.names, rest, names);
        } else {
          TailRegistered(p.names, rest);
        }
      }
      status := ParseComparison(if c.Some? then Some(rest.cmp) else None);
    }

    /** The operator of a connective is patched in before the comparison emitted last. */
    method EmitConnective(con: Connective, savedEnd: nat, ghost c: Option<Clause>, ghost rest: Clause,
                          ghost names: seq<string>, ghost done: seq<byte>, ghost overrun0: bool, ghost error0: bool)
      returns (newEnd: nat)
      requires p.Valid()
      requires c.Some? ==> rest.Chain? && rest.con == con
      requires c.Some? && FitsClause(names, c.value) ==>
                 Reached(names, c.value, rest, done, overrun0, error0) && savedEnd == |done|
      modifies p, p.code
      ensures p.Valid() && p.values == old(p.values) && p.names == old(p.names)
      ensures c.Some? && FitsClause(names, c.value) ==>
                var done' := done + EncodeHeader(CMP_OP, con.Code()) + ComparisonCode(names, rest.cmp);
                Patched(names, c.value, rest.rest, done', overrun0, error0) && newEnd == |done'|
    {
      hide ClauseCode, ComparisonCode, EncodeHeader, Knows;
      ghost var fits := c.Some? && FitsClause(names, c.value);
      ghost var code0, end0 := p.code[..], p.end;
      if fits {
        ChainFits(names, c.value, rest, done);
      }
      newEnd := EmitOperator(CMP_OP, con.Code(), savedEnd);
      if fits {
        OperatorBetween(code0, p.code[..], done, EncodeHeader(CMP_OP, con.Code()), ComparisonCode(names, rest.cmp));
      }
    }

    /** One more comparison, or a parenthesised clause, after a connective. */
    method ParseNext(con: Connective, savedEnd: nat, ghost c: Option<Clause>, ghost rest: Clause,
                     ghost names: seq<string>, ghost done: seq<byte>, ghost overrun0: bool, ghost error0: bool)
      returns (status: AqlStatus, newEnd: nat)
      requires Valid() && 0 < pos
      requires c.Some? ==> rest.Chain? && rest.con == con && Spelled(tokens, pos, ClauseTokens(rest.rest))
                           && ClauseEnds(tokens, pos + |ClauseTokens(rest.rest)|)
                           && RegisterClause(p.names, rest.rest) == names
      requires c.Some? && FitsClause(names, c.value) ==>
                 Reached(names, c.value, rest, done, overrun0, error0) && savedEnd == |done|
      modifies this, p, p.code
      ensures Valid() && old(pos) <= pos && p.values == old(p.values)
      ensures c.Some? ==> status.OK? && Spelled(tokens, pos, TailTokens(rest.rest))
                          && pos + |TailTokens(rest.rest)| == old(pos) + |ClauseTokens(rest.rest)|
                          && RegisterTail(p.names, rest.rest) == names
      ensures c.Some? && FitsClause(names, c.value) ==>
                var done' := done + EncodeHeader(CMP_OP, con.Code()) + ComparisonCode(names, rest.cmp);
                Reached(names, c.value, rest.rest, done', overrun0, error0) && newEnd == |done'|
      decreases |tokens| - pos, 6
    {
      hide ClauseCode, ComparisonCode, ClauseTokens, TailTokens, RegisterClause, RegisterTail, Spelled, ClauseEnds,
        Knows, Emitted, Patched, Reached, FitsClause;
      if c.Some? {
        ClauseSpelled(tokens, pos, rest.rest);
      }
      newEnd := EmitConnective(con, savedEnd, c, rest, names, done, overrun0, error0);
      ghost var done' := done + EncodeHeader(CMP_OP, con.Code()) + ComparisonCode(names, rest.cmp);
      ghost var next := if c.Some? then rest.rest else rest;
      Next();
      if token.LeftParen? {
        status := ParseWhere(None);
        if status.Error() {
          return SyntaxError, newEnd;
        }
        Next();
        if !token.RightParen? {
          return SyntaxError, newEnd;
        }
        status := OK;
      } else {
        Rewind();
        status := ParseHead(c, next, names, done', overrun0, error0);
        if status.Error() {
          return Zero, newEnd;
        }
      }
    }

    /** What is left to read is a connective and a clause, or nothing. */
    ghost predicate AtTail(c: Clause, rest: Clause, names: seq<string>, pos0: nat)
      reads this, p
    {
      && Spelled(tokens, pos, TailTokens(rest)) && ClauseEnds(tokens, pos + |TailTokens(rest)|)
      && RegisterTail(p.names, rest) == names && pos + |TailTokens(rest)| == pos0 + |ClauseTokens(c)|
      && EndsSingle(rest) == EndsSingle(c)
    }

    /** One round of parse_where's loop: stop, or read a connective and what follows it. */
    method ParseTail(savedEnd: nat, ghost c: Option<Clause>, ghost rest: Clause, ghost names: seq<string>,
                     ghost done: seq<byte>, ghost pos0: nat, ghost overrun0: bool, ghost error0: bool)
      returns (more: bool, status: AqlStatus, newEnd: nat, ghost rest': Clause, ghost done': seq<byte>)
      requires Valid()
      requires c.Some? ==> AtTail(c.value, rest, names, pos0)
      requires c.Some? && FitsClause(names, c.value) ==>
                 Reached(names, c.value, rest, done, overrun0, error0) && savedEnd == |done|
      modifies this, p, p.code
      ensures Valid() && old(pos) <= pos && (more ==> old(pos) < pos) && p.values == old(p.values)
      ensures c.Some? ==> status.OK? && AtTail(c.value, rest', names, pos0) && (!more ==> rest'.Last?)
      ensures c.Some? && FitsClause(names, c.value) ==>
                Reached(names, c.value, rest', done', overrun0, error0) && newEnd == |done'|
      decreases |tokens| - pos, 7
    {
      hide ClauseCode, ComparisonCode, ClauseTokens, TailTokens, RegisterClause, RegisterTail, Spelled, ClauseEnds,
        Knows, Reached, FitsClause, EncodeHeader;
      if c.Some? {
        TailSpelled(tokens, pos, p.names, rest);
      }
      rest', done', newEnd := rest, done, savedEnd;
      Next();
      if !token.Logical? {
        Rewind();
        return false, OK, savedEnd, rest, done;
      }
      if c.Some? {
        rest', done' := rest.rest, done + EncodeHeader(CMP_OP, token.con.Code()) + ComparisonCode(names, rest.cmp);
      }
      more := true;
      status, newEnd := ParseNext(token.con, savedEnd, c, rest, names, done, overrun0, error0);
    }

    /** parse_where on a fresh instance: the tokens of a clause become the clause's prefix code. */
    method ParseWhere(ghost c: Option<Clause>) returns (status: AqlStatus)
      requires Valid()
      requires c.Some? ==>
                 && Spelled(tokens, pos, ClauseTokens(c.value))
                 && ClauseEnds(tokens, pos + |ClauseTokens(c.value)|)
      requires c.Some? ==> p.end == 0
      modifies this, p, p.code
      ensures Valid() && old(pos) <= pos && p.values == old(p.values)
      ensures c.Some? ==>
                && status.OK? && pos == old(pos) + |ClauseTokens(c.value)|
                && p.names == RegisterClause(old(p.names), c.value)
      ensures c.Some? && FitsClause(p.names, c.value) ==> Compiled(p.names, c.value, old(p.overrun), old(p.error))
      decreases |tokens| - pos, 8
    {
      ghost var names := if c.Some? then RegisterClause(p.names, c.value) else [];
      ghost var rest, done := if c.Some? then c.value else SomeClause(), [];
      ghost var pos0, overrun0, error0 := pos, p.overrun, p.error;
      assert c.Some? && FitsClause(names, c.value) ==> Patched(names, c.value, rest, done, overrun0, error0);
      status := ParseHead(c, rest, names, done, overrun0, error0);
      if status.Error() {
        return;
      }
      hide Reached, Compiled, FitsClause;
      var savedEnd, more := 0, true;
      while more
        invariant Valid() && pos0 < pos && p.values == old(p.values)
        invariant c.Some? ==> AtTail(c.value, rest, names, pos0) && (!more ==> rest.Last?)
        invariant c.Some? && FitsClause(names, c.value) ==>
                    Reached(names, c.value, rest, done, overrun0, error0) && savedEnd == |done|
        decreases |tokens| - pos, more
      {
        more, status, savedEnd, rest, done := ParseTail(savedEnd, c, rest, names, done, pos0, overrun0, error0);
        if !status.OK? {
          return;
        }
      }
      if c.Some? && FitsClause(names, c.value) {
        ReachedLast(names, c.value, rest, done, overrun0, error0);
      }
      status := OK;
    }

    lemma ReachedLast(names: seq<string>, c: Clause, rest: Clause, done: seq<byte>, overrun0: bool, error0: bool)
      requires Reached(names, c, rest, done, overrun0, error0) && rest.Last? && EndsSingle(rest) == EndsSingle(c)
      ensures Compiled(names, c, overrun0, error0)
    {
      assert ClauseCode(names, rest) == ComparisonCode(names, rest.cmp);
    }

    /** The buffer starts with the code of the clause; the cursor is behind it unless a binary side
        ends at the very end of the buffer. */
    ghost predicate Compiled(names: seq<string>, c: Clause, overrun0: bool, error0: bool)
      reads p, p.code
    {
      Emitted(ClauseCode(names, c), EndsSingle(c), 0, p.code[..], overrun0, error0)
    }
  }

  // ----- lemmas about clauses that are partly read or partly emitted

  function SomeClause(): Clause { Last(Comparison(Equal, Single(Number(0)), Single(Number(0)))) }

  function TailTokens(c: Clause): seq<Token> { if c.Last? then [] else [Logical(c.con)] + ClauseTokens(c.rest) }

  function RegisterTail(names: seq<string>, c: Clause): seq<string> {
    if c.Last? then names else RegisterClause(names, c.rest)
  }

  predicate EndsSingle(c: Clause) { if c.Last? then c.cmp.rhs.Single? else EndsSingle(c.rest) }

  lemma ClauseSpelled(tokens: seq<Token>, pos: nat, c: Clause)
    requires Spelled(tokens, pos, ClauseTokens(c)) && ClauseEnds(tokens, pos + |ClauseTokens(c)|)
    ensures var mid := pos + |ComparisonTokens(c.cmp)|;
            && Spelled(tokens, pos, ComparisonTokens(c.cmp)) && ExprEnds(tokens, mid)
            && !tokens[pos].LeftParen?
            && Spelled(tokens, mid, TailTokens(c)) && mid + |TailTokens(c)| == pos + |ClauseTokens(c)|
  {
    hide ComparisonTokens, ClauseTokens, SideTokens, Spelled, TailTokens;
    ClauseSplit(c);
    SpelledSplit(tokens, pos, ComparisonTokens(c.cmp), TailTokens(c));
    ComparisonSpelled(tokens, pos, c.cmp);
    FirstToken(tokens, pos, c.cmp.lhs);
    TailStarts(tokens, pos + |ComparisonTokens(c.cmp)|, c);
  }

  lemma TailStarts(tokens: seq<Token>, mid: nat, c: Clause)
    requires Spelled(tokens, mid, TailTokens(c)) && ClauseEnds(tokens, mid + |TailTokens(c)|)
    ensures ExprEnds(tokens, mid)
  {
    hide ClauseTokens;
    if c.Chain? {
      assert tokens[mid] == tokens[mid..mid + |TailTokens(c)|][0] == Logical(c.con);
    }
  }

  lemma ClauseSplit(c: Clause)
    ensures ClauseTokens(c) == ComparisonTokens(c.cmp) + TailTokens(c)
  {
  }

  lemma FirstToken(tokens: seq<Token>, pos: nat, s: Side)
    requires Spelled(tokens, pos, SideTokens(s))
    ensures !tokens[pos].LeftParen?
  {
    assert tokens[pos] == tokens[pos..pos + |SideTokens(s)|][0];
  }

  lemma SpelledSplit(tokens: seq<Token>, pos: nat, a: seq<Token>, b: seq<Token>)
    requires Spelled(tokens, pos, a + b)
    ensures Spelled(tokens, pos, a) && Spelled(tokens, pos + |a|, b)
  {
    assert tokens[pos..pos + |a|] == (a + b)[..|a|];
    assert tokens[pos + |a|..pos + |a| + |b|] == (a + b)[|a|..];
  }

  lemma TailSpelled(tokens: seq<Token>, pos: nat, names: seq<string>, c: Clause)
    requires Spelled(tokens, pos, TailTokens(c)) && ClauseEnds(tokens, pos + |TailTokens(c)|)
    ensures c.Last? <==> !TokenAt(tokens, pos).Logical?
    ensures c.Last? ==> TailTokens(c) == [] && RegisterTail(names, c) == names
    ensures c.Chain? ==> TokenAt(tokens, pos) == Logical(c.con) && Spelled(tokens, pos + 1, ClauseTokens(c.rest))
                         && pos + |TailTokens(c)| == pos + 1 + |ClauseTokens(c.rest)|
                         && RegisterTail(names, c) == RegisterClause(names, c.rest)
  {
    if c.Chain? {
      var part := tokens[pos..pos + |TailTokens(c)|];
      assert tokens[pos] == part[0];
      assert tokens[pos + 1..pos + |TailTokens(c)|] == part[1..];
    }
  }

  lemma TailRegistered(names: seq<string>, c: Clause)
    ensures RegisterTail(RegisterComparison(names, c.cmp), c) == RegisterClause(names, c)
  {
  }

  /** The code of a comparison, emitted with the table known at that time, is its final code. */
  lemma ComparisonFinal(names: seq<string>, c: Clause, final: seq<string>)
    requires |names| <= VARIABLES && RegisterClause(names, c) == final && Knows(final, c)
    ensures var names1 := RegisterComparison(names, c.cmp);
            && KnowsComparison(names1, c.cmp) && ComparisonCode(names1, c.cmp) == ComparisonCode(final, c.cmp)
            && RegisterTail(names1, c) == final
            && |ComparisonCode(final, c.cmp)| <= |ClauseCode(final, c)|
  {
    var names0 := RegisterSide(names, c.cmp.lhs);
    var names1 := RegisterComparison(names, c.cmp);
    SideGrows(names0, c.cmp.rhs);
    if c.Chain? {
      ClauseGrows(names1, c.rest);
    }
    SideKnownAtOnce(names, c.cmp.lhs, final);
    SideKnownAtOnce(names0, c.cmp.rhs, final);
    SideStable(names0, names1, c.cmp.lhs);
    SideStable(names0, final, c.cmp.lhs);
    SideStable(names1, final, c.cmp.rhs);
  }

  lemma ChainFits(names: seq<string>, c: Clause, rest: Clause, done: seq<byte>)
    requires rest.Chain? && ClauseCode(names, c) == done + ClauseCode(names, rest) && Knows(names, rest)
    ensures var h, cc := EncodeHeader(CMP_OP, rest.con.Code()), ComparisonCode(names, rest.cmp);
            && ClauseCode(names, c) == (done + h + cc) + ClauseCode(names, rest.rest)
            && Knows(names, rest.rest) && |h| == 8 && |cc| > 0 && |ClauseCode(names, rest.rest)| > 0
  {
  }

  lemma OperatorBetween(code0: seq<byte>, code1: seq<byte>, done: seq<byte>, h: seq<byte>, cc: seq<byte>)
    requires |done| + |cc| <= |code0| && |done| + |h| + |cc| <= |code1|
    requires code0[..|done| + |cc|] == done + cc
    requires code1[..|done| + |h| + |cc|] == code0[..|done|] + h + code0[|done|..|done| + |cc|]
    ensures code1[..|done| + |h| + |cc|] == done + h + cc
  {
    assert code0[..|done|] == code0[..|done| + |cc|][..|done|];
    assert code0[|done|..|done| + |cc|] == code0[..|done| + |cc|][|done|..];
  }

  lemma ComparisonSpelled(tokens: seq<Token>, pos: nat, c: Comparison)
    requires Spelled(tokens, pos, ComparisonTokens(c))
    ensures var mid := pos + |SideTokens(c.lhs)|;
            && Spelled(tokens, pos, SideTokens(c.lhs)) && ExprEnds(tokens, mid)
            && mid < |tokens| && tokens[mid] == Relational(c.rel) && Spelled(tokens, mid + 1, SideTokens(c.rhs))
  {
    var l, r := SideTokens(c.lhs), SideTokens(c.rhs);
    var part := tokens[pos..pos + |l| + 1 + |r|];
    assert part == l + [Relational(c.rel)] + r;
    assert tokens[pos..pos + |l|] == part[..|l|];
    assert tokens[pos + |l|] == part[|l|];
    assert tokens[pos + |l| + 1..pos + |l| + 1 + |r|] == part[|l| + 1..];
  }

  lemma ComparisonFits(names: seq<string>, c: Comparison)
    requires |names| <= VARIABLES && KnowsComparison(RegisterComparison(names, c), c)
    ensures var names1 := RegisterSide(names, c.lhs);
            var names2 := RegisterComparison(names, c);
            && KnowsSide(names1, c.lhs) && KnowsSide(names2, c.rhs)
            && SideCode(names1, c.lhs) == SideCode(names2, c.lhs)
            && ComparisonCode(names2, c) ==
               EncodeHeader(CMP_OP, c.rel.Code()) + (SideCode(names1, c.lhs) + SideCode(names2, c.rhs))
            && |SideCode(names1, c.lhs)| >= 12 && |SideCode(names2, c.rhs)| >= 12
  {
    var names1 := RegisterSide(names, c.lhs);
    var names2 := RegisterComparison(names, c);
    SideGrows(names1, c.rhs);
    SideKnownAtOnce(names, c.lhs, names2);
    SideStable(names1, names2, c.lhs);
    SideSize(names1, c.lhs);
    SideSize(names2, c.rhs);
  }

  /** Gap, left side, patched operator, right side: the code of the comparison. */
  lemma ComparisonEmitted(names: seq<string>, c: Comparison, before: seq<byte>, start: nat,
                          code1: seq<byte>, code2: seq<byte>, code3: seq<byte>)
    requires |names| <= VARIABLES && KnowsComparison(RegisterComparison(names, c), c)
    requires |code1| == |code2| == |code3| == |before|
    requires var names1 := RegisterSide(names, c.lhs);
             var names2 := RegisterComparison(names, c);
             var l := SideCode(names1, c.lhs);
             var mid := start + 8 + |l|;
             && Holding(code1, mid, before, start + 8, l)
             && code2 == Overwrite(code1, start, EncodeHeader(CMP_OP, c.rel.Code()))
             && Holding(code3, mid + |SideCode(names2, c.rhs)|, code2, mid, SideCode(names2, c.rhs))
    ensures var names2 := RegisterComparison(names, c);
            Holding(code3, start + |ComparisonCode(names2, c)|, before, start, ComparisonCode(names2, c))
  {
    hide SideCode, ComparisonCode, EncodeHeader, RegisterSide, RegisterComparison, KnowsComparison;
    ComparisonFits(names, c);
    ThreeParts(before, start, EncodeHeader(CMP_OP, c.rel.Code()), SideCode(RegisterSide(names, c.lhs), c.lhs),
               SideCode(RegisterComparison(names, c), c.rhs), code1, code2, code3);
  }

  lemma ThreeParts(before: seq<byte>, start: nat, h: seq<byte>, l: seq<byte>, r: seq<byte>,
                   code1: seq<byte>, code2: seq<byte>, code3: seq<byte>)
    requires |code1| == |code2| == |code3| == |before| && |h| == 8 && start + 8 + |l| <= |before|
    requires Holding(code1, start + 8 + |l|, before, start + 8, l) && code2 == Overwrite(code1, start, h)
    requires Holding(code3, start + 8 + |l| + |r|, code2, start + 8 + |l|, r)
    ensures Holding(code3, start + |h + (l + r)|, before, start, h + (l + r))
  {
    assert code1[..start] == code1[..start + 8 + |l|][..start] == before[..start];
    assert code1[start + 8..start + 8 + |l|] == code1[..start + 8 + |l|][start + 8..] == l;
    assert code2[..start + 8 + |l|] == before[..start] + (h + l);
    assert before[..start] + (h + l) + r == before[..start] + (h + (l + r));
  }

  lemma SideSpelled(tokens: seq<Token>, pos: nat, s: Side)
    requires Spelled(tokens, pos, SideTokens(s))
    ensures |SideTokens(s)| == if s.Single? then 1 else 3
    ensures s.Binary? ==> tokens[pos + 1] == Arithmetic(s.op) && Spelled(tokens, pos + 2, [TermToken(s.right)])
  {
    var part := tokens[pos..pos + |SideTokens(s)|];
    assert part == SideTokens(s);
    if s.Binary? {
      assert tokens[pos + 1] == part[1] && tokens[pos + 2] == part[2];
    }
  }

  function FirstTerm(s: Side): Term { if s.Single? then s.term else s.left }

  lemma FirstKnown(names: seq<string>, s: Side)
    requires |names| <= VARIABLES && KnowsSide(RegisterSide(names, s), s)
    ensures KnowsTerm(RegisterTerm(names, FirstTerm(s)), FirstTerm(s))
  {
    match s
    case Single(t) =>
    case Binary(_, l, r) =>
      RegisterGrowsTerm(RegisterTerm(names, l), r);
      KnownAtOnce(names, l, RegisterSide(names, s));
  }

  /** What is in the buffer after the shift is the code of the operation. */
  lemma BinaryEmitted(s: Side, names: seq<string>, before: seq<byte>, start: nat,
                      middle: seq<byte>, code: seq<byte>, after: seq<byte>)
    requires s.Binary? && |names| <= VARIABLES && start + 32 <= |before| == |middle| == |code| == |after|
    requires var names1 := RegisterTerm(names, s.left);
             var names2 := RegisterTerm(names1, s.right);
             && KnowsSide(names2, s)
             && Holding(middle, start + 12, before, start, EncodeOperand(Resolve(names1, s.left)))
             && code[..start + 24] == middle[..start + 12] + EncodeOperand(Resolve(names2, s.right))
             && after[..start + 32] == code[..start] + EncodeHeader(ARITH_OP, s.op.Code()) + code[start..start + 24]
    ensures var names2 := RegisterSide(names, s);
            |SideCode(names2, s)| == 32 && Holding(after, start + 32, before, start, SideCode(names2, s))
  {
    var names1 := RegisterTerm(names, s.left);
    SideSize(RegisterSide(names, s), s);
    FirstKnown(names, s);
    RegisterGrowsTerm(names1, s.right);
    ResolveStable(names1, RegisterSide(names, s), s.left);
    var l := EncodeOperand(Resolve(names1, s.left));
    var r := EncodeOperand(Resolve(RegisterSide(names, s), s.right));
    assert code[..start + 24] == before[..start] + (l + r);
    assert code[..start] == code[..start + 24][..start] == before[..start];
    assert code[start..start + 24] == code[..start + 24][start..] == l + r;
  }

  lemma PatchedShift(before: seq<byte>, at: nat, end: nat, header: seq<byte>)
    requires at <= end && end + HEADER_SIZE <= |before| && |header| == HEADER_SIZE
    ensures var code := Overwrite(Overwrite(before, at + HEADER_SIZE, before[at..end]), at, header);
            code[..end + HEADER_SIZE] == before[..at] + header + before[at..end]
  {
    var moved := Overwrite(before, at + HEADER_SIZE, before[at..end]);
    assert moved[..at] == before[..at];
    assert moved[at + HEADER_SIZE..end + HEADER_SIZE] == before[at..end];
  }

  // ----- the whole path of a WHERE clause

  const VMCODE_SIZE := 128

  /** parse_select's use of the machine followed by relation_process_select's: compile the clause
      once, give every variable its value, execute. */
  method EvaluateClause(tokens: seq<Token>, val: Valuation, ghost c: Clause) returns (status: Status)
    requires Spelled(tokens, 0, ClauseTokens(c)) && ClauseEnds(tokens, |ClauseTokens(c)|)
    requires Knows(RegisterClause([], c), c) && |ClauseCode(RegisterClause([], c), c)| <= VMCODE_SIZE
    ensures status == StatusOf(ClauseMeaning(c, val))
  {
    var p := new Instance(VMCODE_SIZE);
    var parser := new Parser(p, tokens);
    var parsed := parser.ParseWhere(Some(c));
    assert parser.Compiled(p.names, c, false, false);
    assert At(p.code[..], 0, ClauseCode(p.names, c));
    SetVariables(p, val);
    CompiledCodeMeansTheClause(p.code[..], p.names, c, p.values, val);
    status := p.Run();
  }

  method SetVariables(p: Instance, val: Valuation)
    requires p.Valid()
    modifies p`values, p`overrun
    ensures p.Valid() && p.overrun == old(p.overrun) && Represents(p.names, p.values, val)
  {
    for i := 0 to |p.names|
      invariant p.Valid() && p.overrun == old(p.overrun)
      invariant forall j :: 0 <= j < i ==> p.values[Lookup(p.names, p.names[j])] == val(p.names[j])
    {
      p.SetVariableValue(p.names[i], val(p.names[i]));
    }
  }
}
