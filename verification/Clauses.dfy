/** WHERE clauses: the tokens that spell them, their meaning, and the prefix code that
    dep/apps/antelope/aql-parser.c has to emit for them. */
module Clauses {
  import opened Bytes
  import opened Lvm
  import opened Machine

  datatype Token =
    | Identifier(name: string) | Integer(value: long) | Text | Float
    | LeftParen | RightParen
    | Arithmetic(op: ArithOp) | Relational(rel: Relation) | Logical(con: Connective)
    | Other | NoToken

  // ----- clauses: what the supported fragment of the grammar spells

  datatype Term = Name(name: string) | Number(value: long)
  datatype Side = Single(term: Term) | Binary(op: ArithOp, left: Term, right: Term)
  datatype Comparison = Comparison(rel: Relation, lhs: Side, rhs: Side)
  datatype Clause = Last(cmp: Comparison) | Chain(cmp: Comparison, con: Connective, rest: Clause)

  function TermToken(t: Term): Token { match t case Name(n) => Identifier(n) case Number(v) => Integer(v) }

  function SideTokens(s: Side): seq<Token> {
    match s
    case Single(t) => [TermToken(t)]
    case Binary(op, l, r) => [TermToken(l), Arithmetic(op), TermToken(r)]
  }

  function ComparisonTokens(c: Comparison): seq<Token> { SideTokens(c.lhs) + [Relational(c.rel)] + SideTokens(c.rhs) }

  function ClauseTokens(c: Clause): seq<Token> {
    match c
    case Last(cmp) => ComparisonTokens(cmp)
    case Chain(cmp, con, rest) => ComparisonTokens(cmp) + [Logical(con)] + ClauseTokens(rest)
  }

  ghost predicate Spelled(tokens: seq<Token>, pos: nat, part: seq<Token>) {
    pos + |part| <= |tokens| && tokens[pos..pos + |part|] == part
  }

  function TokenAt(tokens: seq<Token>, pos: nat): Token { if pos < |tokens| then tokens[pos] else NoToken }

  /** No operator follows that would make parse_expr go on. */
  predicate ExprEnds(tokens: seq<Token>, pos: nat) {
    var t := TokenAt(tokens, pos);
    !t.Arithmetic? && !t.RightParen?
  }

  predicate ClauseEnds(tokens: seq<Token>, pos: nat) {
    ExprEnds(tokens, pos) && !TokenAt(tokens, pos).Logical?
  }

  // ----- the meaning of a clause, over a valuation of its identifiers

  type Valuation = string -> long

  function TermMeaning(t: Term, val: Valuation): long { match t case Name(n) => val(n) case Number(v) => v }

  function SideMeaning(s: Side, val: Valuation): Value {
    match s
    case Single(t) => Ok(TermMeaning(t, val))
    case Binary(op, l, r) => Apply(op, TermMeaning(l, val), TermMeaning(r, val))
  }

  function ComparisonMeaning(c: Comparison, val: Valuation): Verdict {
    match (SideMeaning(c.lhs, val), SideMeaning(c.rhs, val))
    case (Ok(x), Ok(y)) => Decided(Holds(c.rel, x, y))
    case _ => Undefined
  }

  /** Connectives have no precedence and group to the right; a division by zero anywhere makes the
      whole clause undefined. */
  function ClauseMeaning(c: Clause, val: Valuation): Verdict {
    match c
    case Last(cmp) => ComparisonMeaning(cmp, val)
    case Chain(cmp, con, rest) =>
      match (ComparisonMeaning(cmp, val), ClauseMeaning(rest, val))
      case (Decided(x), Decided(y)) => Decided(if con.And? then x && y else x || y)
      case _ => Undefined
  }

  // ----- the variable table and the code that is to be emitted

  function RegisterTerm(names: seq<string>, t: Term): seq<string> { if t.Name? then Register(names, t.name) else names }

  function RegisterSide(names: seq<string>, s: Side): seq<string> {
    match s
    case Single(t) => RegisterTerm(names, t)
    case Binary(_, l, r) => RegisterTerm(RegisterTerm(names, l), r)
  }

  function RegisterComparison(names: seq<string>, c: Comparison): seq<string> {
    RegisterSide(RegisterSide(names, c.lhs), c.rhs)
  }

  function RegisterClause(names: seq<string>, c: Clause): seq<string>
    decreases c
  {
    match c
    case Last(cmp) => RegisterComparison(names, cmp)
    case Chain(cmp, _, rest) => RegisterClause(RegisterComparison(names, cmp), rest)
  }

  predicate KnowsTerm(names: seq<string>, t: Term) { |names| <= VARIABLES && (t.Name? ==> t.name in names) }

  predicate KnowsSide(names: seq<string>, s: Side) {
    match s
    case Single(t) => KnowsTerm(names, t)
    case Binary(_, l, r) => KnowsTerm(names, l) && KnowsTerm(names, r)
  }

  predicate KnowsComparison(names: seq<string>, c: Comparison) { KnowsSide(names, c.lhs) && KnowsSide(names, c.rhs) }

  /** Every identifier of the clause has a slot: the clause has at most VARIABLES distinct identifiers. */
  predicate Knows(names: seq<string>, c: Clause) {
    KnowsComparison(names, c.cmp) && (c.Chain? ==> Knows(names, c.rest))
  }

  function Resolve(names: seq<string>, t: Term): Operand {
    match t
    case Name(n) => (var id := Lookup(names, n); Variable(if id < VARIABLES then id else 0))
    case Number(v) => Long(v)
  }

  function ResolveSide(names: seq<string>, s: Side): Expr {
    match s
    case Single(t) => Leaf(Resolve(names, t))
    case Binary(op, l, r) => Arith(op, Leaf(Resolve(names, l)), Leaf(Resolve(names, r)))
  }

  function ResolveComparison(names: seq<string>, c: Comparison): Logic {
    Compare(c.rel, ResolveSide(names, c.lhs), ResolveSide(names, c.rhs))
  }

  function ResolveClause(names: seq<string>, c: Clause): Logic {
    match c
    case Last(cmp) => ResolveComparison(names, cmp)
    case Chain(cmp, con, rest) => Connect(con, ResolveComparison(names, cmp), ResolveClause(names, rest))
  }

  function SideCode(names: seq<string>, s: Side): seq<byte> { EncodeExpr(ResolveSide(names, s)) }
  function ComparisonCode(names: seq<string>, c: Comparison): seq<byte> { EncodeLogic(ResolveComparison(names, c)) }
  function ClauseCode(names: seq<string>, c: Clause): seq<byte> { EncodeLogic(ResolveClause(names, c)) }

  lemma SideSize(names: seq<string>, s: Side)
    ensures match s
            case Single(t) => SideCode(names, s) == EncodeOperand(Resolve(names, t))
            case Binary(op, l, r) =>
              SideCode(names, s) == EncodeHeader(ARITH_OP, op.Code()) +
                                    (EncodeOperand(Resolve(names, l)) + EncodeOperand(Resolve(names, r)))
    ensures |SideCode(names, s)| == if s.Single? then 12 else 32
  {
    if s.Binary? {
      assert EncodeExpr(Leaf(Resolve(names, s.left))) == EncodeOperand(Resolve(names, s.left));
      assert EncodeExpr(Leaf(Resolve(names, s.right))) == EncodeOperand(Resolve(names, s.right));
    }
  }

  // ----- the table only grows, so code emitted early stays right

  lemma {:induction false} LookupStable(names: seq<string>, more: seq<string>, n: string)
    requires names <= more && n in names
    ensures Lookup(more, n) == Lookup(names, n)
    decreases |names|
  {
    if names[0] != n {
      LookupStable(names[1..], more[1..], n);
    }
  }

  lemma ResolveStable(names: seq<string>, more: seq<string>, t: Term)
    requires names <= more && KnowsTerm(names, t)
    ensures Resolve(more, t) == Resolve(names, t)
  {
    if t.Name? {
      LookupStable(names, more, t.name);
    }
  }

  lemma SideStable(names: seq<string>, more: seq<string>, s: Side)
    requires names <= more && KnowsSide(names, s)
    ensures ResolveSide(more, s) == ResolveSide(names, s)
  {
    match s
    case Single(t) => ResolveStable(names, more, t);
    case Binary(_, l, r) => ResolveStable(names, more, l); ResolveStable(names, more, r);
  }

  lemma SideGrows(names: seq<string>, s: Side)
    ensures names <= RegisterSide(names, s)
  {
  }

  lemma {:induction false} ClauseGrows(names: seq<string>, c: Clause)
    ensures names <= RegisterClause(names, c)
    decreases c
  {
    SideGrows(names, c.cmp.lhs);
    SideGrows(RegisterSide(names, c.cmp.lhs), c.cmp.rhs);
    if c.Chain? {
      ClauseGrows(RegisterComparison(names, c.cmp), c.rest);
    }
  }

  /** If the final table knows a term then so does the table right after the term's registration. */
  lemma KnownAtOnce(names: seq<string>, t: Term, more: seq<string>)
    requires RegisterTerm(names, t) <= more && KnowsTerm(more, t)
    requires |names| <= VARIABLES
    ensures KnowsTerm(RegisterTerm(names, t), t)
  {
  }

  lemma SideKnownAtOnce(names: seq<string>, s: Side, more: seq<string>)
    requires RegisterSide(names, s) <= more && KnowsSide(more, s)
    requires |names| <= VARIABLES
    ensures KnowsSide(RegisterSide(names, s), s)
  {
    match s
    case Single(t) => KnownAtOnce(names, t, more);
    case Binary(_, l, r) =>
      var names1 := RegisterTerm(names, l);
      RegisterGrowsTerm(names1, r);
      KnownAtOnce(names, l, more);
      KnownAtOnce(names1, r, more);
  }

  lemma RegisterGrowsTerm(names: seq<string>, t: Term)
    ensures names <= RegisterTerm(names, t)
  {
  }

  // ----- running compiled code

  /** The machine's variables hold the values the valuation gives to their names. */
  ghost predicate Represents(names: seq<string>, values: seq<long>, val: Valuation) {
    |names| <= |values| && forall n :: n in names ==> values[Lookup(names, n)] == val(n)
  }

  lemma SideMeaningPreserved(names: seq<string>, s: Side, values: seq<long>, val: Valuation)
    requires KnowsSide(names, s) && Represents(names, values, val)
    ensures ExprMeaning(ResolveSide(names, s), values) == SideMeaning(s, val)
  {
  }

  lemma {:induction false} MeaningPreserved(names: seq<string>, c: Clause, values: seq<long>, val: Valuation)
    requires Knows(names, c) && Represents(names, values, val)
    ensures LogicMeaning(ResolveClause(names, c), values) == ClauseMeaning(c, val)
    decreases c
  {
    SideMeaningPreserved(names, c.cmp.lhs, values, val);
    SideMeaningPreserved(names, c.cmp.rhs, values, val);
    if c.Chain? {
      MeaningPreserved(names, c.rest, values, val);
    }
  }

  /** Compilation preserves meaning: a buffer that starts with the code of a clause makes
      lvm_execute return the clause's value under every valuation, and MATH_ERROR exactly when
      the clause divides by zero. */
  lemma CompiledCodeMeansTheClause(code: seq<byte>, names: seq<string>, c: Clause, values: seq<long>, val: Valuation)
    requires At(code, 0, ClauseCode(names, c))
    requires Knows(names, c) && Represents(names, values, val)
    ensures Execute(code, values) == StatusOf(ClauseMeaning(c, val))
  {
    ExecuteCorrect(code, ResolveClause(names, c), values);
    MeaningPreserved(names, c, values, val);
  }
}
