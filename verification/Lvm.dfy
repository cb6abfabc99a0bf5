/** The logic virtual machine of dep/apps/antelope/lvm.c: prefix byte code, its two recursive
    evaluators, and the inference of variable ranges from a condition. */
module Lvm {
  import opened Bytes

  const ENUM_SIZE := 4
  const OPERAND_SIZE := 8
  const HEADER_SIZE := 8

  const ARITH_OP: word := 0x10
  const OPERAND: word := 0x20
  const CMP_OP: word := 0x40

  const LVM_ADD: word := 0x11
  const LVM_SUB: word := 0x12
  const LVM_MUL: word := 0x13
  const LVM_DIV: word := 0x14
  const LVM_EQ: word := 0x41
  const LVM_NEQ: word := 0x42
  const LVM_GE: word := 0x43
  const LVM_GEQ: word := 0x44
  const LVM_LE: word := 0x45
  const LVM_LEQ: word := 0x46
  const LVM_AND: word := 0x81
  const LVM_OR: word := 0x82
  const LVM_NOT: word := 0x83

  const VARIABLE_TYPE: word := 0
  const LONG_TYPE: word := 2

  /** LVM_MAX_VARIABLE_ID: the entries of a local derivation table. The tables of variables and of
      derivations that the file declares have one entry less. */
  const SLOTS := 8
  const VARIABLES: nat := 7

  /** lvm_status_t; Fault stands for a read outside the code buffer, which C leaves undefined. */
  datatype Status = False | True | SemanticError | MathError | ExecutionError | Fault {
    predicate Error() { !False? && !True? }
  }

  function Truth(b: bool): Status { if b then True else False }

  // ----- 32-bit long arithmetic

  const LONG_MIN := -0x8000_0000
  const LONG_MAX := 0x7fff_ffff
  type long = x: int | LONG_MIN <= x <= LONG_MAX

  function Wrap(x: int): long { (x - LONG_MIN) % 0x1_0000_0000 + LONG_MIN }

  function ToWord(l: long): word { if l < 0 then l + 0x1_0000_0000 else l }

  function ToLong(w: word): long { if w > LONG_MAX then w - 0x1_0000_0000 else w }

  /** C's division, which truncates toward zero. */
  function Quotient(x: int, y: int): int
    requires y != 0
  {
    if x < 0 then (if y < 0 then -x / -y else -(-x / y))
    else if y < 0 then -(x / -y)
    else x / y
  }

  function Compute(op: word, x: long, y: long): (Status, long) {
    if op == LVM_ADD then (True, Wrap(x + y))
    else if op == LVM_SUB then (True, Wrap(x - y))
    else if op == LVM_MUL then (True, Wrap(x * y))
    else if op == LVM_DIV then (if y == 0 then (MathError, 0) else (True, Wrap(Quotient(x, y))))
    else (ExecutionError, 0)
  }

  function Test(op: word, x: long, y: long): Status {
    if op == LVM_EQ then Truth(x == y)
    else if op == LVM_NEQ then Truth(x != y)
    else if op == LVM_GE then Truth(x > y)
    else if op == LVM_GEQ then Truth(x >= y)
    else if op == LVM_LE then Truth(x < y)
    else if op == LVM_LEQ then Truth(x <= y)
    else ExecutionError
  }

  predicate IsConnective(op: word) { op / 128 % 2 == 1 }

  // ----- the machine on bytes

  type Env = seq<long>

  function VariableValue(env: Env, id: nat): long { if id < |env| then env[id] else 0 }

  function OperandValue(kind: word, value: word, env: Env): long {
    if kind == LONG_TYPE then ToLong(value)
    else if kind == VARIABLE_TYPE then VariableValue(env, value % 256)
    else 0
  }

  datatype ExprResult = ExprResult(status: Status, value: long, ip: nat)
  datatype LogicResult = LogicResult(status: Status, ip: nat)

  /** One argument of an operator: an operand or a nested arithmetic operator. */
  function RunArgument(code: seq<byte>, ip: nat, env: Env): (r: ExprResult)
    ensures !r.status.Error() ==> ip < r.ip <= |code|
    decreases |code| - ip, 0
  {
    if ip + ENUM_SIZE > |code| then ExprResult(Fault, 0, ip)
    else if Get32(code, ip) == ARITH_OP then
      if ip + HEADER_SIZE > |code| then ExprResult(Fault, 0, ip)
      else RunExpr(code, ip + HEADER_SIZE, Get32(code, ip + ENUM_SIZE), env)
    else if Get32(code, ip) == OPERAND then
      if ip + ENUM_SIZE + OPERAND_SIZE > |code| then ExprResult(Fault, 0, ip)
      else ExprResult(True, OperandValue(Get32(code, ip + 4), Get32(code, ip + 8), env), ip + 12)
    else ExprResult(SemanticError, 0, ip)
  }

  function RunExpr(code: seq<byte>, ip: nat, op: word, env: Env): (r: ExprResult)
    ensures !r.status.Error() ==> ip < r.ip <= |code|
    decreases |code| - ip, 1
  {
    var a := RunArgument(code, ip, env);
    if a.status.Error() then a else
    var b := RunArgument(code, a.ip, env);
    if b.status.Error() then b else
    var (status, value) := Compute(op, a.value, b.value);
    ExprResult(status, value, b.ip)
  }

  /** A connective's argument, which must be a relation. */
  function RunNested(code: seq<byte>, ip: nat, env: Env): (r: LogicResult)
    ensures !r.status.Error() ==> ip < r.ip <= |code|
    decreases |code| - ip, 0
  {
    if ip + ENUM_SIZE > |code| then LogicResult(Fault, ip)
    else if Get32(code, ip) != CMP_OP then LogicResult(SemanticError, ip)
    else if ip + HEADER_SIZE > |code| then LogicResult(Fault, ip)
    else RunLogic(code, ip + HEADER_SIZE, Get32(code, ip + ENUM_SIZE), env)
  }

  function Combine(op: word, a: Status, b: Status): Status {
    if op == LVM_AND then Truth(a == True && b == True) else Truth(a == True || b == True)
  }

  function RunLogic(code: seq<byte>, ip: nat, op: word, env: Env): (r: LogicResult)
    ensures !r.status.Error() ==> ip < r.ip <= |code|
    decreases |code| - ip, 1
  {
    if IsConnective(op) then
      var a := RunNested(code, ip, env);
      if a.status.Error() then a
      else if op == LVM_NOT then LogicResult(Truth(a.status == False), a.ip)
      else
        var b := RunNested(code, a.ip, env);
        if b.status.Error() then b else LogicResult(Combine(op, a.status, b.status), b.ip)
    else
      var a := RunArgument(code, ip, env);
      if a.status.Error() then LogicResult(a.status, a.ip) else
      var b := RunArgument(code, a.ip, env);
      if b.status.Error() then LogicResult(b.status, b.ip) else
      LogicResult(Test(op, a.value, b.value), b.ip)
  }

  /** What lvm_execute returns for the program in code. */
  function Execute(code: seq<byte>, env: Env): Status {
    if ENUM_SIZE > |code| then Fault
    else if Get32(code, 0) != CMP_OP then ExecutionError
    else if HEADER_SIZE > |code| then Fault
    else RunLogic(code, HEADER_SIZE, Get32(code, ENUM_SIZE), env).status
  }

  // ----- terms, their encoding and their meaning

  type VarId = i: nat | i < VARIABLES

  datatype Operand = Variable(id: VarId) | Long(value: long) {
    function Kind(): word { if Variable? then VARIABLE_TYPE else LONG_TYPE }
    function Value(): word { match this case Variable(id) => id case Long(v) => ToWord(v) }
  }

  datatype ArithOp = Add | Sub | Mul | Div {
    function Code(): word {
      match this case Add => LVM_ADD case Sub => LVM_SUB case Mul => LVM_MUL case Div => LVM_DIV
    }
  }

  datatype Relation = Equal | NotEqual | Greater | GreaterEqual | Less | LessEqual {
    function Code(): word {
      match this
      case Equal => LVM_EQ
      case NotEqual => LVM_NEQ
      case Greater => LVM_GE
      case GreaterEqual => LVM_GEQ
      case Less => LVM_LE
      case LessEqual => LVM_LEQ
    }
  }

  datatype Connective = And | Or {
    function Code(): word { if And? then LVM_AND else LVM_OR }
  }

  datatype Expr = Leaf(operand: Operand) | Arith(op: ArithOp, left: Expr, right: Expr)

  datatype Logic =
    | Compare(rel: Relation, lhs: Expr, rhs: Expr)
    | Connect(con: Connective, first: Logic, second: Logic)
    | Negate(arg: Logic)

  function EncodeOperand(o: Operand): (s: seq<byte>)
    ensures |s| == 12
  {
    Put32(OPERAND) + (Put32(o.Kind()) + Put32(o.Value()))
  }

  function EncodeHeader(kind: word, op: word): (s: seq<byte>)
    ensures |s| == 8
  {
    Put32(kind) + Put32(op) }

  function EncodeExpr(e: Expr): seq<byte> {
    match e
    case Leaf(o) => EncodeOperand(o)
    case Arith(op, l, r) => EncodeHeader(ARITH_OP, op.Code()) + (EncodeExpr(l) + EncodeExpr(r))
  }

  function EncodeLogic(t: Logic): seq<byte> {
    match t
    case Compare(rel, l, r) => EncodeHeader(CMP_OP, rel.Code()) + (EncodeExpr(l) + EncodeExpr(r))
    case Connect(con, a, b) => EncodeHeader(CMP_OP, con.Code()) + (EncodeLogic(a) + EncodeLogic(b))
    case Negate(a) => EncodeHeader(CMP_OP, LVM_NOT) + EncodeLogic(a)
  }

  function OperandMeaning(o: Operand, env: Env): long {
    match o case Variable(id) => VariableValue(env, id) case Long(v) => v
  }

  datatype Value = Ok(value: long) | DivisionByZero

  function Apply(op: ArithOp, x: long, y: long): Value {
    match op
    case Add => Ok(Wrap(x + y))
    case Sub => Ok(Wrap(x - y))
    case Mul => Ok(Wrap(x * y))
    case Div => if y == 0 then DivisionByZero else Ok(Wrap(Quotient(x, y)))
  }

  function ExprMeaning(e: Expr, env: Env): Value {
    match e
    case Leaf(o) => Ok(OperandMeaning(o, env))
    case Arith(op, l, r) =>
      match (ExprMeaning(l, env), ExprMeaning(r, env))
      case (Ok(x), Ok(y)) => Apply(op, x, y)
      case _ => DivisionByZero
  }

  predicate Holds(rel: Relation, x: long, y: long) {
    match rel
    case Equal => x == y
    case NotEqual => x != y
    case Greater => x > y
    case GreaterEqual => x >= y
    case Less => x < y
    case LessEqual => x <= y
  }

  /** The truth value of a condition, or None when one of its divisions is by zero: both
      arguments of a connective are always evaluated. */
  datatype Verdict = Undefined | Decided(holds: bool)

  function LogicMeaning(t: Logic, env: Env): Verdict {
    match t
    case Compare(rel, l, r) =>
      (match (ExprMeaning(l, env), ExprMeaning(r, env))
       case (Ok(x), Ok(y)) => Decided(Holds(rel, x, y))
       case _ => Undefined)
    case Connect(con, a, b) =>
      (match (LogicMeaning(a, env), LogicMeaning(b, env))
       case (Decided(x), Decided(y)) => Decided(if con.And? then x && y else x || y)
       case _ => Undefined)
    case Negate(a) =>
      match LogicMeaning(a, env)
      case Decided(x) => Decided(!x)
      case Undefined => Undefined
  }

  function StatusOf(v: Verdict): Status {
    match v case Undefined => MathError case Decided(b) => Truth(b)
  }

  // ----- what the arithmetic of the meaning is

  /** The long that x wraps to: they differ by a multiple of 2^32. */
  ghost predicate Wraps(x: int, r: long) { exists k: int :: x - r == 0x1_0000_0000 * k }

  lemma WrapIsModular(x: int)
    ensures Wraps(x, Wrap(x)) && (LONG_MIN <= x <= LONG_MAX ==> Wrap(x) == x)
  {
    assert x - Wrap(x) == 0x1_0000_0000 * ((x - LONG_MIN) / 0x1_0000_0000);
  }

  /** Sums, differences and products wrap round at 32 bits. */
  lemma ArithmeticWraps(op: ArithOp, x: long, y: long)
    requires op != Div
    ensures var exact := if op == Add then x + y else if op == Sub then x - y else x * y;
            Apply(op, x, y).Ok? && Wraps(exact, Apply(op, x, y).value)
            && (LONG_MIN <= exact <= LONG_MAX ==> Apply(op, x, y).value == exact)
  {
    hide Wrap, Wraps;
    WrapIsModular(x + y);
    WrapIsModular(x - y);
    WrapIsModular(x * y);
  }

  function Magnitude(x: int): nat { if x < 0 then -x else x }

  lemma Euclid(a: nat, b: nat)
    requires b > 0
    ensures 0 <= a - b * (a / b) < b
  {
  }

  lemma Grows(b: nat, q: nat)
    requires b > 0
    ensures b * q >= q
  {
    assert b * q == q + (b - 1) * q;
  }

  lemma Signs(b: int, k: int)
    ensures -b * -k == b * k && b * -k == -(b * k) && -b * k == -(b * k)
  {
  }

  lemma QuotientParts(x: int, y: int) returns (k: int)
    requires y != 0
    ensures k >= 0 && 0 <= Magnitude(x) - Magnitude(y) * k < Magnitude(y)
    ensures Quotient(x, y) == if (x < 0) == (y < 0) then k else -k
  {
    k := Magnitude(x) / Magnitude(y);
    Euclid(Magnitude(x), Magnitude(y));
  }

  lemma QuotientOf(x: int, y: int)
    requires y != 0
    ensures var q := Quotient(x, y);
            && Magnitude(x - y * q) < Magnitude(y) && (x > 0 ==> x - y * q >= 0) && (x <= 0 ==> x - y * q <= 0)
            && Magnitude(q) <= Magnitude(x)
  {
    hide Quotient;
    var k := QuotientParts(x, y);
    Grows(Magnitude(y), k);
    Signs(Magnitude(y), k);
  }

  /** A quotient is truncated toward zero: the remainder is smaller than the divisor and is 0 or has the sign of the
      dividend. Only dividing the smallest long by -1 overflows, and only dividing by 0 fails. */
  lemma DivisionTruncates(x: long, y: long)
    ensures Apply(Div, x, y).Ok? <==> y != 0
    ensures y != 0 && !(x == LONG_MIN && y == -1) ==>
              var r := x - y * Apply(Div, x, y).value;
              Magnitude(r) < Magnitude(y) && (r == 0 || (r > 0 <==> x > 0))
  {
    hide Quotient, Wrap;
    if y != 0 {
      QuotientOf(x, y);
      var q := Quotient(x, y);
      if !(x == LONG_MIN && y == -1) {
        QuotientFits(x, y, q);
        WrapIsModular(q);
      }
    }
  }

  lemma QuotientFits(x: long, y: long, q: int)
    requires y != 0 && !(x == LONG_MIN && y == -1) && Magnitude(x - y * q) < Magnitude(y)
    requires (x > 0 ==> x - y * q >= 0) && (x <= 0 ==> x - y * q <= 0) && Magnitude(q) <= Magnitude(x)
    ensures LONG_MIN <= q <= LONG_MAX
  {
  }

  // ----- the machine computes the meaning of the encoded term

  lemma ReadHeader(code: seq<byte>, ip: nat, kind: word, op: word, rest: seq<byte>)
    requires At(code, ip, EncodeHeader(kind, op) + rest)
    ensures ip + 8 <= |code| && Get32(code, ip) == kind && Get32(code, ip + 4) == op
    ensures At(code, ip + 8, rest)
  {
    AtSplit(code, ip, EncodeHeader(kind, op), rest);
    AtSplit(code, ip, Put32(kind), Put32(op));
    Get32At(code, ip, kind);
    Get32At(code, ip + 4, op);
  }

  lemma ReadOperand(code: seq<byte>, ip: nat, o: Operand)
    requires At(code, ip, EncodeOperand(o))
    ensures ip + 12 <= |code| && Get32(code, ip) == OPERAND
    ensures Get32(code, ip + 4) == o.Kind() && Get32(code, ip + 8) == o.Value()
  {
    AtSplit(code, ip, Put32(OPERAND), Put32(o.Kind()) + Put32(o.Value()));
    AtSplit(code, ip + 4, Put32(o.Kind()), Put32(o.Value()));
    Get32At(code, ip, OPERAND);
    Get32At(code, ip + 4, o.Kind());
    Get32At(code, ip + 8, o.Value());
  }

  lemma RunLeafCorrect(code: seq<byte>, ip: nat, o: Operand, env: Env)
    requires At(code, ip, EncodeOperand(o))
    ensures RunArgument(code, ip, env) == ExprResult(True, OperandMeaning(o, env), ip + 12)
  {
    hide Put32, Get32, At, EncodeOperand;
    ReadOperand(code, ip, o);
  }

  lemma RunArithCorrect(code: seq<byte>, ip: nat, op: ArithOp, a: ExprResult, b: ExprResult, env: Env)
    requires ip + 8 <= |code| && Get32(code, ip) == ARITH_OP && Get32(code, ip + 4) == op.Code()
    requires RunArgument(code, ip + 8, env) == a && (!a.status.Error() ==> RunArgument(code, a.ip, env) == b)
    ensures var r := RunArgument(code, ip, env);
            if a.status.Error() then r == a
            else if b.status.Error() then r == b
            else match Apply(op, a.value, b.value)
                 case Ok(v) => r == ExprResult(True, v, b.ip)
                 case DivisionByZero => r.status == MathError
  {
    hide Get32, Wrap, Quotient;
  }

  lemma {:induction false} RunExprCorrect(code: seq<byte>, ip: nat, e: Expr, env: Env)
    requires At(code, ip, EncodeExpr(e))
    ensures var r := RunArgument(code, ip, env);
            match ExprMeaning(e, env)
            case Ok(v) => r == ExprResult(True, v, ip + |EncodeExpr(e)|)
            case DivisionByZero => r.status == MathError
    decreases e
  {
    hide Put32, Get32, At, EncodeHeader, EncodeOperand, RunArgument, Apply, OperandMeaning;
    match e
    case Leaf(o) => RunLeafCorrect(code, ip, o, env);
    case Arith(op, l, r) =>
      ReadHeader(code, ip, ARITH_OP, op.Code(), EncodeExpr(l) + EncodeExpr(r));
      AtSplit(code, ip + 8, EncodeExpr(l), EncodeExpr(r));
      var mid := ip + 8 + |EncodeExpr(l)|;
      RunExprCorrect(code, ip + 8, l, env);
      RunExprCorrect(code, mid, r, env);
      RunArithCorrect(code, ip, op, RunArgument(code, ip + 8, env), RunArgument(code, mid, env), env);
  }

  lemma RunCompareCorrect(code: seq<byte>, ip: nat, t: Logic, env: Env)
    requires t.Compare? && At(code, ip, EncodeLogic(t))
    ensures var r := RunNested(code, ip, env);
            && r.status == StatusOf(LogicMeaning(t, env))
            && (!r.status.Error() ==> r.ip == ip + |EncodeLogic(t)|)
  {
    hide Put32, Get32, At, EncodeHeader, EncodeOperand, RunArgument, ExprMeaning, EncodeExpr;
    var Compare(rel, l, r) := t;
    ReadHeader(code, ip, CMP_OP, rel.Code(), EncodeExpr(l) + EncodeExpr(r));
    AtSplit(code, ip + 8, EncodeExpr(l), EncodeExpr(r));
    RunExprCorrect(code, ip + 8, l, env);
    RunExprCorrect(code, ip + 8 + |EncodeExpr(l)|, r, env);
  }

  lemma RunConnectCorrect(code: seq<byte>, ip: nat, con: Connective, a: Status, ipA: nat, b: Status, ipB: nat, env: Env)
    requires ip + 8 <= |code| && Get32(code, ip) == CMP_OP && Get32(code, ip + 4) == con.Code()
    requires RunNested(code, ip + 8, env).status == a && (a.Error() || RunNested(code, ip + 8, env).ip == ipA)
    requires !a.Error() ==> RunNested(code, ipA, env).status == b && (b.Error() || RunNested(code, ipA, env).ip == ipB)
    ensures var r := RunNested(code, ip, env);
            if a.Error() then r.status == a
            else if b.Error() then r.status == b
            else r == LogicResult(Combine(con.Code(), a, b), ipB)
  {
    hide Get32, RunArgument;
  }

  lemma {:induction false} RunLogicCorrect(code: seq<byte>, ip: nat, t: Logic, env: Env)
    requires At(code, ip, EncodeLogic(t))
    ensures var r := RunNested(code, ip, env);
            && r.status == StatusOf(LogicMeaning(t, env))
            && (!r.status.Error() ==> r.ip == ip + |EncodeLogic(t)|)
    decreases t
  {
    hide Get32, At, EncodeHeader, RunNested, ExprMeaning, EncodeExpr;
    match t
    case Compare(_, _, _) => RunCompareCorrect(code, ip, t, env);
    case Connect(con, a, b) =>
      ReadHeader(code, ip, CMP_OP, con.Code(), EncodeLogic(a) + EncodeLogic(b));
      AtSplit(code, ip + 8, EncodeLogic(a), EncodeLogic(b));
      var ipA := ip + 8 + |EncodeLogic(a)|;
      RunLogicCorrect(code, ip + 8, a, env);
      RunLogicCorrect(code, ipA, b, env);
      RunConnectCorrect(code, ip, con, StatusOf(LogicMeaning(a, env)), ipA,
                        StatusOf(LogicMeaning(b, env)), ipA + |EncodeLogic(b)|, env);
    case Negate(a) =>
      ReadHeader(code, ip, CMP_OP, LVM_NOT, EncodeLogic(a));
      RunLogicCorrect(code, ip + 8, a, env);
      RunNotCorrect(code, ip, RunNested(code, ip + 8, env), env);
  }

  lemma RunNotCorrect(code: seq<byte>, ip: nat, a: LogicResult, env: Env)
    requires ip + 8 <= |code| && Get32(code, ip) == CMP_OP && Get32(code, ip + 4) == LVM_NOT
    requires RunNested(code, ip + 8, env) == a
    ensures RunNested(code, ip, env) == if a.status.Error() then a else LogicResult(Truth(a.status == False), a.ip)
  {
    hide Get32, RunArgument;
  }

  /** Executing a buffer that starts with the code of a condition returns the condition's value,
      or MATH_ERROR exactly when some division in it is by zero. */
  lemma ExecuteCorrect(code: seq<byte>, t: Logic, env: Env)
    requires At(code, 0, EncodeLogic(t))
    ensures Execute(code, env) == StatusOf(LogicMeaning(t, env))
  {
    RunLogicCorrect(code, 0, t, env);
    assert |EncodeLogic(t)| >= 8;
    ReadKind(code, t);
  }

  lemma ReadKind(code: seq<byte>, t: Logic)
    requires At(code, 0, EncodeLogic(t))
    ensures 8 <= |code| && Get32(code, 0) == CMP_OP
  {
    match t
    case Compare(rel, l, r) => ReadHeader(code, 0, CMP_OP, rel.Code(), EncodeExpr(l) + EncodeExpr(r));
    case Connect(con, a, b) => ReadHeader(code, 0, CMP_OP, con.Code(), EncodeLogic(a) + EncodeLogic(b));
    case Negate(a) => ReadHeader(code, 0, CMP_OP, LVM_NOT, EncodeLogic(a));
  }
}
