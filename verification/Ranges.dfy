/** Range inference over LVM conditions (derive_relation in dep/apps/antelope/lvm.c): which
    interval of each variable has to be searched to find every row satisfying the condition. */
module Ranges {
  import opened Bytes
  import opened Lvm
  import opened Wrappers

  datatype Range = Range(min: long, max: long)

  /** One entry per variable slot; None where derived is 0. */
  type Ranges = s: seq<Option<Range>> | |s| == SLOTS witness Nothing()

  function Nothing(): seq<Option<Range>> { seq(SLOTS, _ => None) }

  function Meet(a: Range, b: Range): Range { Range(Max(a.min, b.min), Min(a.max, b.max)) }
  function Join(a: Range, b: Range): Range { Range(Min(a.min, b.min), Max(a.max, b.max)) }

  /** create_intersection and create_union: a range known on one side only is kept as it is. */
  function Merge(op: word, a: Option<Range>, b: Option<Range>): Option<Range> {
    match (a, b)
    case (None, _) => b
    case (_, None) => a
    case (Some(x), Some(y)) => Some(if op == LVM_AND then Meet(x, y) else Join(x, y))
  }

  function MergeAll(op: word, a: Ranges, b: Ranges): Ranges {
    seq(SLOTS, i requires 0 <= i < SLOTS => Merge(op, a[i], b[i]))
  }

  function RangeFor(op: word, value: long): Option<Range> {
    if op == LVM_EQ then Some(Range(value, value))
    else if op == LVM_GE then Some(Range(Wrap(value + 1), LONG_MAX))
    else if op == LVM_GEQ then Some(Range(value, LONG_MAX))
    else if op == LVM_LE then Some(Range(LONG_MIN, Wrap(value - 1)))
    else if op == LVM_LEQ then Some(Range(LONG_MIN, value))
    else None
  }

  /** The variable a comparison constrains and the constant it is compared with: the left operand
      if that is a variable, otherwise whatever the right operand's low byte says. */
  function Subject(kind0: word, value0: word, kind1: word, value1: word): Option<(nat, long)> {
    if kind0 == VARIABLE_TYPE then
      if kind1 == VARIABLE_TYPE then None else Some((value0 % 256, ToLong(value1)))
    else Some((value1 % 256, ToLong(value0)))
  }

  function DeriveCompare(op: word, kind0: word, value0: word, kind1: word, value1: word): Option<Ranges> {
    match Subject(kind0, value0, kind1, value1)
    case None => None
    case Some((id, value)) =>
      if id >= SLOTS then None else
      match RangeFor(op, value)
      case None => None
      case Some(range) => Some(Nothing()[id := Some(range)])
  }

  datatype Derivation = Derivation(ranges: Option<Ranges>, ip: nat)

  /** derive_relation on bytes; None is DERIVATION_ERROR. */
  function DeriveAt(code: seq<byte>, ip: nat): (d: Derivation)
    ensures d.ranges.Some? ==> ip < d.ip <= |code|
    decreases |code| - ip
  {
    if ip + HEADER_SIZE > |code| then Derivation(None, ip) else
    var op := Get32(code, ip + ENUM_SIZE);
    if IsConnective(op) then
      if op != LVM_AND && op != LVM_OR then Derivation(None, ip + 8) else
      var a := DeriveAt(code, ip + 8);
      if a.ranges.None? then a else
      var b := DeriveAt(code, a.ip);
      if b.ranges.None? then b else
      Derivation(Some(MergeAll(op, a.ranges.value, b.ranges.value)), b.ip)
    else if ip + 12 > |code| || Get32(code, ip + 8) != OPERAND then Derivation(None, ip)
    else if ip + 24 > |code| || Get32(code, ip + 20) != OPERAND then Derivation(None, ip)
    else if ip + 32 > |code| then Derivation(None, ip)
    else
      Derivation(DeriveCompare(op, Get32(code, ip + 12), Get32(code, ip + 16), Get32(code, ip + 24),
                 Get32(code, ip + 28)), ip + 32)
  }

  /** Whether the entry behind those of the variables is written, even if only to fail afterwards. */
  predicate UsesLast(code: seq<byte>, ip: nat) {
    && ip + HEADER_SIZE <= |code|
    && if IsConnective(Get32(code, ip + ENUM_SIZE)) then
         DeriveAt(code, ip).ranges.Some? && DeriveAt(code, ip).ranges.value[VARIABLES].Some?
       else
         && ip + 32 <= |code| && Get32(code, ip + 8) == OPERAND && Get32(code, ip + 20) == OPERAND
         && var subject := Subject(Get32(code, ip + 12), Get32(code, ip + 16), Get32(code, ip + 24),
                                   Get32(code, ip + 28));
            subject.Some? && subject.value.0 == VARIABLES
  }

  // ----- the same inference on terms

  function Derive(t: Logic): Option<Ranges> {
    match t
    case Compare(rel, Leaf(a), Leaf(b)) => DeriveCompare(rel.Code(), a.Kind(), a.Value(), b.Kind(), b.Value())
    case Compare(_, _, _) => None
    case Connect(con, a, b) =>
      (match (Derive(a), Derive(b))
       case (Some(x), Some(y)) => Some(MergeAll(con.Code(), x, y))
       case _ => None)
    case Negate(_) => None
  }

  lemma DeriveCompareCorrect(code: seq<byte>, ip: nat, rel: Relation, l: Expr, r: Expr)
    requires At(code, ip, EncodeLogic(Compare(rel, l, r)))
    ensures DeriveAt(code, ip).ranges == Derive(Compare(rel, l, r))
    ensures l.Leaf? && r.Leaf? ==> DeriveAt(code, ip).ip == ip + |EncodeLogic(Compare(rel, l, r))|
  {
    hide Get32, At, EncodeHeader, EncodeOperand, DeriveCompare;
    ReadHeader(code, ip, CMP_OP, rel.Code(), EncodeExpr(l) + EncodeExpr(r));
    AtSplit(code, ip + 8, EncodeExpr(l), EncodeExpr(r));
    ArgumentKind(code, ip + 8, l);
    ArgumentKind(code, ip + 8 + |EncodeExpr(l)|, r);
  }

  lemma DeriveConnectCorrect(code: seq<byte>, ip: nat, con: Connective, a: Derivation, b: Derivation)
    requires ip + 8 <= |code| && Get32(code, ip + 4) == con.Code()
    requires DeriveAt(code, ip + 8) == a
    requires a.ranges.Some? ==> DeriveAt(code, a.ip) == b
    ensures DeriveAt(code, ip) ==
            if a.ranges.None? then a else if b.ranges.None? then b
            else Derivation(Some(MergeAll(con.Code(), a.ranges.value, b.ranges.value)), b.ip)
  {
    hide Get32, MergeAll, DeriveCompare;
  }

  /** On the code of a condition the inference over bytes and the one over terms agree. */
  lemma {:induction false} DeriveCorrect(code: seq<byte>, ip: nat, t: Logic)
    requires At(code, ip, EncodeLogic(t))
    ensures DeriveAt(code, ip).ranges == Derive(t)
    ensures Derive(t).Some? ==> DeriveAt(code, ip).ip == ip + |EncodeLogic(t)|
    decreases t
  {
    hide Get32, At, EncodeHeader, EncodeExpr, DeriveCompare, MergeAll, DeriveAt;
    match t
    case Compare(rel, l, r) => DeriveCompareCorrect(code, ip, rel, l, r);
    case Connect(con, a, b) =>
      ReadHeader(code, ip, CMP_OP, con.Code(), EncodeLogic(a) + EncodeLogic(b));
      AtSplit(code, ip + 8, EncodeLogic(a), EncodeLogic(b));
      DeriveCorrect(code, ip + 8, a);
      DeriveCorrect(code, ip + 8 + |EncodeLogic(a)|, b);
      DeriveConnectCorrect(code, ip, con, DeriveAt(code, ip + 8), DeriveAt(code, ip + 8 + |EncodeLogic(a)|));
    case Negate(a) => NotIsRefused(code, ip, a);
  }

  lemma NotIsRefused(code: seq<byte>, ip: nat, t: Logic)
    requires At(code, ip, EncodeLogic(Negate(t)))
    ensures DeriveAt(code, ip).ranges == None
  {
    hide Get32, At, EncodeHeader, DeriveCompare, MergeAll;
    ReadHeader(code, ip, CMP_OP, LVM_NOT, EncodeLogic(t));
  }

  lemma ArgumentKind(code: seq<byte>, ip: nat, e: Expr)
    requires At(code, ip, EncodeExpr(e))
    ensures ip + 4 <= |code|
    ensures if e.Leaf? then ip + 12 <= |code| && Get32(code, ip) == OPERAND
                            && Get32(code, ip + 4) == e.operand.Kind() && Get32(code, ip + 8) == e.operand.Value()
            else Get32(code, ip) == ARITH_OP
  {
    match e
    case Leaf(o) => ReadOperand(code, ip, o);
    case Arith(op, l, r) => ReadHeader(code, ip, ARITH_OP, op.Code(), EncodeExpr(l) + EncodeExpr(r));
  }

  /** Comparisons of two operands other than <>, unless both are variables, joined by AND and OR. Where both are
      constants the low byte of the right one has to be the number of an entry of the local table. */
  predicate Derivable(t: Logic) {
    match t
    case Compare(rel, Leaf(a), Leaf(b)) =>
      !rel.NotEqual? && (a.Long? || b.Long?) && (a.Long? && b.Long? ==> b.value % 256 < SLOTS)
    case Compare(_, _, _) => false
    case Connect(_, a, b) => Derivable(a) && Derivable(b)
    case Negate(_) => false
  }

  lemma LowByte(v: long)
    ensures ToWord(v) % 256 == v % 256
  {
  }

  /** Ranges are derived for exactly these conditions. */
  lemma {:induction false} DerivedIff(t: Logic)
    ensures Derive(t).Some? <==> Derivable(t)
    decreases t
  {
    match t
    case Compare(rel, Leaf(a), Leaf(b)) =>
      if b.Long? {
        LowByte(b.value);
      }
    case Compare(_, _, _) =>
    case Connect(con, a, b) =>
      DerivedIff(a);
      DerivedIff(b);
    case Negate(_) =>
  }

  /** A comparison of two constants, the right one with low byte 7. */
  predicate NamesLast(t: Logic) {
    match t
    case Compare(_, Leaf(a), Leaf(b)) => a.Long? && b.Long? && b.value % 256 == 7
    case Compare(_, _, _) => false
    case Connect(_, a, b) => NamesLast(a) || NamesLast(b)
    case Negate(_) => false
  }

  lemma {:induction false} LastDerived(t: Logic)
    requires Derive(t).Some?
    ensures Derive(t).value[VARIABLES].Some? <==> NamesLast(t)
    decreases t
  {
    match t
    case Compare(_, Leaf(a), Leaf(b)) =>
      if b.Long? {
        LowByte(b.value);
      }
    case Connect(con, a, b) =>
      LastDerived(a);
      LastDerived(b);
  }

  /** The entry behind those of the variables is written exactly for a comparison of that kind, by itself or in a
      condition that ranges are derived for. */
  lemma UsesLastIff(code: seq<byte>, ip: nat, t: Logic)
    requires At(code, ip, EncodeLogic(t))
    ensures UsesLast(code, ip) <==> NamesLast(t) && (t.Connect? ==> Derivable(t))
  {
    hide Get32, At, EncodeHeader, EncodeOperand, DeriveCompare, DeriveAt, EncodeExpr, Derive, NamesLast;
    match t
    case Compare(rel, l, r) => CompareUsesLast(code, ip, rel, l, r);
    case Connect(con, a, b) =>
      ReadHeader(code, ip, CMP_OP, con.Code(), EncodeLogic(a) + EncodeLogic(b));
      DeriveCorrect(code, ip, t);
      DerivedIff(t);
      if Derive(t).Some? {
        LastDerived(t);
      }
    case Negate(a) =>
      ReadHeader(code, ip, CMP_OP, LVM_NOT, EncodeLogic(a));
      DeriveCorrect(code, ip, t);
      NegateDerives(a);
  }

  lemma NegateDerives(t: Logic)
    ensures Derive(Negate(t)) == None && !NamesLast(Negate(t))
  {
  }

  lemma CompareUsesLast(code: seq<byte>, ip: nat, rel: Relation, l: Expr, r: Expr)
    requires At(code, ip, EncodeLogic(Compare(rel, l, r)))
    ensures UsesLast(code, ip) <==> NamesLast(Compare(rel, l, r))
  {
    hide Get32, At, EncodeHeader, EncodeOperand, DeriveAt;
    ReadHeader(code, ip, CMP_OP, rel.Code(), EncodeExpr(l) + EncodeExpr(r));
    AtSplit(code, ip + 8, EncodeExpr(l), EncodeExpr(r));
    ArgumentKind(code, ip + 8, l);
    ArgumentKind(code, ip + 8 + |EncodeExpr(l)|, r);
    if r.Leaf? && r.operand.Long? {
      LowByte(r.operand.value);
    }
  }

  // ----- when the inferred box contains every satisfying valuation

  ghost predicate InBox(ranges: Ranges, env: Env) {
    |env| == VARIABLES
      && forall i :: 0 <= i < VARIABLES && ranges[i].Some? ==> ranges[i].value.min <= env[i] <= ranges[i].value.max
  }

  ghost predicate Sound(t: Logic, ranges: Ranges) {
    forall env: Env :: |env| == VARIABLES && LogicMeaning(t, env) == Decided(true) ==> InBox(ranges, env)
  }

  /** Every comparison has its variable on the left and a constant on the right. */
  predicate VariablesLeft(t: Logic) {
    match t
    case Compare(_, l, r) => l.Leaf? && l.operand.Variable? && r.Leaf? && r.operand.Long?
    case Connect(_, a, b) => VariablesLeft(a) && VariablesLeft(b)
    case Negate(a) => VariablesLeft(a)
  }

  predicate Full(r: Range) { r.min == LONG_MIN && r.max == LONG_MAX }

  /** Every variable that only b constrains is left free by b. */
  predicate Frees(a: Ranges, b: Ranges) {
    forall i :: 0 <= i < VARIABLES && a[i].None? && b[i].Some? ==> Full(b[i].value)
  }

  /** Both sides of every OR constrain the same variables, but for ranges that are the whole type. */
  predicate Aligned(t: Logic) {
    match t
    case Compare(_, _, _) => true
    case Connect(And, a, b) => Aligned(a) && Aligned(b)
    case Connect(Or, a, b) =>
      && Aligned(a) && Aligned(b)
      && (Derive(a).Some? && Derive(b).Some? ==>
            Frees(Derive(a).value, Derive(b).value) && Frees(Derive(b).value, Derive(a).value))
    case Negate(a) => Aligned(a)
  }

  lemma CompareSatisfies(rel: Relation, x: VarId, c: long, env: Env)
    requires |env| == VARIABLES && Derive(Compare(rel, Leaf(Variable(x)), Leaf(Long(c)))).Some?
    requires Holds(rel, env[x], c)
    ensures InBox(Derive(Compare(rel, Leaf(Variable(x)), Leaf(Long(c)))).value, env)
  {
    WordOfLong(c);
  }

  lemma WordOfLong(c: long)
    ensures ToLong(ToWord(c)) == c
  {
  }

  /** Soundness: every valuation that makes the condition true lies in every derived range. */
  lemma {:induction false} DerivedRangesAreSound(t: Logic, env: Env)
    requires VariablesLeft(t) && Aligned(t) && Derive(t).Some?
    requires |env| == VARIABLES && LogicMeaning(t, env) == Decided(true)
    ensures InBox(Derive(t).value, env)
    decreases t
  {
    match t
    case Compare(rel, l, r) => CompareSatisfies(rel, l.operand.id, r.operand.value, env);
    case Connect(con, a, b) =>
      if LogicMeaning(a, env) == Decided(true) {
        DerivedRangesAreSound(a, env);
      }
      if LogicMeaning(b, env) == Decided(true) {
        DerivedRangesAreSound(b, env);
      }
    case Negate(a) =>
  }

  lemma AlignedIsSound(t: Logic)
    requires VariablesLeft(t) && Aligned(t) && Derive(t).Some?
    ensures Sound(t, Derive(t).value)
  {
    forall env: Env | |env| == VARIABLES && LogicMeaning(t, env) == Decided(true) ensures InBox(Derive(t).value, env) {
      DerivedRangesAreSound(t, env);
    }
  }

  predicate Conjunctive(t: Logic) {
    match t
    case Compare(_, _, _) => true
    case Connect(con, a, b) => con.And? && Conjunctive(a) && Conjunctive(b)
    case Negate(a) => Conjunctive(a)
  }

  /** No strict comparison with the last value of its direction, where value + 1 or value - 1 wraps. */
  predicate NoOverflow(t: Logic) {
    match t
    case Compare(rel, _, Leaf(Long(c))) => (rel.Greater? ==> c < LONG_MAX) && (rel.Less? ==> c > LONG_MIN)
    case Compare(_, _, _) => true
    case Connect(_, a, b) => NoOverflow(a) && NoOverflow(b)
    case Negate(a) => NoOverflow(a)
  }

  /** For a condition built with AND only, the box is exactly the set of satisfying valuations. */
  lemma {:induction false} ConjunctiveBoxIsExact(t: Logic, env: Env)
    requires VariablesLeft(t) && Conjunctive(t) && NoOverflow(t) && Derive(t).Some?
    requires |env| == VARIABLES
    ensures InBox(Derive(t).value, env) <==> LogicMeaning(t, env) == Decided(true)
    decreases t
  {
    match t
    case Compare(rel, l, r) =>
      WordOfLong(r.operand.value);
      var ranges := Derive(t).value;
      assert ranges[l.operand.id].Some?;
      if Holds(rel, env[l.operand.id], r.operand.value) {
        CompareSatisfies(rel, l.operand.id, r.operand.value, env);
      }
    case Connect(con, a, b) =>
      ConjunctiveBoxIsExact(a, env);
      ConjunctiveBoxIsExact(b, env);
      MeetIsConjunction(Derive(a).value, Derive(b).value, env);
    case Negate(a) =>
  }

  /** A strict comparison that wraps never holds, although its range is the whole type. */
  lemma {:induction false} OverflowIsFalse(t: Logic, env: Env)
    requires VariablesLeft(t) && Conjunctive(t) && Derive(t).Some? && !NoOverflow(t)
    ensures LogicMeaning(t, env) != Decided(true)
    decreases t
  {
    if t.Connect? {
      if !NoOverflow(t.first) {
        OverflowIsFalse(t.first, env);
      } else {
        OverflowIsFalse(t.second, env);
      }
    }
  }

  predicate EmptyBox(ranges: Ranges) {
    exists i :: 0 <= i < VARIABLES && ranges[i].Some? && ranges[i].value.min > ranges[i].value.max
  }

  /** With AND only, the box is exactly the set of satisfying valuations if and only if no strict
      comparison wraps, or some range is empty anyway. */
  lemma ConjunctiveBoxIff(t: Logic)
    requires VariablesLeft(t) && Conjunctive(t) && Derive(t).Some?
    ensures (forall env: Env :: |env| == VARIABLES ==>
              (InBox(Derive(t).value, env) <==> LogicMeaning(t, env) == Decided(true)))
            <==> NoOverflow(t) || EmptyBox(Derive(t).value)
  {
    var ranges := Derive(t).value;
    var corner: Env := seq(VARIABLES,
                           i requires 0 <= i < VARIABLES => if ranges[i].Some? then ranges[i].value.min else 0);
    if NoOverflow(t) {
      forall env: Env | |env| == VARIABLES ensures InBox(ranges, env) <==> LogicMeaning(t, env) == Decided(true) {
        ConjunctiveBoxIsExact(t, env);
      }
    } else {
      forall env: Env ensures LogicMeaning(t, env) != Decided(true) {
        OverflowIsFalse(t, env);
      }
      assert !EmptyBox(ranges) ==> InBox(ranges, corner);
      if EmptyBox(ranges) {
        var i: VarId :| ranges[i].Some? && ranges[i].value.min > ranges[i].value.max;
        forall env: Env ensures !InBox(ranges, env) {
        }
      }
    }
  }

  lemma MeetIsConjunction(a: Ranges, b: Ranges, env: Env)
    requires |env| == VARIABLES
    ensures InBox(MergeAll(LVM_AND, a, b), env) <==> InBox(a, env) && InBox(b, env)
  {
    var m := MergeAll(LVM_AND, a, b);
    forall i | 0 <= i < VARIABLES
      ensures (m[i].Some? ==> m[i].value.min <= env[i] <= m[i].value.max) <==>
              ((a[i].Some? ==> a[i].value.min <= env[i] <= a[i].value.max) &&
               (b[i].Some? ==> b[i].value.min <= env[i] <= b[i].value.max))
    {
    }
  }

  // ----- exactly when a comparison, or an OR, gets sound ranges

  /** The constant on the left is so extreme that the comparison cannot hold, or that the range
      derived from it is the whole type. */
  predicate AtLimit(rel: Relation, c: long) {
    match rel
    case Greater => c == LONG_MIN || c == LONG_MAX
    case Less => c == LONG_MIN || c == LONG_MAX
    case GreaterEqual => c == LONG_MIN
    case LessEqual => c == LONG_MAX
    case _ => false
  }

  /** The variable is on the left, or the constant there does no harm, or the right side's low byte
      names the entry of the local table that belongs to no variable. */
  predicate Faithful(rel: Relation, a: Operand, b: Operand) {
    || a.Variable?
    || AtLimit(rel, a.value)
    || b.Value() % 256 == VARIABLES
    || (if b.Variable? then rel.Equal? else !Holds(rel, a.value, b.value))
  }

  lemma UnfaithfulIsUnsound(rel: Relation, a: long, b: Operand)
    requires Derive(Compare(rel, Leaf(Long(a)), Leaf(b))).Some? && !Faithful(rel, Long(a), b)
    ensures !Sound(Compare(rel, Leaf(Long(a)), Leaf(b)), Derive(Compare(rel, Leaf(Long(a)), Leaf(b))).value)
  {
    WordOfLong(a);
    var t := Compare(rel, Leaf(Long(a)), Leaf(b));
    var v: long := if rel.Equal? then (if a == 0 then 1 else 0)
                   else if rel.Greater? || rel.GreaterEqual? then LONG_MIN else LONG_MAX;
    var env: Env := seq(VARIABLES, i => v);
    var id := b.Value() % 256;
    assert Derive(t).value[id].Some? && env[id] == v;
    assert LogicMeaning(t, env) == Decided(true);
    assert !InBox(Derive(t).value, env);
  }

  /** derive_relation does not turn the operator round when the variable is on the right, and takes
      a constant's low byte for a variable when there is none: a comparison's range is sound exactly
      when the variable is on the left, the operator is symmetric, the constant is at a limit, or the
      range is not that of a variable. */
  lemma ComparisonIsSoundIff(rel: Relation, a: Operand, b: Operand)
    requires Derive(Compare(rel, Leaf(a), Leaf(b))).Some?
    ensures Sound(Compare(rel, Leaf(a), Leaf(b)), Derive(Compare(rel, Leaf(a), Leaf(b))).value) <==> Faithful(rel, a, b)
  {
    if Faithful(rel, a, b) {
      WordOfLong(if a.Variable? then b.value else a.value);
    } else {
      UnfaithfulIsUnsound(rel, a.value, b);
    }
  }

  /** A variable without a range does not occur in the condition. */
  lemma {:induction false} UnconstrainedVariable(t: Logic, env: Env, i: VarId, v: long)
    requires VariablesLeft(t) && Derive(t).Some? && Derive(t).value[i].None? && |env| == VARIABLES
    ensures LogicMeaning(t, env[i := v]) == LogicMeaning(t, env)
    decreases t
  {
    match t
    case Compare(rel, l, r) =>
    case Connect(con, a, b) =>
      UnconstrainedVariable(a, env, i, v);
      UnconstrainedVariable(b, env, i, v);
    case Negate(a) =>
  }

  /** A condition with derived ranges contains no arithmetic, so it always has a value. */
  lemma {:induction false} DerivableIsDecided(t: Logic, env: Env)
    requires Derive(t).Some?
    ensures LogicMeaning(t, env).Decided?
    decreases t
  {
    if t.Connect? {
      DerivableIsDecided(t.first, env);
      DerivableIsDecided(t.second, env);
    }
  }

  ghost predicate Satisfiable(t: Logic) {
    exists env: Env :: |env| == VARIABLES && LogicMeaning(t, env) == Decided(true)
  }

  /** The union of two sound derivations is sound exactly when neither side, by being satisfiable,
      lets through values of a variable that only the other side restricts. */
  lemma OrIsSoundIff(a: Logic, b: Logic)
    requires VariablesLeft(a) && VariablesLeft(b) && Derive(a).Some? && Derive(b).Some?
    requires Sound(a, Derive(a).value) && Sound(b, Derive(b).value)
    ensures Sound(Connect(Or, a, b), Derive(Connect(Or, a, b)).value) <==>
            && (Satisfiable(a) ==> Frees(Derive(a).value, Derive(b).value))
            && (Satisfiable(b) ==> Frees(Derive(b).value, Derive(a).value))
  {
    var ra, rb := Derive(a).value, Derive(b).value;
    var t := Connect(Or, a, b);
    if (Satisfiable(a) ==> Frees(ra, rb)) && (Satisfiable(b) ==> Frees(rb, ra)) {
      forall env: Env | |env| == VARIABLES && LogicMeaning(t, env) == Decided(true)
        ensures InBox(Derive(t).value, env) {
        if LogicMeaning(a, env) == Decided(true) {
          JoinCovers(ra, rb, env);
        } else {
          JoinCovers(rb, ra, env);
        }
      }
    } else if Satisfiable(a) && !Frees(ra, rb) {
      var env: Env :| |env| == VARIABLES && LogicMeaning(a, env) == Decided(true);
      var i: VarId :| ra[i].None? && rb[i].Some? && !Full(rb[i].value);
      EscapeFrom(b, a, i, env);
    } else {
      var env: Env :| |env| == VARIABLES && LogicMeaning(b, env) == Decided(true);
      var i: VarId :| rb[i].None? && ra[i].Some? && !Full(ra[i].value);
      EscapeFrom(a, b, i, env);
    }
  }

  lemma JoinCovers(a: Ranges, b: Ranges, env: Env)
    requires InBox(a, env) && Frees(a, b)
    ensures InBox(MergeAll(LVM_OR, a, b), env) && InBox(MergeAll(LVM_OR, b, a), env)
  {
  }

  lemma OutsideUnion(a: Ranges, b: Ranges, i: VarId, env: Env)
    requires |env| == VARIABLES && a[i].Some? && b[i].None? && !(a[i].value.min <= env[i] <= a[i].value.max)
    ensures !InBox(MergeAll(LVM_OR, a, b), env) && !InBox(MergeAll(LVM_OR, b, a), env)
  {
  }

  lemma OrHolds(a: Logic, b: Logic, env: Env)
    requires LogicMeaning(a, env).Decided? && LogicMeaning(b, env) == Decided(true)
    ensures LogicMeaning(Connect(Or, a, b), env) == LogicMeaning(Connect(Or, b, a), env) == Decided(true)
  {
  }

  lemma OrDerives(a: Logic, b: Logic)
    requires Derive(a).Some? && Derive(b).Some?
    ensures Derive(Connect(Or, a, b)) == Some(MergeAll(LVM_OR, Derive(a).value, Derive(b).value))
  {
    hide MergeAll, DeriveCompare;
  }

  /** If the left side restricts i and the right side does not mention it, some valuation satisfies
      the right side outside the left side's range of i. */
  lemma EscapeFrom(a: Logic, b: Logic, i: VarId, env: Env)
    requires VariablesLeft(b) && Derive(a).Some? && Derive(b).Some?
    requires Derive(a).value[i].Some? && Derive(b).value[i].None? && !Full(Derive(a).value[i].value)
    requires |env| == VARIABLES && LogicMeaning(b, env) == Decided(true)
    ensures !Sound(Connect(Or, a, b), Derive(Connect(Or, a, b)).value)
    ensures !Sound(Connect(Or, b, a), Derive(Connect(Or, b, a)).value)
  {
    hide Derive, LogicMeaning, MergeAll, InBox, VariablesLeft;
    var r := Derive(a).value[i].value;
    var v := if r.min == LONG_MIN then LONG_MAX else LONG_MIN;
    var out := env[i := v];
    UnconstrainedVariable(b, env, i, v);
    DerivableIsDecided(a, out);
    OrHolds(a, b, out);
    OrDerives(a, b);
    OrDerives(b, a);
    OutsideUnion(Derive(a).value, Derive(b).value, i, out);
  }
}
