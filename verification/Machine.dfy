/** The lvm_instance_t object: a fixed code buffer with an append cursor and an instruction
    pointer, the variable table, and the derivation table. Its methods are the ones of
    dep/apps/antelope/lvm.c; each is proved against the functions of Lvm and Ranges. */
module Machine {
  import opened Bytes
  import opened Lvm
  import opened Ranges
  import opened Wrappers

  /** The slot lookup() returns for a name, or the first free one when the name is absent. */
  function Lookup(names: seq<string>, name: string): (id: nat)
    ensures id <= |names|
    ensures id < |names| ==> names[id] == name
    ensures name in names <==> id < |names|
  {
    if names == [] then 0 else if names[0] == name then 0 else 1 + Lookup(names[1..], name)
  }

  function Register(names: seq<string>, name: string): seq<string> {
    if Lookup(names, name) == |names| < VARIABLES then names + [name] else names
  }

  class Instance {
    const code: array<byte>
    const derivations: array<Option<Range>>
    var end: nat
    var ip: nat
    var error: bool
    /** Set when an append goes past the buffer, which lvm_set_type and its callers do not check, or
        when an eighth entry of the variables or of the derivations is used, which the tests against
        LVM_MAX_VARIABLE_ID admit. */
    var overrun: bool
    var names: seq<string>
    var values: seq<long>

    ghost predicate Valid()
      reads this
    {
      derivations.Length == SLOTS && |values| == VARIABLES && |names| <= VARIABLES
    }

    /** lvm_reset on a zeroed buffer. */
    constructor (size: nat)
      ensures Valid() && code.Length == size && fresh(code) && fresh(derivations)
      ensures end == 0 && !error && !overrun && names == []
      ensures derivations[..] == Nothing()
    {
      code := new byte[size](_ => 0);
      derivations := new Option<Range>[SLOTS](_ => None);
      end, ip, error, overrun := 0, 0, false, false;
      names, values := [], seq(VARIABLES, _ => 0);
    }

    // ----- appending code

    /** memcpy of bytes at the end, without any bounds check. */
    method Append(bytes: seq<byte>)
      modifies `end, `overrun, code
      ensures end == old(end) + |bytes|
      ensures end <= code.Length ==>
                code[..] == Overwrite(old(code[..]), old(end), bytes) && overrun == old(overrun)
      ensures end > code.Length ==> overrun
    {
      if end + |bytes| <= code.Length {
        forall i | 0 <= i < |bytes| {
          code[end + i] := bytes[i];
        }
      } else {
        overrun := true;
      }
      end := end + |bytes|;
    }

    /** lvm_set_op (kind ARITH_OP) and lvm_set_relation (kind CMP_OP). */
    method SetOperator(kind: word, op: word)
      modifies `end, `overrun, code
      ensures end == old(end) + HEADER_SIZE
      ensures end <= code.Length ==>
                code[..] == Overwrite(old(code[..]), old(end), EncodeHeader(kind, op)) && overrun == old(overrun)
      ensures end > code.Length ==> overrun
    {
      Append(EncodeHeader(kind, op));
    }

    /** lvm_set_long and, for an identifier, lvm_set_variable. */
    method SetOperand(o: Operand)
      modifies `end, `overrun, code
      ensures end == old(end) + 12
      ensures end <= code.Length ==>
                code[..] == Overwrite(old(code[..]), old(end), EncodeOperand(o)) && overrun == old(overrun)
      ensures end > code.Length ==> overrun
    {
      Append(EncodeOperand(o));
    }

    /** Leave a gap for an operator that will be patched in later. */
    method JumpToOperand() returns (oldEnd: nat)
      modifies `end, `error
      ensures oldEnd == old(end)
      ensures if oldEnd + HEADER_SIZE < code.Length then end == oldEnd + HEADER_SIZE && error == old(error)
              else end == oldEnd && error
    {
      oldEnd := end;
      end := end + HEADER_SIZE;
      if end >= code.Length {
        error := true;
        end := oldEnd;
      }
    }

    /** Move code[at..end] up by one operator and put the cursor into the gap. The bound that is
        checked is that of the operator alone, although its node type is moved too. */
    method ShiftForOperator(at: nat) returns (newEnd: nat)
      modifies `end, `error, `overrun, code
      ensures old(end) + ENUM_SIZE > code.Length || at >= old(end) ==>
                newEnd == 0 && error && end == old(end) && code[..] == old(code[..]) && overrun == old(overrun)
      ensures old(end) + ENUM_SIZE <= code.Length && at < old(end) ==>
                newEnd == old(end) + HEADER_SIZE && end == at && error == old(error)
      ensures newEnd != 0 && newEnd <= code.Length ==>
                code[..] == Overwrite(old(code[..]), at + HEADER_SIZE, old(code[..])[at..old(end)])
                  && overrun == old(overrun)
      ensures newEnd > code.Length ==> overrun
    {
      var oldEnd := end;
      if oldEnd + ENUM_SIZE > code.Length || at >= oldEnd {
        error := true;
        return 0;
      }
      if oldEnd + HEADER_SIZE <= code.Length {
        forall i | at <= i < oldEnd {
          code[i + HEADER_SIZE] := code[i];
        }
        ghost var moved := Overwrite(old(code[..]), at + HEADER_SIZE, old(code[..])[at..oldEnd]);
        assert forall j :: at + HEADER_SIZE <= j < oldEnd + HEADER_SIZE ==> code[j] == old(code[..])[j - HEADER_SIZE];
        assert code[..] == moved;
      } else {
        overrun := true;
      }
      end := at;
      newEnd := oldEnd + HEADER_SIZE;
    }

    method SetEnd(newEnd: nat) returns (oldEnd: nat)
      modifies `end, `error
      ensures oldEnd == old(end)
      ensures if newEnd >= code.Length then error && end == oldEnd else error == old(error) && end == newEnd
    {
      oldEnd := end;
      if newEnd >= code.Length {
        error := true;
      } else {
        end := newEnd;
      }
    }

    // ----- variables

    method RegisterVariable(name: string)
      requires Valid()
      modifies `names, `overrun
      ensures Valid() && names == Register(old(names), name)
      ensures overrun == (old(overrun) || name !in names)
    {
      var id := Lookup(names, name);
      if id == VARIABLES {
        overrun := true;
      } else if id == |names| {
        names := names + [name];
      }
    }

    method SetVariable(name: string)
      requires Valid()
      modifies `end, `overrun, code
      ensures Lookup(names, name) >= VARIABLES ==> end == old(end) && code[..] == old(code[..]) && overrun
      ensures Lookup(names, name) < VARIABLES ==>
                end == old(end) + 12 &&
                (end <= code.Length ==>
                   code[..] == Overwrite(old(code[..]), old(end), EncodeOperand(Variable(Lookup(names, name))))
                   && overrun == old(overrun))
      ensures end > old(end) && end > code.Length ==> overrun
    {
      var id := Lookup(names, name);
      if id < VARIABLES {
        SetOperand(Variable(id));
      } else {
        overrun := true;
      }
    }

    method SetVariableValue(name: string, value: long)
      requires Valid()
      modifies `values, `overrun
      ensures Valid()
      ensures var id := Lookup(names, name);
              if id < VARIABLES then values == old(values)[id := value] && overrun == old(overrun)
              else values == old(values) && overrun
    {
      var id := Lookup(names, name);
      if id < VARIABLES {
        values := values[id := value];
      } else {
        overrun := true;
      }
    }

    // ----- execution

    method EvalArgument() returns (status: Status, value: long)
      requires ip <= code.Length
      modifies `ip
      ensures ip <= code.Length
      ensures var r := RunArgument(code[..], old(ip), values);
              status == r.status && (!status.Error() ==> value == r.value && ip == r.ip)
      decreases code.Length - ip, 0
    {
      value := 0;
      if ip + ENUM_SIZE > code.Length {
        return Fault, 0;
      }
      var kind := Get32(code[..], ip);
      if kind == ARITH_OP {
        if ip + HEADER_SIZE > code.Length {
          return Fault, 0;
        }
        var op := Get32(code[..], ip + ENUM_SIZE);
        ip := ip + HEADER_SIZE;
        status, value := EvalExpr(op);
      } else if kind == OPERAND {
        if ip + ENUM_SIZE + OPERAND_SIZE > code.Length {
          return Fault, 0;
        }
        value := OperandValue(Get32(code[..], ip + 4), Get32(code[..], ip + 8), values);
        ip := ip + ENUM_SIZE + OPERAND_SIZE;
        status := True;
      } else {
        status := SemanticError;
      }
    }

    method EvalExpr(op: word) returns (status: Status, result: long)
      requires ip <= code.Length
      modifies `ip
      ensures ip <= code.Length
      ensures var r := RunExpr(code[..], old(ip), op, values);
              status == r.status && (!status.Error() ==> result == r.value && ip == r.ip)
      decreases code.Length - ip, 1
    {
      ghost var a := RunArgument(code[..], ip, values);
      var value: seq<long> := [0, 0];
      var i := 0;
      while i < 2
        invariant 0 <= i <= 2 && |value| == 2 && old(ip) <= ip <= code.Length
        invariant i == 0 ==> ip == old(ip)
        invariant i >= 1 ==> !a.status.Error() && value[0] == a.value
        invariant i == 1 ==> ip == a.ip
        invariant i == 2 ==> var b := RunArgument(code[..], a.ip, values);
                             !b.status.Error() && value[1] == b.value && ip == b.ip
      {
        var v;
        status, v := EvalArgument();
        if status.Error() {
          return status, 0;
        }
        value := value[i := v];
        i := i + 1;
      }
      var computed := Compute(op, value[0], value[1]);
      return computed.0, computed.1;
    }

    method EvalNested() returns (status: Status)
      requires ip <= code.Length
      modifies `ip
      ensures ip <= code.Length
      ensures var r := RunNested(code[..], old(ip), values);
              status == r.status && (!status.Error() ==> ip == r.ip)
      decreases code.Length - ip, 0
    {
      if ip + ENUM_SIZE > code.Length {
        return Fault;
      }
      if Get32(code[..], ip) != CMP_OP {
        return SemanticError;
      }
      if ip + HEADER_SIZE > code.Length {
        return Fault;
      }
      var op := Get32(code[..], ip + ENUM_SIZE);
      ip := ip + HEADER_SIZE;
      status := EvalLogic(op);
    }

    method EvalConnective(op: word) returns (status: Status)
      requires ip <= code.Length && IsConnective(op)
      modifies `ip
      ensures ip <= code.Length
      ensures var r := RunLogic(code[..], old(ip), op, values);
              status == r.status && (!status.Error() ==> ip == r.ip)
      decreases code.Length - ip, 1
    {
      ghost var a := RunNested(code[..], ip, values);
      var arguments := if op == LVM_NOT then 1 else 2;
      var result: seq<Status> := [False, False];
      var i := 0;
      while i < arguments
        invariant 0 <= i <= arguments && |result| == 2 && old(ip) <= ip <= code.Length
        invariant i == 0 ==> ip == old(ip)
        invariant i >= 1 ==> !a.status.Error() && result[0] == a.status
        invariant i == 1 ==> ip == a.ip
        invariant i == 2 ==> var b := RunNested(code[..], a.ip, values);
                             !b.status.Error() && result[1] == b.status && ip == b.ip
      {
        status := EvalNested();
        if status.Error() {
          return;
        }
        result := result[i := status];
        i := i + 1;
      }
      if op == LVM_NOT {
        return Truth(result[0] == False);
      }
      return Combine(op, result[0], result[1]);
    }

    method EvalLogic(op: word) returns (status: Status)
      requires ip <= code.Length
      modifies `ip
      ensures ip <= code.Length
      ensures var r := RunLogic(code[..], old(ip), op, values);
              status == r.status && (!status.Error() ==> ip == r.ip)
      decreases code.Length - ip, 2
    {
      if IsConnective(op) {
        status := EvalConnective(op);
        return;
      }
      ghost var a := RunArgument(code[..], ip, values);
      var value: seq<long> := [0, 0];
      var i := 0;
      while i < 2
        invariant 0 <= i <= 2 && |value| == 2 && old(ip) <= ip <= code.Length
        invariant i == 0 ==> ip == old(ip)
        invariant i >= 1 ==> !a.status.Error() && value[0] == a.value
        invariant i == 1 ==> ip == a.ip
        invariant i == 2 ==> var b := RunArgument(code[..], a.ip, values);
                             !b.status.Error() && value[1] == b.value && ip == b.ip
      {
        var v;
        status, v := EvalArgument();
        if status.Error() {
          return;
        }
        value := value[i := v];
        i := i + 1;
      }
      status := Test(op, value[0], value[1]);
    }

    /** lvm_execute. */
    method Run() returns (status: Status)
      modifies `ip
      ensures status == Execute(code[..], values)
    {
      ip := 0;
      if ENUM_SIZE > code.Length {
        return Fault;
      }
      if Get32(code[..], 0) != CMP_OP {
        return ExecutionError;
      }
      if HEADER_SIZE > code.Length {
        return Fault;
      }
      var op := Get32(code[..], ENUM_SIZE);
      ip := HEADER_SIZE;
      status := EvalLogic(op);
    }

    // ----- range inference

    method CreateIntersection(result: array<Option<Range>>, d1: array<Option<Range>>, d2: array<Option<Range>>)
      requires result.Length == d1.Length == d2.Length == SLOTS && result != d1 && result != d2
      requires result[..] == Nothing()
      modifies result
      ensures result[..] == MergeAll(LVM_AND, d1[..], d2[..])
    {
      for i := 0 to SLOTS
        invariant d1[..] == old(d1[..]) && d2[..] == old(d2[..])
        invariant forall j :: 0 <= j < i ==> result[j] == Merge(LVM_AND, d1[j], d2[j])
        invariant forall j :: i <= j < SLOTS ==> result[j] == None
      {
        if d1[i].None? && d2[i].None? {
          continue;
        } else if d2[i].None? {
          result[i] := d1[i];
        } else if d1[i].None? {
          result[i] := d2[i];
        } else {
          var min := if d1[i].value.min > d2[i].value.min then d1[i].value.min else d2[i].value.min;
          var max := if d1[i].value.max < d2[i].value.max then d1[i].value.max else d2[i].value.max;
          result[i] := Some(Range(min, max));
        }
      }
    }

    method CreateUnion(result: array<Option<Range>>, d1: array<Option<Range>>, d2: array<Option<Range>>)
      requires result.Length == d1.Length == d2.Length == SLOTS && result != d1 && result != d2
      requires result[..] == Nothing()
      modifies result
      ensures result[..] == MergeAll(LVM_OR, d1[..], d2[..])
    {
      for i := 0 to SLOTS
        invariant d1[..] == old(d1[..]) && d2[..] == old(d2[..])
        invariant forall j :: 0 <= j < i ==> result[j] == Merge(LVM_OR, d1[j], d2[j])
        invariant forall j :: i <= j < SLOTS ==> result[j] == None
      {
        if d1[i].None? && d2[i].None? {
          continue;
        } else if d2[i].None? {
          result[i] := d1[i];
        } else if d1[i].None? {
          result[i] := d2[i];
        } else {
          var min := if d1[i].value.min > d2[i].value.min then d2[i].value.min else d1[i].value.min;
          var max := if d1[i].value.max < d2[i].value.max then d2[i].value.max else d1[i].value.max;
          result[i] := Some(Range(min, max));
        }
      }
    }

    method DeriveConnective(op: word, local: array<Option<Range>>) returns (ok: bool)
      requires Valid() && local.Length == SLOTS && local[..] == Nothing() && ip + HEADER_SIZE <= code.Length
      requires op == Get32(code[..], ip + ENUM_SIZE) && IsConnective(op)
      modifies `ip, `overrun, local
      ensures var d := DeriveAt(code[..], old(ip));
              ok == d.ranges.Some? && ip <= code.Length
              && (ok ==> local[..] == d.ranges.value && ip == d.ip)
              && (!ok ==> local[..] == Nothing())
      ensures overrun == (old(overrun) || (local == derivations && local[VARIABLES].Some?))
      decreases code.Length - ip, 0
    {
      hide Get32, DeriveCompare, MergeAll, Subject;
      ghost var d := DeriveAt(code[..], ip);
      ip := ip + HEADER_SIZE;
      if op != LVM_AND && op != LVM_OR {
        return false;
      }
      var d1 := new Option<Range>[SLOTS](_ => None);
      var d2 := new Option<Range>[SLOTS](_ => None);
      ok := DeriveRelation(d1);
      if !ok {
        return;
      }
      ghost var first := d1[..];
      ok := DeriveRelation(d2);
      if !ok {
        return;
      }
      assert d1[..] == first;
      if op == LVM_AND {
        CreateIntersection(local, d1, d2);
      } else {
        CreateUnion(local, d1, d2);
      }
      overrun := overrun || (local == derivations && local[VARIABLES].Some?);
    }

    /** derive_relation; the last entry of a local table exists, that of derivations does not. */
    method DeriveRelation(local: array<Option<Range>>) returns (ok: bool)
      requires Valid() && local.Length == SLOTS && local[..] == Nothing() && ip <= code.Length
      modifies `ip, `overrun, local
      ensures var d := DeriveAt(code[..], old(ip));
              ok == d.ranges.Some? && ip <= code.Length
              && (ok ==> local[..] == d.ranges.value && ip == d.ip)
              && (!ok ==> local[..] == Nothing())
      ensures overrun == (old(overrun) || (local == derivations && UsesLast(code[..], old(ip))))
      decreases code.Length - ip, 1
    {
      hide Get32, DeriveCompare, MergeAll, Subject;
      ghost var bytes := code[..];
      if ip + HEADER_SIZE > code.Length {
        return false;
      }
      var op := Get32(code[..], ip + ENUM_SIZE);
      if IsConnective(op) {
        ok := DeriveConnective(op, local);
        return;
      }
      var start := ip + HEADER_SIZE;
      if start + 4 > code.Length || Get32(code[..], start) != OPERAND {
        return false;
      }
      if start + 16 > code.Length || Get32(code[..], start + 12) != OPERAND || start + 24 > code.Length {
        return false;
      }
      var derived := DeriveCompare(op, Get32(code[..], start + 4), Get32(code[..], start + 8),
                                   Get32(code[..], start + 16), Get32(code[..], start + 20));
      ip := start + 24;
      var subject := Subject(Get32(code[..], start + 4), Get32(code[..], start + 8),
                             Get32(code[..], start + 16), Get32(code[..], start + 20));
      overrun := overrun || (local == derivations && subject.Some? && subject.value.0 == VARIABLES);
      match derived
      case None => return false;
      case Some(ranges) =>
        forall i | 0 <= i < SLOTS {
          local[i] := ranges[i];
        }
        assert code[..] == bytes && local[..] == ranges;
        return true;
    }
  }
}
