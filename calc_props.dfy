/** What the emitted code means: its size, its well-formedness as SSA
    code, and that running it computes the value of the expression. */
module CalcProps {
  import opened Int64
  import opened Expr
  import opened Semantics
  import opened Ir
  import opened Options
  import opened Machine
  import opened Calc

  /** Every operator node has an instruction, so the default branch of the
      walk is never taken on a well-formed tree. */
  lemma OperatorsHaveInstructions(k: ExprType)
    requires IsOperator(k)
    ensures BinOpOf(k).Some?
    ensures BinOpOf(k).value == (match k
                                 case ADD => Add
                                 case SUB => Sub
                                 case MUL => Mul
                                 case _ => SDiv)
  {
  }

  /** A value leaf appends nothing, a variable leaf two instructions, and
      an operator node one instruction more than its operands. */
  lemma {:induction false} EmitLength(e: Expr, params: Value, base: nat)
    requires WellFormed(e)
    ensures |Emit(e, params, base).code| == 2 * VarCount(e) + OpCount(e)
    decreases e
  {
    match e
    case Leaf(_, _) =>
    case Op(_, l, r) =>
      var mid := base + |Emit(l, params, base).code|;
      EmitOp(e, params, base, mid);
      EmitLength(l, params, base);
      EmitLength(r, params, mid);
  }

  /** An operand that may be used by the instruction at index `n`: not
      null, and if a register then one defined earlier. */
  predicate UsableAt(v: Value, n: nat) {
    v != Null && (v.Reg? ==> v.index < n)
  }

  /** An instruction that may stand at index `n` of a straight-line body:
      not a return, and its operands usable there. */
  predicate DefinedAt(ins: Instr, n: nat) {
    match ins
    case Gep(b, o) => UsableAt(b, n) && UsableAt(o, n)
    case Load(p) => UsableAt(p, n)
    case BinOp(_, x, y) => UsableAt(x, n) && UsableAt(y, n)
    case Ret(_) => false
  }

  /** Code placed at index `base` whose every instruction only uses values
      defined before it. */
  predicate Scoped(code: seq<Instr>, base: nat) {
    forall i :: 0 <= i < |code| ==> DefinedAt(code[i], base + i)
  }

  lemma ScopedAppend(a: seq<Instr>, b: seq<Instr>, base: nat, mid: nat)
    requires mid == base + |a| && Scoped(a, base) && Scoped(b, mid)
    ensures Scoped(a + b, base)
  {
    forall i | 0 <= i < |a + b|
      ensures DefinedAt((a + b)[i], base + i)
    {
      if i >= |a| {
        assert (a + b)[i] == b[i - |a|];
      }
    }
  }

  /** A usable operand stays usable further down the block. */
  lemma UsableLater(v: Value, n: nat, m: nat)
    requires UsableAt(v, n) && n <= m
    ensures UsableAt(v, m)
  {
  }

  /** The emitted code is well-scoped SSA code and contains no null operand
      and no return, so the default branch never leaks into the block; the
      value it yields may be used right after it. */
  lemma {:induction false} EmitScoped(e: Expr, params: Value, base: nat)
    requires WellFormed(e) && UsableAt(params, base)
    ensures Scoped(Emit(e, params, base).code, base)
    ensures UsableAt(Emit(e, params, base).value, base + |Emit(e, params, base).code|)
    decreases e, 1
  {
    if e.Leaf? {
      if e.kind == VAR {
        var code := Emit(e, params, base).code;
        assert DefinedAt(code[0], base);
        UsableLater(params, base, base + 1);
        assert DefinedAt(code[1], base + 1);
      }
    } else {
      OperatorScoped(e, params, base);
    }
  }

  /** The operator case of EmitScoped. */
  lemma {:induction false} OperatorScoped(e: Expr, params: Value, base: nat)
    requires WellFormed(e) && e.Op? && UsableAt(params, base)
    ensures Scoped(Emit(e, params, base).code, base)
    ensures UsableAt(Emit(e, params, base).value, base + |Emit(e, params, base).code|)
    decreases e, 0
  {
    var el := Emit(e.left, params, base);
    var mid := base + |el.code|;
    var er := Emit(e.right, params, mid);
    var n := mid + |er.code|;
    var ins := BinOp(BinOpOf(e.kind).value, el.value, er.value);
    EmitOp(e, params, base, mid);
    EmitScoped(e.left, params, base);
    UsableLater(params, base, mid);
    EmitScoped(e.right, params, mid);
    UsableLater(el.value, mid, n);
    ScopedOperator(el.code, er.code, ins, base, mid, n);
  }

  /** Scoped code for two operands followed by an instruction that uses
      values defined before it is scoped. */
  lemma ScopedOperator(cl: seq<Instr>, cr: seq<Instr>, ins: Instr, base: nat, mid: nat, n: nat)
    requires mid == base + |cl| && n == mid + |cr|
    requires Scoped(cl, base) && Scoped(cr, mid) && DefinedAt(ins, n)
    ensures Scoped(cl + cr + [ins], base)
  {
    assert Scoped([ins], n);
    ScopedAppend(cl, cr, base, mid);
    ScopedAppend(cl + cr, [ins], base, n);
  }

  /** The argument array as the emitted code sees it: at most 2^31 - 1
      arguments, as the argument count of a C program is an `int`, each a
      64-bit value. */
  predicate ArgsOk(args: seq<int>) {
    |args| < 0x8000_0000 && Int64Args(args)
  }

  /** Running the code emitted for `e` at index `base`, after the
      registers `regs`, defines registers only after `regs` and yields the
      value of `e`. */
  lemma {:induction false} EmitCorrect(e: Expr, args: seq<int>, regs: seq<RtVal>, base: nat)
    requires WellFormed(e) && VarsBelow(e, |args|) && DivSafe(e, args) && ArgsOk(args)
    requires base == |regs|
    ensures Exec(Emit(e, Param, base).code, args, regs).Some?
    ensures Operand(Emit(e, Param, base).value, Exec(Emit(e, Param, base).code, args, regs).value)
            == Some(Int(Eval(e, args)))
    decreases e, 1
  {
    if e.Leaf? {
      if e.kind == VAR {
        var code := Emit(e, Param, base).code;
        var r1 := regs + [Ptr(e.val)];
        assert Exec(code[1..], args, r1) == Some(r1 + [Int(args[e.val])]);
      }
    } else {
      OperatorCorrect(e, args, regs, base);
    }
  }

  /** The operator case of EmitCorrect: the operands' code runs one after
      the other, the left operand's value survives the right operand's
      code, and the operator instruction combines the two. */
  lemma {:induction false} OperatorCorrect(e: Expr, args: seq<int>, regs: seq<RtVal>, base: nat)
    requires WellFormed(e) && e.Op? && VarsBelow(e, |args|) && DivSafe(e, args) && ArgsOk(args)
    requires base == |regs|
    ensures Exec(Emit(e, Param, base).code, args, regs).Some?
    ensures Operand(Emit(e, Param, base).value, Exec(Emit(e, Param, base).code, args, regs).value)
            == Some(Int(Eval(e, args)))
    decreases e, 0
  {
    var el := Emit(e.left, Param, base);
    var mid := base + |el.code|;
    var er := Emit(e.right, Param, mid);
    EmitOp(e, Param, base, mid);
    EmitCorrect(e.left, args, regs, base);
    var r1 := Exec(el.code, args, regs).value;
    EmitCorrect(e.right, args, r1, mid);
    var r2 := Exec(er.code, args, r1).value;
    OperandStable(el.value, r1, r2);
    var ins := BinOp(BinOpOf(e.kind).value, el.value, er.value);
    OperatorStep(e.kind, el.value, er.value, Eval(e.left, args), Eval(e.right, args), args, r2);
    ExecOperator(el.code, er.code, ins, args, regs, r1, r2);
    assert Exec(Emit(e, Param, base).code, args, regs) == Exec([ins], args, r2);
    assert Emit(e, Param, base).value == Reg(|r2|);
    assert Eval(e, args) == Apply(e.kind, Eval(e.left, args), Eval(e.right, args));
  }

  /** Code made of two pieces and one more instruction runs piece by
      piece. */
  lemma ExecOperator(cl: seq<Instr>, cr: seq<Instr>, ins: Instr, args: seq<int>,
                     regs: seq<RtVal>, r1: seq<RtVal>, r2: seq<RtVal>)
    requires Exec(cl, args, regs) == Some(r1) && Exec(cr, args, r1) == Some(r2)
    ensures Exec(cl + cr + [ins], args, regs) == Exec([ins], args, r2)
  {
    ExecAppend(cl, cr, args, regs);
    ExecAppend(cl + cr, [ins], args, regs);
  }

  /** The operator instruction of a node combines its operands' values as
      the evaluator does. */
  lemma OperatorStep(k: ExprType, x: Value, y: Value, a: int, b: int, args: seq<int>, regs: seq<RtVal>)
    requires IsOperator(k) && (k == DIV ==> DivDefined(a, b))
    requires Operand(x, regs) == Some(Int(a)) && Operand(y, regs) == Some(Int(b))
    ensures Exec([BinOp(BinOpOf(k).value, x, y)], args, regs).Some?
    ensures Operand(Reg(|regs|), Exec([BinOp(BinOpOf(k).value, x, y)], args, regs).value)
            == Some(Int(Apply(k, a, b)))
  {
  }

  /** The `calc` function returns the value of the expression, for every
      vector of 64-bit arguments that covers its variables and in which
      every division is defined. */
  lemma CalcCorrect(e: Expr, args: seq<int>)
    requires WellFormed(e) && VarsBelow(e, |args|) && DivSafe(e, args) && ArgsOk(args)
    ensures Call(CalcBody(e), args) == Some(Eval(e, args))
  {
    EmitCorrect(e, args, [], 0);
  }

  /** The entry block holds the emitted code and exactly one return, at
      its end. */
  lemma CalcBodyShape(e: Expr)
    requires WellFormed(e)
    ensures |CalcBody(e)| == 2 * VarCount(e) + OpCount(e) + 1
    ensures forall i :: 0 <= i < |CalcBody(e)| ==> (CalcBody(e)[i].Ret? <==> i == |CalcBody(e)| - 1)
  {
    EmitLength(e, Param, 0);
    var code := Emit(e, Param, 0).code;
    EmitScoped(e, Param, 0);
    forall i | 0 <= i < |code|
      ensures !CalcBody(e)[i].Ret?
    {
      assert CalcBody(e)[i] == code[i];
      assert DefinedAt(code[i], i);
    }
  }

  /** The converse of the division condition of CalcCorrect: when some
      division in the tree is undefined (a zero divisor, or the most
      negative value divided by -1), the compiled function has no defined
      result. */
  lemma DivisionFails(e: Expr, args: seq<int>)
    requires WellFormed(e) && VarsBelow(e, |args|) && ArgsOk(args) && !DivSafe(e, args)
    ensures Call(CalcBody(e), args) == None
  {
    EmitDivFails(e, args, [], 0);
  }

  /** The code emitted for a tree with an undefined division fails,
      whatever registers come before it: either an operand's code fails,
      or both run and the division itself has no result. */
  lemma {:induction false} EmitDivFails(e: Expr, args: seq<int>, regs: seq<RtVal>, base: nat)
    requires WellFormed(e) && VarsBelow(e, |args|) && ArgsOk(args) && !DivSafe(e, args)
    requires base == |regs|
    ensures Exec(Emit(e, Param, base).code, args, regs) == None
    decreases e
  {
    var el := Emit(e.left, Param, base);
    var mid := base + |el.code|;
    var er := Emit(e.right, Param, mid);
    var ins := BinOp(BinOpOf(e.kind).value, el.value, er.value);
    if !DivSafe(e.left, args) || !DivSafe(e.right, args) {
      EmitOp(e, Param, base, mid);
      assert el.code + er.code + [ins] == el.code + (er.code + [ins]);
      ExecAppend(el.code, er.code + [ins], args, regs);
      if !DivSafe(e.left, args) {
        EmitDivFails(e.left, args, regs, base);
      } else {
        EmitCorrect(e.left, args, regs, base);
        var r1 := Exec(el.code, args, regs).value;
        ExecAppend(er.code, [ins], args, r1);
        EmitDivFails(e.right, args, r1, mid);
      }
    } else {
      UndefinedDivision(e, args, regs, base);
    }
  }

  /** The division at the root of a tree is undefined while its operands
      are not: both operands' code runs, and the division instruction has
      no result. */
  lemma UndefinedDivision(e: Expr, args: seq<int>, regs: seq<RtVal>, base: nat)
    requires WellFormed(e) && e.Op? && VarsBelow(e, |args|) && ArgsOk(args) && base == |regs|
    requires DivSafe(e.left, args) && DivSafe(e.right, args) && !DivSafe(e, args)
    ensures Exec(Emit(e, Param, base).code, args, regs) == None
  {
    var el := Emit(e.left, Param, base);
    var mid := base + |el.code|;
    var er := Emit(e.right, Param, mid);
    var ins := BinOp(SDiv, el.value, er.value);
    EmitOp(e, Param, base, mid);
    EmitCorrect(e.left, args, regs, base);
    var r1 := Exec(el.code, args, regs).value;
    EmitCorrect(e.right, args, r1, mid);
    var r2 := Exec(er.code, args, r1).value;
    OperandStable(el.value, r1, r2);
    ExecOperator(el.code, er.code, ins, args, regs, r1, r2);
    assert e.kind == DIV && !DivDefined(Eval(e.left, args), Eval(e.right, args));
    assert Step(ins, args, r2) == None;
  }

  /** In particular, a division whose operands evaluate to the most
      negative value and -1 overflows: the compiled function has no
      defined result. */
  lemma DivisionOverflowUndefined(l: Expr, r: Expr, args: seq<int>)
    requires WellFormed(l) && VarsBelow(l, |args|) && DivSafe(l, args)
    requires WellFormed(r) && VarsBelow(r, |args|) && DivSafe(r, args)
    requires ArgsOk(args) && Eval(l, args) == -TWO_63 && Eval(r, args) == -1
    ensures Call(CalcBody(Op(DIV, l, r)), args) == None
  {
    assert !DivSafe(Op(DIV, l, r), args);
    DivisionFails(Op(DIV, l, r), args);
  }

  /** Variable indices are not checked against the argument count: a
      function whose tree has a variable at or past the end of the
      arguments loads outside the argument array, which is undefined. */
  lemma UncheckedIndex(e: Expr, args: seq<int>)
    requires WellFormed(e) && !VarsBelow(e, |args|)
    ensures Call(CalcBody(e), args) == None
  {
    EmitFails(e, args, [], 0);
  }

  /** The code emitted for a tree with a variable at or past the end of
      the arguments fails, whatever registers come before it. */
  lemma {:induction false} EmitFails(e: Expr, args: seq<int>, regs: seq<RtVal>, base: nat)
    requires WellFormed(e) && !VarsBelow(e, |args|) && base == |regs|
    ensures Exec(Emit(e, Param, base).code, args, regs) == None
    decreases e, 1
  {
    if e.Leaf? {
      var code := Emit(e, Param, base).code;
      var r1 := regs + [Ptr(ToInt32(e.val))];
      assert Exec(code, args, regs) == Exec(code[1..], args, r1);
      assert r1[base] == Ptr(ToInt32(e.val));
    } else {
      OperatorFails(e, args, regs, base);
    }
  }

  /** The operator case of EmitFails: the out-of-range variable is in one
      of the operands, whose code fails. */
  lemma {:induction false} OperatorFails(e: Expr, args: seq<int>, regs: seq<RtVal>, base: nat)
    requires WellFormed(e) && e.Op? && !VarsBelow(e, |args|) && base == |regs|
    ensures Exec(Emit(e, Param, base).code, args, regs) == None
    decreases e, 0
  {
    var el := Emit(e.left, Param, base);
    var mid := base + |el.code|;
    var er := Emit(e.right, Param, mid);
    var ins := BinOp(BinOpOf(e.kind).value, el.value, er.value);
    EmitOp(e, Param, base, mid);
    assert el.code + er.code + [ins] == el.code + (er.code + [ins]);
    ExecAppend(el.code, er.code + [ins], args, regs);
    if !VarsBelow(e.left, |args|) {
      EmitFails(e.left, args, regs, base);
    } else if Exec(el.code, args, regs).Some? {
      var r1 := Exec(el.code, args, regs).value;
      EmitFails(e.right, args, r1, mid);
      ExecAppend(er.code, [ins], args, r1);
    }
  }
}
