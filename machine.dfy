/** A straight-line interpreter for the abstract IR: the reference against
    which the emitted code is judged. Instruction `i` of a block defines
    register `i`; running code that would be undefined (a null operand, an
    out-of-range load, a division by zero, a misplaced return) yields
    `None`. */
module Machine {
  import opened Int64
  import opened Ir
  import opened Options

  /** A run-time value: a 64-bit integer or an address, given as an element
      offset into the argument array. */
  datatype RtVal = Int(i: int) | Ptr(offset: int)

  /** The value of an operand once the registers `regs` are defined. The
      32-bit constant is read as signed, as the address computation
      sign-extends its index. */
  function Operand(v: Value, regs: seq<RtVal>): (r: Option<RtVal>)
    ensures v.Reg? ==> (r.Some? <==> v.index < |regs|)
    ensures v.Null? ==> r == None
  {
    match v
    case ConstI64(n) => Some(Int(n))
    case ConstI32(b) => Some(Int(ToInt32(b)))
    case Param => Some(Ptr(0))
    case Reg(i) => if i < |regs| then Some(regs[i]) else None
    case Null => None
  }

  /** The 64-bit result of a binary operator, or `None` for a division
      that is undefined: by zero, or the most negative value by -1 (the
      machine division traps on both). */
  function Arith(op: BinKind, a: int, b: int): (r: Option<int>)
    ensures r.Some? <==> (op != SDiv || DivDefined(a, b))
    ensures r.Some? ==> InInt64(r.value)
  {
    match op
    case Add => Some(Wrap64(a + b))
    case Sub => Some(Wrap64(a - b))
    case Mul => Some(Wrap64(a * b))
    case SDiv => if DivDefined(a, b) then Some(Wrap64(TruncDiv(a, b))) else None
  }

  /** The value one instruction defines: an address computation defines
      an address, a load one of the arguments, an operator a 64-bit
      integer, and a return nothing. */
  function Step(ins: Instr, args: seq<int>, regs: seq<RtVal>): (r: Option<RtVal>)
    ensures ins.Ret? ==> r == None
    ensures ins.Gep? && r.Some? ==> r.value.Ptr?
    ensures ins.Load? && r.Some? ==> r.value.Int? && r.value.i in args
    ensures ins.BinOp? && r.Some? ==> r.value.Int? && InInt64(r.value.i)
  {
    match ins
    case Gep(b, o) =>
      (match (Operand(b, regs), Operand(o, regs))
       case (Some(Ptr(p)), Some(Int(n))) => Some(Ptr(p + n))
       case _ => None)
    case Load(a) =>
      (match Operand(a, regs)
       case Some(Ptr(p)) => if 0 <= p < |args| then Some(Int(args[p])) else None
       case _ => None)
    case BinOp(op, x, y) =>
      (match (Operand(x, regs), Operand(y, regs))
       case (Some(Int(a)), Some(Int(b))) =>
         (match Arith(op, a, b)
          case Some(n) => Some(Int(n))
          case None => None)
       case _ => None)
    case Ret(_) => None
  }

  /** Runs `code` after the registers `regs`; on success every instruction
      has added one register and the earlier ones are unchanged. */
  function Exec(code: seq<Instr>, args: seq<int>, regs: seq<RtVal>): (r: Option<seq<RtVal>>)
    ensures r.Some? ==> |r.value| == |regs| + |code| && r.value[..|regs|] == regs
    decreases |code|
  {
    if code == [] then Some(regs)
    else
      match Step(code[0], args, regs)
      case None => None
      case Some(x) => Exec(code[1..], args, regs + [x])
  }

  /** Calls a function whose body is `body`: the straight-line code must end
      in a return of a 64-bit integer. */
  function Call(body: seq<Instr>, args: seq<int>): (r: Option<int>)
    ensures r.Some? ==> |body| > 0 && body[|body| - 1].Ret?
  {
    if |body| == 0 || !body[|body| - 1].Ret? then None
    else
      match Exec(body[..|body| - 1], args, [])
      case None => None
      case Some(regs) =>
        (match Operand(body[|body| - 1].v, regs)
         case Some(Int(n)) => Some(n)
         case _ => None)
  }

  /** Running two pieces of code one after the other is running their
      concatenation. */
  lemma {:induction false} ExecAppend(a: seq<Instr>, b: seq<Instr>, args: seq<int>, regs: seq<RtVal>)
    ensures Exec(a + b, args, regs) ==
      match Exec(a, args, regs)
      case None => None
      case Some(r) => Exec(b, args, r)
    decreases |a|
  {
    if a == [] {
      assert a + b == b;
    } else {
      assert (a + b)[0] == a[0];
      assert (a + b)[1..] == a[1..] + b;
      match Step(a[0], args, regs)
      case None =>
      case Some(x) => ExecAppend(a[1..], b, args, regs + [x]);
    }
  }

  /** A register operand keeps its value when more registers are defined
      after it. */
  lemma OperandStable(v: Value, regs: seq<RtVal>, more: seq<RtVal>)
    requires |regs| <= |more| && more[..|regs|] == regs
    requires !v.Reg? || v.index < |regs|
    ensures Operand(v, more) == Operand(v, regs)
  {
    if v.Reg? {
      assert more[v.index] == more[..|regs|][v.index];
    }
  }

  /** The overflowing division, the most negative value by -1, has no
      result, like a division by zero. */
  lemma DivisionOverflowFails(a: int, b: int)
    requires b == 0 || (a == -TWO_63 && b == -1)
    ensures Arith(SDiv, a, b) == None
  {
  }
}
