/** The code-emission walk of the compiler: a post-order traversal of the
    expression tree that appends instructions to a block, and the shape of
    the single-block `calc` function built around it. */
module Calc {
  import opened Int64
  import opened Expr
  import opened Ir
  import opened Options

  /** The instruction an operator node becomes; `None` is the default
      branch that yields a null value. */
  function BinOpOf(k: ExprType): (r: Option<BinKind>)
    ensures r.Some? <==> IsOperator(k)
  {
    match k
    case ADD => Some(Add)
    case SUB => Some(Sub)
    case MUL => Some(Mul)
    case DIV => Some(SDiv)
    case _ => None
  }

  /** The instructions emitting `e` appends to a block that already holds
      `base` instructions, and the value that stands for `e`. */
  datatype Emitted = Emitted(code: seq<Instr>, value: Value)

  /** The reference definition of the walk. A register it yields is one
      defined by the code it emits. */
  function Emit(e: Expr, params: Value, base: nat): (r: Emitted)
    requires WellFormed(e)
    ensures r.value.Reg? ==> base <= r.value.index < base + |r.code|
    ensures r.value != Null
  {
    match e
    case Leaf(k, v) =>
      if k == VAL then Emitted([], ConstI64(v))
      else Emitted([Gep(params, ConstI32(v)), Load(Reg(base))], Reg(base + 1))
    case Op(k, l, r) =>
      var lhs := Emit(l, params, base);
      var rhs := Emit(r, params, base + |lhs.code|);
      var n := base + |lhs.code| + |rhs.code|;
      match BinOpOf(k)
      case Some(op) => Emitted(lhs.code + rhs.code + [BinOp(op, lhs.value, rhs.value)], Reg(n))
      case None => Emitted(lhs.code + rhs.code, Null)
  }

  /** The code for an operator node is its left operand's code, then its
      right operand's code, then one instruction that defines its value;
      `mid` is the index at which the right operand's code starts. */
  lemma EmitOp(e: Expr, params: Value, base: nat, mid: nat)
    requires WellFormed(e) && e.Op?
    requires mid == base + |Emit(e.left, params, base).code|
    ensures Emit(e, params, base).code ==
      Emit(e.left, params, base).code + Emit(e.right, params, mid).code
      + [BinOp(BinOpOf(e.kind).value, Emit(e.left, params, base).value, Emit(e.right, params, mid).value)]
    ensures Emit(e, params, base).value == Reg(mid + |Emit(e.right, params, mid).code|)
  {
  }

  /** After the operands of an operator node have been appended to a block
      that held `before`, appending the operator instruction completes the
      code for the node. */
  lemma OperatorCompletes(e: Expr, params: Value, before: seq<Instr>, mid: seq<Instr>,
                          now: seq<Instr>, lhs: Value, rhs: Value, base: nat, next: nat)
    requires WellFormed(e) && e.Op?
    requires base == |before| && next == |mid|
    requires mid == before + Emit(e.left, params, base).code
    requires lhs == Emit(e.left, params, base).value
    requires now == mid + Emit(e.right, params, next).code
    requires rhs == Emit(e.right, params, next).value
    ensures now + [BinOp(BinOpOf(e.kind).value, lhs, rhs)] == before + Emit(e, params, base).code
  {
    var cl := Emit(e.left, params, base).code;
    var cr := Emit(e.right, params, next).code;
    EmitOp(e, params, base, next);
    AppendParts(before, cl, cr, BinOp(BinOpOf(e.kind).value, lhs, rhs), mid, now);
  }

  /** The value of an operator node is the register its operator
      instruction defines. */
  lemma OperatorValue(e: Expr, params: Value, base: nat, mid: nat, now: nat)
    requires WellFormed(e) && e.Op?
    requires mid == base + |Emit(e.left, params, base).code|
    requires now == mid + |Emit(e.right, params, mid).code|
    ensures Reg(now) == Emit(e, params, base).value
  {
    EmitOp(e, params, base, mid);
  }

  /** Regrouping of the appends that build an operator node's code. */
  lemma AppendParts<X>(before: seq<X>, cl: seq<X>, cr: seq<X>, ins: X, mid: seq<X>, now: seq<X>)
    requires mid == before + cl && now == mid + cr
    ensures now + [ins] == before + (cl + cr + [ins])
  {
  }

  /** Appends the code for `e` to `block` and returns the value that
      stands for it. */
  method CreateOperation(params: Value, e: Expr, block: Block) returns (v: Value)
    requires WellFormed(e)
    modifies block
    ensures block.instrs == old(block.instrs) + Emit(e, params, |old(block.instrs)|).code
    ensures v == Emit(e, params, |old(block.instrs)|).value
    decreases e
  {
    match e
    case Leaf(k, val) =>
      if k == VAL {
        assert old(block.instrs) + [] == old(block.instrs);
        v := ConstI64(val);
      } else {
        var i := ConstI32(val);
        var pointer := block.Append(Gep(params, i));
        v := block.Append(Load(pointer));
        assert block.instrs == old(block.instrs) + [Gep(params, i), Load(Reg(|old(block.instrs)|))];
      }
    case Op(k, left, right) =>
      var lhs := CreateOperation(params, left, block);
      ghost var mid := block.instrs;
      var rhs := CreateOperation(params, right, block);
      OperatorCompletes(e, params, old(block.instrs), mid, block.instrs, lhs, rhs,
                        |old(block.instrs)|, |mid|);
      OperatorValue(e, params, |old(block.instrs)|, |mid|, |block.instrs|);
      match k
      case ADD => v := block.Append(BinOp(Add, lhs, rhs));
      case SUB => v := block.Append(BinOp(Sub, lhs, rhs));
      case MUL => v := block.Append(BinOp(Mul, lhs, rhs));
      case DIV => v := block.Append(BinOp(SDiv, lhs, rhs));
      case _ => v := Null;
  }

  /** The body of the `calc` function: the code for `e` in one entry block,
      followed by a return of its value. */
  function CalcBody(e: Expr): (body: seq<Instr>)
    requires WellFormed(e)
    ensures |body| > 0 && body[|body| - 1] == Ret(Emit(e, Param, 0).value)
    ensures body[..|body| - 1] == Emit(e, Param, 0).code
  {
    var em := Emit(e, Param, 0);
    em.code + [Ret(em.value)]
  }

  /** Builds the entry block of the `calc` function over its pointer
      argument. */
  method CreateCalcFunction(e: Expr) returns (block: Block)
    requires WellFormed(e)
    ensures fresh(block)
    ensures block.instrs == CalcBody(e)
  {
    block := new Block();
    var params := Param;
    var result := CreateOperation(params, e, block);
    var _ := block.Append(Ret(result));
  }
}
