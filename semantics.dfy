/** The meaning of an expression tree: the 64-bit signed value the compiled
    function returns for a given argument vector. */
module Semantics {
  import opened Int64
  import opened Expr

  /** Every division in the tree is defined: its divisor does not evaluate
      to zero, and it is not the most negative value divided by -1. */
  predicate DivSafe(e: Expr, args: seq<int>)
    requires WellFormed(e) && VarsBelow(e, |args|)
    decreases e, 0
  {
    match e
    case Leaf(_, _) => true
    case Op(k, l, r) =>
      DivSafe(l, args) && DivSafe(r, args) && (k == DIV ==> DivDefined(Eval(l, args), Eval(r, args)))
  }

  /** Evaluation with two's-complement 64-bit arithmetic: a literal denotes
      its value, VAR(i) the i-th argument, and DIV a signed division
      truncating towards zero. */
  function Eval(e: Expr, args: seq<int>): int
    requires WellFormed(e) && VarsBelow(e, |args|) && DivSafe(e, args)
    decreases e, 1
  {
    match e
    case Leaf(k, v) => if k == VAL then v else args[v]
    case Op(k, l, r) => Apply(k, Eval(l, args), Eval(r, args))
  }

  /** The 64-bit result of an operator: two's-complement wrap-around, and
      division truncating towards zero. */
  function Apply(k: ExprType, a: int, b: int): (r: int)
    requires IsOperator(k) && (k == DIV ==> DivDefined(a, b))
    ensures InInt64(r)
  {
    match k
    case ADD => Wrap64(a + b)
    case SUB => Wrap64(a - b)
    case MUL => Wrap64(a * b)
    case DIV => Wrap64(TruncDiv(a, b))
  }

  /** On 64-bit operands a defined division needs no wrap-around: it is
      the truncated quotient itself. */
  lemma DivisionIsExact(a: int, b: int)
    requires InInt64(a) && InInt64(b) && DivDefined(a, b)
    ensures Apply(DIV, a, b) == TruncDiv(a, b)
  {
    TruncDivInRange(a, b);
  }

  /** Arguments the program can pass: each is a `long` read by `atol`. */
  predicate Int64Args(args: seq<int>) {
    forall i :: 0 <= i < |args| ==> InInt64(args[i])
  }

  /** On 64-bit arguments every tree evaluates to a 64-bit value. */
  lemma EvalInInt64(e: Expr, args: seq<int>)
    requires WellFormed(e) && VarsBelow(e, |args|) && DivSafe(e, args) && Int64Args(args)
    ensures InInt64(Eval(e, args))
  {
  }
}
