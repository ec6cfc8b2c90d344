/** The expression tree: a node is either a value/variable leaf or a binary
    operation over two owned children. */
module Expr {
  import opened Int64

  /** The six node kinds. */
  datatype ExprType = ADD | SUB | MUL | DIV | VAL | VAR

  predicate IsOperator(k: ExprType) {
    k == ADD || k == SUB || k == MUL || k == DIV
  }

  /** The two constructors of a node. The leaf constructor stores a kind and
      a 32-bit unsigned value and has no children; the operation constructor
      stores a kind and its children in the given order and has no value.
      Neither checks that the kind suits it. */
  datatype Expr =
    | Leaf(kind: ExprType, val: uint32)
    | Op(kind: ExprType, left: Expr, right: Expr)

  /** Operator kinds sit on operation nodes, VAL and VAR on leaves,
      throughout the tree. */
  predicate WellFormed(e: Expr) {
    match e
    case Leaf(k, _) => k == VAL || k == VAR
    case Op(k, l, r) => IsOperator(k) && WellFormed(l) && WellFormed(r)
  }

  /** Number of VAR leaves. */
  function VarCount(e: Expr): nat {
    match e
    case Leaf(k, _) => if k == VAR then 1 else 0
    case Op(_, l, r) => VarCount(l) + VarCount(r)
  }

  /** Number of operation nodes. */
  function OpCount(e: Expr): nat {
    match e
    case Leaf(_, _) => 0
    case Op(_, l, r) => 1 + OpCount(l) + OpCount(r)
  }

  /** Every variable index in the tree is below n. */
  predicate VarsBelow(e: Expr, n: nat) {
    match e
    case Leaf(k, v) => k == VAR ==> v < n
    case Op(_, l, r) => VarsBelow(l, n) && VarsBelow(r, n)
  }

  /** The constructors accept kinds that do not suit them: the resulting
      nodes are not well-formed. */
  lemma ConstructorsDoNotCheck(v: uint32, l: Expr, r: Expr)
    ensures !WellFormed(Leaf(ADD, v)) && !WellFormed(Leaf(DIV, v))
    ensures !WellFormed(Op(VAL, l, r)) && !WellFormed(Op(VAR, l, r))
  {
  }

  /** In a well-formed tree, a node's shape is decided by its kind. */
  lemma {:induction false} KindDecidesShape(e: Expr)
    requires WellFormed(e)
    ensures e.Op? <==> IsOperator(e.kind)
    ensures e.Leaf? <==> (e.kind == VAL || e.kind == VAR)
  {
  }
}
