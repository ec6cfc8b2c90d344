/** An abstract stand-in for the small part of the LLVM IR the compiler
    emits: SSA operands, the four instruction forms it creates, and an
    append-only basic block. */
module Ir {
  import opened Int64

  /** The four binary operators the compiler creates. */
  datatype BinKind = Add | Sub | Mul | SDiv

  /** An operand. `ConstI64` is a 64-bit integer constant, `ConstI32` a
      32-bit one holding the given bit pattern, `Param` the function's
      pointer argument, `Reg(i)` the value defined by the instruction at
      index `i` of the block, and `Null` a null value. */
  datatype Value =
    | ConstI64(n: int)
    | ConstI32(bits: uint32)
    | Param
    | Reg(index: nat)
    | Null

  /** `Gep(base, offset)` computes the address `offset` elements past
      `base`; `Load(ptr)` reads the 64-bit integer stored there;
      `BinOp(op, lhs, rhs)` combines two 64-bit integers; `Ret(v)` returns
      from the function. */
  datatype Instr =
    | Gep(base: Value, offset: Value)
    | Load(ptr: Value)
    | BinOp(op: BinKind, lhs: Value, rhs: Value)
    | Ret(v: Value)

  /** A basic block: a sequence of instructions that only grows at its
      end. Creating an instruction "in" a block appends it. */
  class Block {
    var instrs: seq<Instr>

    constructor ()
      ensures instrs == []
    {
      instrs := [];
    }

    /** Appends `i` and returns the value it defines. */
    method Append(i: Instr) returns (v: Value)
      modifies this
      ensures instrs == old(instrs) + [i]
      ensures v == Reg(|old(instrs)|)
    {
      v := Reg(|instrs|);
      instrs := instrs + [i];
    }
  }
}
