# llvm-calc in Dafny

llvm-calc compiles an arithmetic expression into a function `calc` and runs
it on the remaining command-line arguments. This project models its three
core pieces and proves what they do.

- **The expression tree** (`expr.h`) is the datatype `Expr.Expr`.
  - `Leaf(kind, val)` holds a VAL literal or a VAR argument index.
  - `Op(kind, left, right)` holds an operation node, with kinds ADD, SUB,
    MUL and DIV.
  - `WellFormed` states that each kind sits on the right constructor.
- **The recursive-descent parser** (`parser.cpp`) is the class
  `Parser.Parser`.
  - It holds the NUL-terminated buffer `src` and a cursor `pos` that every
    production moves in place.
  - The methods `ReadNext`, `ParseExpression`, `ParseTerm`, `ParseFactor`
    and `ParseValue` follow the source's loops and rewinds one for one.
  - Each method is proved to compute a function over `(src, pos)`:
    `ReadAt`, `ExpressionAt`, `TermAt`, `FactorAt` and `ValueAt`.
  - Where the program calls `exit(1)`, the model returns `Failure`. The
    error records where the parse stopped.
- **The code-emission walk** (`calc.cpp`) is the method
  `Calc.CreateOperation`. It appends instructions to an append-only
  `Ir.Block`, and `Calc.CreateCalcFunction` builds the single entry block
  ending in a return.
  - The instructions are abstract stand-ins for the LLVM ones the program
    creates: `Gep`, `Load`, `BinOp` (add, sub, mul, sdiv) and `Ret`.
  - Both methods are proved against the reference walk `Calc.Emit`.

The model is judged against two independent definitions.

- **Two printers.**
  - `ParserProps.Show` writes a tree fully parenthesised, and
    `ParserProps.ParseShow` proves that the parser reads every printed
    well-formed tree back as that tree.
  - `Precedence.PrintE` writes only the parentheses the grammar needs:
    around a right operand of the same level as its operator (`a-(b+c)`,
    `a/(b*c)`), and around an additive operand of `*` or `/`.
    `Precedence.ParsePrint` proves that the parser reads that text back as
    the same tree, for every well-formed tree. So for any operands, chains
    of `+`/`-` and of `*`/`/` fold to the left, and `*`/`/` bind tighter
    than `+`/`-`.
- **An evaluator and a small interpreter.**
  - `Semantics.Eval` evaluates a tree in 64-bit two's-complement
    arithmetic, with division truncating toward zero.
  - `Machine.Call` runs the abstract instructions.
  - `CalcProps.CalcCorrect` proves that the emitted function returns
    `Eval` of the tree on every vector of 64-bit arguments that covers the
    tree's variables and in which every division is defined.
  - The call has no defined result when a variable's index is out of
    range (`CalcProps.UncheckedIndex`) or when any division in the tree is
    undefined (`CalcProps.DivisionFails`). In the program both are
    undefined behaviour: a read past the argument array, and an `sdiv` by
    zero or of the most negative value by -1. The interpreter's `None`
    stands for that.

The parser lemmas also prove:

- the decimal reading of a digit run modulo 2^32, spaces inside it skipped;
- that every returned tree is well-formed;
- where the cursor rests after each production;
- the two error exits.

Concrete scenarios (`Scenarios`) cover:

- left folding and precedence on particular strings;
- `"1 2"`, `"_"`, `"1)"`, `"-1"`, `""` and `"(1+2"`;
- a compiled example, a truncating division, and two undefined divisions
  (one nested, one by zero).

How the modules depend on each other:

| module | file | imports |
|---|---|---|
| `Int64` | int64.dfy | nothing |
| `Options` | option.dfy | nothing |
| `Expr` | expr.dfy | Int64 |
| `Semantics` | semantics.dfy | Int64, Expr |
| `Ir` | ir.dfy | Int64 |
| `Machine` | machine.dfy | Int64, Ir, Options |
| `Parser` | parser.dfy | Int64, Expr |
| `ParserProps` | parser_props.dfy | Int64, Expr, Parser |
| `Precedence` | precedence.dfy | Int64, Expr, Parser, ParserProps |
| `Calc` | calc.dfy | Int64, Expr, Ir, Options |
| `CalcProps` | calc_props.dfy | Int64, Expr, Semantics, Ir, Options, Machine, Calc |
| `Scenarios` | scenarios.dfy | all of the above |

## Model

| member | source | states |
|---|---|---|
| Expr.ConstructorsDoNotCheck | expr.h:24-27 | the two constructors accept unsuitable kinds (a leaf tagged ADD or DIV, an operation tagged VAL or VAR), and such nodes are not well-formed |
| Expr.KindDecidesShape | expr.h:8-28 | in a well-formed tree a node is an operation exactly when its kind is ADD, SUB, MUL or DIV, and a leaf exactly when it is VAL or VAR |
| Int64.Wrap64 | calc.cpp:35-42 | 64-bit wrap-around: the result is a signed 64-bit value congruent to the input modulo 2^64, and an input already in range is unchanged |
| Int64.ToInt32 | calc.cpp:26 | the i32 constant built from a `uint32_t` index reads as a signed 32-bit value congruent to the index modulo 2^32, equal to it below 2^31 |
| Int64.Abs | calc.cpp:41-42 | the magnitude used by signed division is the argument or its negation, never negative |
| Int64.TruncDiv | calc.cpp:41-42 | signed division truncates toward zero: the quotient's magnitude is the dividend's magnitude divided by the divisor's, rounded down, and a non-zero quotient is negative exactly when the operands' signs differ |
| Int64.TruncDivInRange | calc.cpp:41-42 | for 64-bit operands the quotient is a 64-bit value exactly when the division is defined: the only overflow is the most negative value divided by -1 |
| Int64.TruncDivRemainder | calc.cpp:41-42 | signed division truncates: the remainder is smaller than the divisor in magnitude and is zero or has the sign of the dividend |
| Semantics.Apply | calc.cpp:34-42 | every operator result is a signed 64-bit value; a division is applied only where it is defined |
| Semantics.DivisionIsExact | calc.cpp:41-42 | a defined division of 64-bit values is the truncated quotient itself, with nothing wrapped |
| Semantics.EvalInInt64 | calc.cpp:34-42 | a tree over 64-bit arguments, with every division defined, evaluates to a signed 64-bit value |
| Ir.Block.constructor | calc.cpp:52 | a new basic block is empty |
| Ir.Block.Append | calc.cpp:27-28 | creating an instruction in a block appends exactly it at the end, nothing else changes, and its value is the register of that new index |
| Machine.Operand | calc.cpp:24-28 | a register operand has a value exactly when it was defined earlier; a null operand never has one |
| Machine.Arith | calc.cpp:35-42 | an add, sub or mul always yields a value, and sdiv exactly when the division is defined (a non-zero divisor, and not the most negative value by -1); every result is a signed 64-bit value |
| Machine.DivisionOverflowFails | calc.cpp:41-42 | a signed division by zero, or of the most negative value by -1, has no result: the machine division traps on both |
| Machine.Step | calc.cpp:27-42 | an address computation defines an address, a load one of the arguments, an operator a signed 64-bit integer, and a return nothing |
| Machine.Exec | calc.cpp:52-56 | running straight-line code defines exactly one register per instruction and leaves earlier registers unchanged |
| Machine.Call | calc.cpp:107 | a call succeeds only on a body that ends in a return |
| Machine.ExecAppend | calc.cpp:31-32 | code appended piece by piece runs piece by piece |
| Machine.OperandStable | calc.cpp:31-32 | the left operand's value survives the code emitted for the right operand |
| Calc.BinOpOf | calc.cpp:34-46 | exactly the four operator kinds have an instruction; every other kind takes the default branch |
| Calc.Emit | calc.cpp:22-47 | the value a node yields is never null, and when it is a register it is defined by the node's own code |
| Calc.EmitOp | calc.cpp:31-42 | an operator node's code is the left operand's code, then the right operand's, then one operator instruction, whose register is the node's value |
| Calc.OperatorCompletes | calc.cpp:31-42 | after both operands are appended, appending the operator instruction gives the block followed by the node's code |
| Calc.OperatorValue | calc.cpp:34-42 | an operator node's value is the register of its operator instruction |
| Calc.CreateOperation | calc.cpp:22-47 | the walk only appends: the block becomes its old contents followed by the node's code, and the returned value is the node's value |
| Calc.CalcBody | calc.cpp:50-58 | the function body is the walk's code followed by one return of its value |
| Calc.CreateCalcFunction | calc.cpp:50-58 | the entry block is fresh and holds exactly the function body |
| CalcProps.OperatorsHaveInstructions | calc.cpp:34-42 | ADD maps to add, SUB to sub, MUL to mul and DIV to signed division |
| CalcProps.EmitLength | calc.cpp:22-46 | the walk appends 2 instructions per VAR leaf and 1 per operation node, and none for a VAL leaf |
| CalcProps.EmitScoped | calc.cpp:22-47 | every emitted instruction uses only non-null operands defined before it, and the node's value is defined by the end |
| CalcProps.OperatorScoped | calc.cpp:31-42 | the same for an operator node, from its operands |
| CalcProps.ScopedOperator | calc.cpp:31-42 | joining two well-scoped pieces with an instruction over values they define gives well-scoped code |
| CalcProps.EmitCorrect | calc.cpp:22-47 | the emitted code runs to completion and its value is the tree's evaluation |
| CalcProps.OperatorCorrect | calc.cpp:31-42 | the same for an operator node, from its operands |
| CalcProps.OperatorStep | calc.cpp:34-42 | an operator instruction over two integer operands computes the evaluator's operator |
| CalcProps.CalcCorrect | calc.cpp:50-58 | the compiled `calc` returns the evaluation of the tree for every vector of 64-bit arguments that covers its variables and in which every division is defined |
| CalcProps.CalcBodyShape | calc.cpp:52-56 | the body has 2·VAR + operations + 1 instructions, and the only return is the last |
| CalcProps.UncheckedIndex | calc.cpp:26-28 | any well-formed tree holding a variable whose index is not below the number of arguments leaves the call without a defined result: a load out of the argument array with no bounds check |
| CalcProps.EmitFails | calc.cpp:22-32 | the code emitted for a node holding such a variable does not run to completion |
| CalcProps.OperatorFails | calc.cpp:31-42 | the same for an operator node, from whichever operand holds the variable |
| CalcProps.DivisionFails | calc.cpp:41-42 | the converse of CalcCorrect's division condition: when any division in the tree, at the root or below, has a zero divisor or divides the most negative value by -1, the compiled function has no defined result |
| CalcProps.EmitDivFails | calc.cpp:22-42 | the code emitted for a tree with an undefined division does not run to completion, whatever registers precede it |
| CalcProps.UndefinedDivision | calc.cpp:31-42 | when both operands are defined and the division at the root is not, the operands' code runs and the division instruction has no result |
| CalcProps.DivisionOverflowUndefined | calc.cpp:41-42 | the special case where the root of the tree divides the most negative 64-bit value by -1: the compiled function has no defined result |
| Parser.DigitValue | parser.cpp:102 | a digit character stands for a value below ten |
| Parser.SkipSpaces | parser.cpp:57 | skipping spaces stops at a non-space character at or after the cursor |
| Parser.SkippedAreSpaces | parser.cpp:57 | everything skipped is a space |
| Parser.ReadAt | parser.cpp:56-59 | readNext returns the first non-space character and leaves the cursor just past it |
| Parser.ValueLoop | parser.cpp:100-106 | the digit loop stops with the cursor on a character that is neither a digit nor a space |
| Parser.ValueAt | parser.cpp:97-108 | parseValue leaves the cursor on the first character it did not consume, which is neither a digit nor a space |
| Parser.ExpressionAt | parser.cpp:38-54 | a parsed expression is well-formed and the cursor rests on a character that is not a space, '+' or '-' |
| Parser.ExpressionTail | parser.cpp:41-53 | the same for the '+'/'-' loop from the tree built so far |
| Parser.TermAt | parser.cpp:61-77 | a parsed term is well-formed and the cursor rests on a character that is not a space, '*' or '/' |
| Parser.TermTail | parser.cpp:64-76 | the same for the '*'/'/' loop from the tree built so far |
| Parser.FactorAt | parser.cpp:79-95 | a parsed factor is well-formed and consumes at least one character |
| Parser.Parse | calc.cpp:65 | parsing the argument string yields only well-formed trees |
| Parser.Parser.constructor | calc.cpp:65 | the parser starts at the first character of the terminated buffer |
| Parser.Parser.ReadNext | parser.cpp:56-59 | the method returns what `ReadAt` reads and leaves the cursor where `ReadAt` does |
| Parser.Parser.ParseExpression | parser.cpp:38-54 | the method's result and final cursor are those of `ExpressionAt` |
| Parser.Parser.ParseTerm | parser.cpp:61-77 | the method's result and final cursor are those of `TermAt` |
| Parser.Parser.ParseFactor | parser.cpp:79-95 | the method's result and final cursor are those of `FactorAt` |
| Parser.Parser.ParseValue | parser.cpp:97-108 | the method's value and final cursor are those of `ValueAt` |
| Parser.ParseString | calc.cpp:65 | running the parser object over the string and its terminator computes `Parse` |
| ParserProps.FoldDigitsMod | parser.cpp:102 | reducing the accumulator modulo 2^32 after each digit does not change the reading modulo 2^32 |
| ParserProps.ValueLoopMeaning | parser.cpp:100-106 | the digit loop consumes only digits and spaces and returns the decimal value of the digits, read on from the accumulator, modulo 2^32 |
| ParserProps.ValueMeaning | parser.cpp:97-108 | parseValue returns the decimal value, modulo 2^32, of the digits it consumed, spaces skipped |
| ParserProps.ValueLoopOfDigitRun | parser.cpp:100-106 | on a contiguous digit run the loop consumes exactly that run |
| ParserProps.ValueOfDigitRun | parser.cpp:97-108 | parseValue on a contiguous digit run reads its decimal value modulo 2^32 and stops right after it |
| ParserProps.FactorRejects | parser.cpp:92-93 | a factor whose first non-space character is not '(', '_' or a digit is rejected at that character |
| ParserProps.GroupRejects | parser.cpp:84 | a '(' group whose expression is not followed by ')' is rejected at the character found instead |
| ParserProps.StopAt | parser.cpp:49-51 | both loops stop on a character that is none of the four operators, tree unchanged and cursor on it |
| ParserProps.TermStopsAt | parser.cpp:72-74 | the term loop stops on a character that is not a space, '*' or '/', tree unchanged and cursor on it |
| ParserProps.ExpressionStopsAt | parser.cpp:49-51 | the expression loop stops on a character that is not a space, '+' or '-', so also on a '*' or '/', tree unchanged and cursor on it |
| ParserProps.FactorOnDigit | parser.cpp:89-91 | a factor starting with a digit is a VAL leaf holding the value read from that digit on |
| ParserProps.FactorOnUnderscore | parser.cpp:86-88 | a factor starting with '_' is a VAR leaf holding the value read after it |
| ParserProps.ReadAtNonSpace | parser.cpp:56-59 | readNext on a non-space character reads exactly it |
| ParserProps.FactorParen | parser.cpp:82-85 | a parenthesised expression closed by ')' is a factor holding that expression |
| ParserProps.AdditivePair | parser.cpp:39-47 | a '+' or '-' between two factors, before ')', parses as that operation over them |
| ParserProps.MultiplicativePair | parser.cpp:62-70 | a '*' or '/' between two factors, before ')', parses as that operation over them |
| ParserProps.ValRoundTrip | parser.cpp:89-91 | the printed digits of a VAL leaf are read back as that leaf |
| ParserProps.VarRoundTrip | parser.cpp:86-88 | the printed `_` and digits of a VAR leaf are read back as that leaf |
| ParserProps.LeafRoundTrip | parser.cpp:86-91 | every printed leaf is read back as itself |
| ParserProps.OpRoundTrip | parser.cpp:79-85 | a group of two factors around an operator character is read back as that operation |
| ParserProps.FactorRoundTrip | parser.cpp:79-95 | every printed tree is read back by parseFactor as itself, the cursor right after it |
| ParserProps.OpFactorRoundTrip | parser.cpp:82-85 | the operation case of the round trip, by induction on both children |
| ParserProps.OpShowLayout | parser.cpp:82-85 | where the '(' , the operator, the children's texts and the ')' of a printed operation lie |
| ParserProps.ParseShow | parser.cpp:38-108 | printing then parsing gives back every well-formed tree |
| Precedence.TermStep | parser.cpp:65-71 | one round of the term loop: a '*' or '/' and the factor after it extend the tree built so far |
| Precedence.ExpressionStep | parser.cpp:42-48 | one round of the expression loop: a '+' or '-' and the term after it extend the tree built so far |
| Precedence.FactorPrinted | parser.cpp:79-95 | any tree written as a factor with minimal parentheses is read back by parseFactor as itself, the cursor right after it |
| Precedence.TermPrinted | parser.cpp:61-77 | any tree written as a term with minimal parentheses brings the term loop to the end of its text with that tree built |
| Precedence.ExpressionPrinted | parser.cpp:38-54 | any tree written as an expression with minimal parentheses brings the expression loop to the end of its text with that tree built |
| Precedence.ParsePrint | parser.cpp:38-108 | printing with only the parentheses the grammar needs, then parsing, gives back every well-formed tree |
| Precedence.AdditiveChainFoldsLeft | parser.cpp:41-53 | for any operands, `a ± b ± c` parses as `(a ± b) ± c` |
| Precedence.MultiplicativeChainFoldsLeft | parser.cpp:64-76 | for any operands, `a */ b */ c` parses as `(a */ b) */ c` |
| Precedence.ProductGroupsOnTheRight | parser.cpp:38-77 | for any operands, `a ± b */ c` parses as `a ± (b */ c)` |
| Precedence.ProductGroupsOnTheLeft | parser.cpp:38-77 | for any operands, `a */ b ± c` parses as `(a */ b) ± c` |
| Scenarios.SubtractionFoldsLeft | parser.cpp:39-47 | `1-2-3` parses as SUB(SUB(1,2),3) |
| Scenarios.ProductBindsTighterOnTheRight | parser.cpp:38-77 | `2+3*4` parses as ADD(2, MUL(3,4)) |
| Scenarios.ProductBindsTighterOnTheLeft | parser.cpp:38-77 | `2*3+4` parses as ADD(MUL(2,3), 4) |
| Scenarios.SpacesInsideNumber | parser.cpp:97-104 | `1 2` parses as the literal 12 |
| Scenarios.BareUnderscore | parser.cpp:86-88 | `_` alone parses as VAR(0) |
| Scenarios.TrailingInputIgnored | parser.cpp:49-51 | `1)` parses as the literal 1, the `)` left unread |
| Scenarios.NoNegativeLiterals | parser.cpp:92-93 | `-1` is rejected at its first character |
| Scenarios.EmptyInputRejected | parser.cpp:92-93 | the empty string is rejected at the terminator |
| Scenarios.UnclosedGroup | parser.cpp:84 | `(1+2` is rejected at the terminator where ')' was expected |
| Scenarios.ParsedExample | parser.cpp:38-108 | `_0*_1+3` parses as ADD(MUL(VAR 0, VAR 1), 3) |
| Scenarios.CompiledExample | calc.cpp:22-58 | the compiled `_0*_1+3` returns 23 on the arguments 4 and 5 |
| Scenarios.DivisionText | parser.cpp:38-95 | `(0-7)/2` parses as DIV(SUB(0,7), 2) |
| Scenarios.TruncatingDivision | calc.cpp:41-42 | the function compiled from the text `(0-7)/2` returns -3: division truncates toward zero |
| Scenarios.NestedOverflowUndefined | calc.cpp:41-42 | `(_0/_1)+0` on the arguments -2^63 and -1 has no defined result |
| Scenarios.ZeroDivisorUndefined | calc.cpp:41-42 | `1/_0` on the argument 0 has no defined result |
| Scenarios.NegativeResult | calc.cpp:37-38 | the compiled `1-2-3` returns -4 |

## Left out

- `main` (calc.cpp:60-111) is not modelled. It creates the LLVM module,
  builds and runs the JIT engine, verifies the module and prints. These are
  foreign library calls and I/O.
- `Machine`: the LLVM semantics of `ConstantInt`, `GetElementPtrInst`,
  `LoadInst`, `BinaryOperator` and `ReturnInst` are replaced by abstract
  instructions and a straight-line interpreter. Instruction names,
  types, the module and the `arg_begin` iterator are not modelled.
- The arguments, which the program converts with `atol` and collects in a
  vector (calc.cpp:100-104), are a given sequence of integers.
  - `atol` is a C library call. Its `long` results are 64-bit values,
    stored as `uint64_t` and loaded as `i64`, so `CalcProps.ArgsOk` requires
    every argument to be a signed 64-bit value.
  - A VAR leaf `i` reads element `i` of that sequence.
- parser.h is not part of this model. It only declares `parseExpression`.
- Memory: raw pointers, `new` and the trees that are never freed are
  replaced by values.
- Process termination: `exit(1)` becomes a `Failure` result. The error
  records the position of the offending character, which the program does
  not report.
- The operation constructor leaves `val` uninitialised
  (expr.h:27). `Op` has no `val` field, so nothing can read it.
- CalcProps.CalcCorrect: requires `Semantics.DivSafe`, that every
  division is defined. LLVM's `sdiv` is undefined for a zero divisor and for
  the most negative value divided by -1, and on x86-64 both trap. The
  interpreter gives no result on both (`Machine.DivisionOverflowFails`),
  and `CalcProps.DivisionFails` proves the converse of this requirement:
  a tree with an undefined division has no defined result. The trap itself
  is not modelled.
- CalcProps.CalcCorrect: requires fewer than 2^31 arguments
  (`CalcProps.ArgsOk`). The address of a VAR leaf is computed from an i32
  constant, so an index of 2^31 or more would wrap to a negative offset.
  The model reads the constant as signed 32-bit (`Int64.ToInt32`).
- What the program does not have, so neither does the model:
  - literals and indices are `uint32_t`, read modulo 2^32, not signed
    64-bit;
  - only `_` marks a variable (parser.cpp:86), not `#` or `$`;
  - a factor starting with `-` is rejected, so there are no negative
    literals (parser.cpp:92-93);
  - there is no argument-counting pass and no check on the number of
    arguments; the model states instead that a call with too few arguments
    has no defined result (`CalcProps.UncheckedIndex`);
  - a variable's address is computed by `getelementptr` and loaded, rather
    than bound to one declared parameter per variable.
