/** Worked inputs: what the parser makes of particular argument strings,
    and what the compiled function returns for them. */
module Scenarios {
  import opened Int64
  import opened Expr
  import opened Parser
  import opened ParserProps
  import opened Semantics
  import opened Options
  import opened Machine
  import opened Calc
  import opened CalcProps
  import opened Precedence

  /** A single digit followed by a character that neither is a space nor
      continues the number is a VAL leaf. */
  lemma OneDigit(src: seq<char>, pos: nat)
    requires SourceOk(src) && pos + 1 < |src| && IsDigit(src[pos])
    requires src[pos + 1] != ' ' && !IsDigit(src[pos + 1])
    ensures FactorAt(src, pos) == Success(Parsed(Leaf(VAL, DigitValue(src[pos])), pos + 1))
  {
    ReadAtNonSpace(src, pos);
    ReadAtNonSpace(src, pos + 1);
    var d := DigitValue(src[pos]);
    assert (10 * 0 + d) % TWO_32 == d;
    assert ValueLoop(src, pos + 1, d) == (d, pos + 1);
    assert ValueAt(src, pos) == (d, pos + 1);
    FactorOnDigit(src, pos);
  }

  /** '_' and a single digit, followed by a character that neither is a
      space nor continues the number, is a VAR leaf. */
  lemma OneDigitVariable(src: seq<char>, pos: nat)
    requires SourceOk(src) && pos + 2 < |src| && src[pos] == '_' && IsDigit(src[pos + 1])
    requires src[pos + 2] != ' ' && !IsDigit(src[pos + 2])
    ensures FactorAt(src, pos) == Success(Parsed(Leaf(VAR, DigitValue(src[pos + 1])), pos + 2))
  {
    ReadAtNonSpace(src, pos + 1);
    ReadAtNonSpace(src, pos + 2);
    var d := DigitValue(src[pos + 1]);
    assert (10 * 0 + d) % TWO_32 == d;
    assert ValueLoop(src, pos + 2, d) == (d, pos + 2);
    assert ValueAt(src, pos + 1) == (d, pos + 2);
    FactorOnUnderscore(src, pos);
  }

  /** "1-2-3" is (1-2)-3: subtraction folds to the left. */
  lemma SubtractionFoldsLeft()
    ensures Parse("1-2-3") == Success(Op(SUB, Op(SUB, Leaf(VAL, 1), Leaf(VAL, 2)), Leaf(VAL, 3)))
  {
    var s := "1-2-3" + ['\0'];
    assert s == ['1', '-', '2', '-', '3', '\0'];
    var one, two, three := Leaf(VAL, 1), Leaf(VAL, 2), Leaf(VAL, 3);
    OneDigit(s, 0);
    OneDigit(s, 2);
    OneDigit(s, 4);
    TermStopsAt(s, 1, one);
    TermStopsAt(s, 3, two);
    StopAt(s, 5, three);
    StopAt(s, 5, Op(SUB, Op(SUB, one, two), three));
    ReadAtNonSpace(s, 1);
    ReadAtNonSpace(s, 3);
    assert TermAt(s, 0) == Success(Parsed(one, 1));
    assert TermAt(s, 2) == Success(Parsed(two, 3));
    assert TermAt(s, 4) == Success(Parsed(three, 5));
    assert ExpressionTail(s, 3, Op(SUB, one, two)) == Success(Parsed(Op(SUB, Op(SUB, one, two), three), 5));
    assert ExpressionTail(s, 1, one) == Success(Parsed(Op(SUB, Op(SUB, one, two), three), 5));
  }

  /** "2+3*4" is 2+(3*4): a product is one operand of a sum. */
  lemma ProductBindsTighterOnTheRight()
    ensures Parse("2+3*4") == Success(Op(ADD, Leaf(VAL, 2), Op(MUL, Leaf(VAL, 3), Leaf(VAL, 4))))
  {
    var s := "2+3*4" + ['\0'];
    assert s == ['2', '+', '3', '*', '4', '\0'];
    var two, three, four := Leaf(VAL, 2), Leaf(VAL, 3), Leaf(VAL, 4);
    var prod := Op(MUL, three, four);
    OneDigit(s, 0);
    OneDigit(s, 2);
    OneDigit(s, 4);
    TermStopsAt(s, 1, two);
    ReadAtNonSpace(s, 1);
    ReadAtNonSpace(s, 3);
    StopAt(s, 5, prod);
    StopAt(s, 5, Op(ADD, two, prod));
    assert TermAt(s, 0) == Success(Parsed(two, 1));
    assert TermTail(s, 3, three) == Success(Parsed(prod, 5));
    assert TermAt(s, 2) == Success(Parsed(prod, 5));
    assert ExpressionTail(s, 1, two) == Success(Parsed(Op(ADD, two, prod), 5));
  }

  /** "2*3+4" is (2*3)+4. */
  lemma ProductBindsTighterOnTheLeft()
    ensures Parse("2*3+4") == Success(Op(ADD, Op(MUL, Leaf(VAL, 2), Leaf(VAL, 3)), Leaf(VAL, 4)))
  {
    var s := "2*3+4" + ['\0'];
    assert s == ['2', '*', '3', '+', '4', '\0'];
    var two, three, four := Leaf(VAL, 2), Leaf(VAL, 3), Leaf(VAL, 4);
    var prod := Op(MUL, two, three);
    OneDigit(s, 0);
    OneDigit(s, 2);
    OneDigit(s, 4);
    ReadAtNonSpace(s, 1);
    ReadAtNonSpace(s, 3);
    TermStopsAt(s, 3, prod);
    StopAt(s, 5, four);
    StopAt(s, 5, Op(ADD, prod, four));
    assert TermTail(s, 1, two) == Success(Parsed(prod, 3));
    assert TermAt(s, 0) == Success(Parsed(prod, 3));
    assert TermAt(s, 4) == Success(Parsed(four, 5));
    assert ExpressionTail(s, 3, prod) == Success(Parsed(Op(ADD, prod, four), 5));
  }

  /** "1 2" is the number 12: spaces inside a number are skipped. */
  lemma SpacesInsideNumber()
    ensures Parse("1 2") == Success(Leaf(VAL, 12))
  {
    var s := "1 2" + ['\0'];
    assert s == ['1', ' ', '2', '\0'];
    ReadAtNonSpace(s, 0);
    ReadAtNonSpace(s, 2);
    ReadAtNonSpace(s, 3);
    assert SkipSpaces(s, 1) == 2;
    assert ValueLoop(s, 3, 12) == (12, 3);
    assert ValueLoop(s, 1, 1) == (12, 3);
    assert ValueAt(s, 0) == (12, 3);
    FactorOnDigit(s, 0);
    StopAt(s, 3, Leaf(VAL, 12));
    assert TermAt(s, 0) == Success(Parsed(Leaf(VAL, 12), 3));
    assert ExpressionAt(s, 0) == Success(Parsed(Leaf(VAL, 12), 3));
  }

  /** "_" alone is the variable 0. */
  lemma BareUnderscore()
    ensures Parse("_") == Success(Leaf(VAR, 0))
  {
    var s := "_" + ['\0'];
    assert s == ['_', '\0'];
    ReadAtNonSpace(s, 1);
    assert ValueAt(s, 1) == (0, 1);
    FactorOnUnderscore(s, 0);
    StopAt(s, 1, Leaf(VAR, 0));
    assert TermAt(s, 0) == Success(Parsed(Leaf(VAR, 0), 1));
    assert ExpressionAt(s, 0) == Success(Parsed(Leaf(VAR, 0), 1));
  }

  /** "1)" is 1: input after a complete expression is left unread. */
  lemma TrailingInputIgnored()
    ensures Parse("1)") == Success(Leaf(VAL, 1))
  {
    var s := "1)" + ['\0'];
    assert s == ['1', ')', '\0'];
    OneDigit(s, 0);
    StopAt(s, 1, Leaf(VAL, 1));
    assert TermAt(s, 0) == Success(Parsed(Leaf(VAL, 1), 1));
    assert ExpressionAt(s, 0) == Success(Parsed(Leaf(VAL, 1), 1));
  }

  /** "-1" is rejected at its first character: there are no negative
      literals. */
  lemma NoNegativeLiterals()
    ensures Parse("-1") == Failure(UnexpectedToken(0))
  {
    var s := "-1" + ['\0'];
    assert s == ['-', '1', '\0'];
    ReadAtNonSpace(s, 0);
    assert FactorAt(s, 0) == Failure(UnexpectedToken(0));
    assert TermAt(s, 0) == Failure(UnexpectedToken(0));
    assert ExpressionAt(s, 0) == Failure(UnexpectedToken(0));
  }

  /** The empty string is rejected: a factor cannot start with the
      terminator. */
  lemma EmptyInputRejected()
    ensures Parse("") == Failure(UnexpectedToken(0))
  {
    var s := "" + ['\0'];
    assert s == ['\0'];
    ReadAtNonSpace(s, 0);
    assert FactorAt(s, 0) == Failure(UnexpectedToken(0));
    assert TermAt(s, 0) == Failure(UnexpectedToken(0));
    assert ExpressionAt(s, 0) == Failure(UnexpectedToken(0));
  }

  /** "(1+2" is rejected where the ')' is missing. */
  lemma UnclosedGroup()
    ensures Parse("(1+2") == Failure(MissingCloseParen(4))
  {
    var s := "(1+2" + ['\0'];
    assert s == ['(', '1', '+', '2', '\0'];
    var one, two := Leaf(VAL, 1), Leaf(VAL, 2);
    ReadAtNonSpace(s, 0);
    ReadAtNonSpace(s, 2);
    ReadAtNonSpace(s, 4);
    OneDigit(s, 1);
    OneDigit(s, 3);
    TermStopsAt(s, 2, one);
    StopAt(s, 4, two);
    StopAt(s, 4, Op(ADD, one, two));
    assert TermAt(s, 1) == Success(Parsed(one, 2));
    assert TermAt(s, 3) == Success(Parsed(two, 4));
    assert ExpressionTail(s, 2, one) == Success(Parsed(Op(ADD, one, two), 4));
    assert ExpressionAt(s, 1) == Success(Parsed(Op(ADD, one, two), 4));
    assert FactorAt(s, 0) == Failure(MissingCloseParen(4));
    assert TermAt(s, 0) == Failure(MissingCloseParen(4));
    assert ExpressionAt(s, 0) == Failure(MissingCloseParen(4));
  }

  /** "_0*_1+3" is (_0*_1)+3. */
  lemma ParsedExample()
    ensures Parse("_0*_1+3") == Success(Op(ADD, Op(MUL, Leaf(VAR, 0), Leaf(VAR, 1)), Leaf(VAL, 3)))
  {
    var s := "_0*_1+3" + ['\0'];
    assert s == ['_', '0', '*', '_', '1', '+', '3', '\0'];
    var x0, x1, three := Leaf(VAR, 0), Leaf(VAR, 1), Leaf(VAL, 3);
    var prod := Op(MUL, x0, x1);
    var e := Op(ADD, prod, three);
    OneDigitVariable(s, 0);
    OneDigitVariable(s, 3);
    OneDigit(s, 6);
    ReadAtNonSpace(s, 2);
    ReadAtNonSpace(s, 5);
    TermStopsAt(s, 5, prod);
    StopAt(s, 7, three);
    StopAt(s, 7, e);
    assert TermTail(s, 2, x0) == Success(Parsed(prod, 5));
    assert TermAt(s, 0) == Success(Parsed(prod, 5));
    assert TermAt(s, 6) == Success(Parsed(three, 7));
    assert ExpressionTail(s, 5, prod) == Success(Parsed(e, 7));
  }

  /** The function compiled from (_0*_1)+3 returns 23 for the arguments 4
      and 5. */
  lemma CompiledExample()
    ensures Call(CalcBody(Op(ADD, Op(MUL, Leaf(VAR, 0), Leaf(VAR, 1)), Leaf(VAL, 3))), [4, 5]) == Some(23)
  {
    var e := Op(ADD, Op(MUL, Leaf(VAR, 0), Leaf(VAR, 1)), Leaf(VAL, 3));
    assert VarsBelow(Op(MUL, Leaf(VAR, 0), Leaf(VAR, 1)), 2);
    assert ArgsOk([4, 5]);
    assert Eval(e, [4, 5]) == 23;
    CalcCorrect(e, [4, 5]);
  }

  /** "(0-7)/2" is the minimal-parenthesis text of (0-7)/2. */
  lemma DivisionText()
    ensures Parse("(0-7)/2") == Success(Op(DIV, Op(SUB, Leaf(VAL, 0), Leaf(VAL, 7)), Leaf(VAL, 2)))
  {
    var d := Op(DIV, Op(SUB, Leaf(VAL, 0), Leaf(VAL, 7)), Leaf(VAL, 2));
    assert Show(Leaf(VAL, 0)) == "0" && Show(Leaf(VAL, 7)) == "7" && Show(Leaf(VAL, 2)) == "2";
    assert PrintE(d) == "(0-7)/2";
    ParsePrint(d);
  }

  /** Division truncates towards zero: the function compiled from the
      text "(0-7)/2" returns -3, not -4. */
  lemma TruncatingDivision()
    ensures Parse("(0-7)/2").Success? && Call(CalcBody(Parse("(0-7)/2").value), []) == Some(-3)
  {
    var d := Op(DIV, Op(SUB, Leaf(VAL, 0), Leaf(VAL, 7)), Leaf(VAL, 2));
    DivisionText();
    assert Eval(Op(SUB, Leaf(VAL, 0), Leaf(VAL, 7)), []) == -7;
    assert TruncDiv(-7, 2) == -3;
    assert Eval(d, []) == -3;
    CalcCorrect(d, []);
  }

  /** An overflowing division below the root, in (_0/_1)+0 on the
      arguments -2^63 and -1, leaves the function without a defined
      result. */
  lemma NestedOverflowUndefined()
    ensures Call(CalcBody(Op(ADD, Op(DIV, Leaf(VAR, 0), Leaf(VAR, 1)), Leaf(VAL, 0))), [-TWO_63, -1]) == None
  {
    var q := Op(DIV, Leaf(VAR, 0), Leaf(VAR, 1));
    var e := Op(ADD, q, Leaf(VAL, 0));
    assert VarsBelow(q, 2);
    assert ArgsOk([-TWO_63, -1]);
    assert !DivDefined(Eval(Leaf(VAR, 0), [-TWO_63, -1]), Eval(Leaf(VAR, 1), [-TWO_63, -1]));
    DivisionFails(e, [-TWO_63, -1]);
  }

  /** A divisor that evaluates to zero, in 1/_0 on the argument 0, leaves
      the function without a defined result. */
  lemma ZeroDivisorUndefined()
    ensures Call(CalcBody(Op(DIV, Leaf(VAL, 1), Leaf(VAR, 0))), [0]) == None
  {
    var e := Op(DIV, Leaf(VAL, 1), Leaf(VAR, 0));
    assert ArgsOk([0]);
    assert Eval(Leaf(VAR, 0), [0]) == 0;
    DivisionFails(e, [0]);
  }

  /** Results can be negative: 1-2-3 is -4. */
  lemma NegativeResult()
    ensures Call(CalcBody(Op(SUB, Op(SUB, Leaf(VAL, 1), Leaf(VAL, 2)), Leaf(VAL, 3))), []) == Some(-4)
  {
    var m := Op(SUB, Op(SUB, Leaf(VAL, 1), Leaf(VAL, 2)), Leaf(VAL, 3));
    assert Eval(m, []) == -4;
    CalcCorrect(m, []);
  }
}
