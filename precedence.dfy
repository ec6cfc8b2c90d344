/** Precedence and associativity as the parser implements them, for all
    trees: a printer that writes only the parentheses the grammar needs,
    and the proof that the parser reads its text back as the same tree.
    '+' and '-' chains and '*' and '/' chains fold to the left, and '*'
    and '/' bind tighter than '+' and '-'. */
module Precedence {
  import opened Int64
  import opened Expr
  import opened Parser
  import opened ParserProps

  predicate IsAdditive(k: ExprType) {
    k == ADD || k == SUB
  }

  predicate IsMultiplicative(k: ExprType) {
    k == MUL || k == DIV
  }

  /** The text of a tree read as an expression: an additive node is its
      left operand as an expression, the operator, and its right operand
      as a term. Anything else is a term. */
  function PrintE(e: Expr): string
    requires WellFormed(e)
    decreases e, if e.Op? && IsAdditive(e.kind) then 0 else if e.Op? then 1 else 2
  {
    if e.Op? && IsAdditive(e.kind) then PrintE(e.left) + [OpChar(e.kind)] + PrintT(e.right)
    else PrintT(e)
  }

  /** The text of a tree read as a term: a multiplicative node is its left
      operand as a term, the operator, and its right operand as a factor.
      Anything else is a factor. */
  function PrintT(e: Expr): string
    requires WellFormed(e)
    decreases e, if e.Op? && IsAdditive(e.kind) then 2 else if e.Op? then 0 else 1
  {
    if e.Op? && IsMultiplicative(e.kind) then PrintT(e.left) + [OpChar(e.kind)] + PrintF(e.right)
    else PrintF(e)
  }

  /** The text of a tree read as a factor: a leaf's own text, or an
      operation in parentheses. */
  function PrintF(e: Expr): string
    requires WellFormed(e)
    decreases e, if e.Op? && IsAdditive(e.kind) then 1 else if e.Op? then 2 else 0
  {
    if e.Leaf? then Show(e) else ['('] + PrintE(e) + [')']
  }

  /** Where the three parts of A c B lie when it sits at pos. */
  lemma Layout(src: seq<char>, pos: nat, A: seq<char>, c: char, B: seq<char>, mid: nat, end: nat)
    requires mid == pos + |A| && end == mid + 1 + |B| && end <= |src|
    requires src[pos..end] == A + [c] + B
    ensures src[pos..mid] == A && src[mid] == c && src[mid + 1..end] == B
  {
    var s := A + [c] + B;
    forall i | 0 <= i < |s|
      ensures src[pos + i] == s[i]
    {
      assert src[pos..end][i] == src[pos + i];
    }
    forall i | 0 <= i < |A|
      ensures src[pos..mid][i] == A[i]
    {
      assert s[i] == A[i];
    }
    assert src[mid] == s[|A|];
    forall i | 0 <= i < |B|
      ensures src[mid + 1..end][i] == B[i]
    {
      assert s[|A| + 1 + i] == B[i];
    }
  }

  /** Where the parts of "(" A ")" lie when it sits at pos. */
  lemma Parenthesised(src: seq<char>, pos: nat, A: seq<char>, end: nat)
    requires end == pos + |A| + 2 && end <= |src|
    requires src[pos..end] == ['('] + A + [')']
    ensures src[pos] == '(' && src[pos + 1..end - 1] == A && src[end - 1] == ')'
  {
    var s := ['('] + A + [')'];
    forall i | 0 <= i < |s|
      ensures src[pos + i] == s[i]
    {
      assert src[pos..end][i] == src[pos + i];
    }
    assert src[pos] == s[0];
    forall i | 0 <= i < |A|
      ensures src[pos + 1..end - 1][i] == A[i]
    {
      assert s[1 + i] == A[i];
    }
    assert src[end - 1] == s[|A| + 1];
  }

  /** One round of the loop of parseTerm: its operator, then a factor. */
  lemma {:induction false} TermStep(src: seq<char>, pos: nat, acc: Expr, k: ExprType, f: Expr, p: nat)
    requires SourceOk(src) && pos + 1 < |src| && WellFormed(acc)
    requires (k == MUL && src[pos] == '*') || (k == DIV && src[pos] == '/')
    requires FactorAt(src, pos + 1) == Success(Parsed(f, p))
    ensures TermTail(src, pos, acc) == TermTail(src, p, Op(k, acc, f))
  {
    ReadAtNonSpace(src, pos);
  }

  /** One round of the loop of parseExpression: its operator, then a term. */
  lemma {:induction false} ExpressionStep(src: seq<char>, pos: nat, acc: Expr, k: ExprType, t: Expr, p: nat)
    requires SourceOk(src) && pos + 1 < |src| && WellFormed(acc)
    requires (k == ADD && src[pos] == '+') || (k == SUB && src[pos] == '-')
    requires TermAt(src, pos + 1) == Success(Parsed(t, p))
    ensures ExpressionTail(src, pos, acc) == ExpressionTail(src, p, Op(k, acc, t))
  {
    ReadAtNonSpace(src, pos);
  }

  /** A tree printed as a factor, followed by a character that is neither
      a digit nor a space, is read back by parseFactor as that tree. */
  lemma {:induction false} FactorPrinted(src: seq<char>, pos: nat, e: Expr, end: nat)
    requires SourceOk(src) && WellFormed(e)
    requires end == pos + |PrintF(e)| && end < |src| && src[pos..end] == PrintF(e)
    requires src[end] != ' ' && !IsDigit(src[end])
    ensures FactorAt(src, pos) == Success(Parsed(e, end))
    decreases end - pos, 0
  {
    if e.Leaf? {
      LeafRoundTrip(src, pos, e);
    } else {
      Parenthesised(src, pos, PrintE(e), end);
      assert ExpressionAt(src, pos + 1) == Success(Parsed(e, end - 1)) by {
        ExpressionPrinted(src, pos + 1, e, end - 1);
        StopAt(src, end - 1, e);
      }
      FactorParen(src, pos, e, end - 1);
    }
  }

  /** Reading a tree printed as a term brings the loop of parseTerm to the
      end of the text with that tree built. */
  lemma {:induction false} TermPrinted(src: seq<char>, pos: nat, e: Expr, end: nat)
    requires SourceOk(src) && WellFormed(e)
    requires end == pos + |PrintT(e)| && end < |src| && src[pos..end] == PrintT(e)
    requires src[end] != ' ' && !IsDigit(src[end])
    ensures TermAt(src, pos) == TermTail(src, end, e)
    decreases end - pos, 1
  {
    if e.Op? && IsMultiplicative(e.kind) {
      var mid := pos + |PrintT(e.left)|;
      Layout(src, pos, PrintT(e.left), OpChar(e.kind), PrintF(e.right), mid, end);
      assert TermAt(src, pos) == TermTail(src, mid, e.left) by {
        TermPrinted(src, pos, e.left, mid);
      }
      assert FactorAt(src, mid + 1) == Success(Parsed(e.right, end)) by {
        FactorPrinted(src, mid + 1, e.right, end);
      }
      TermStep(src, mid, e.left, e.kind, e.right, end);
    } else {
      assert FactorAt(src, pos) == Success(Parsed(e, end)) by {
        FactorPrinted(src, pos, e, end);
      }
    }
  }

  /** Reading a tree printed as an expression brings the loop of
      parseExpression to the end of the text with that tree built. */
  lemma {:induction false} ExpressionPrinted(src: seq<char>, pos: nat, e: Expr, end: nat)
    requires SourceOk(src) && WellFormed(e)
    requires end == pos + |PrintE(e)| && end < |src| && src[pos..end] == PrintE(e)
    requires src[end] != ' ' && !IsDigit(src[end]) && src[end] != '*' && src[end] != '/'
    ensures ExpressionAt(src, pos) == ExpressionTail(src, end, e)
    decreases end - pos, 2
  {
    if e.Op? && IsAdditive(e.kind) {
      var mid := pos + |PrintE(e.left)|;
      Layout(src, pos, PrintE(e.left), OpChar(e.kind), PrintT(e.right), mid, end);
      assert ExpressionAt(src, pos) == ExpressionTail(src, mid, e.left) by {
        ExpressionPrinted(src, pos, e.left, mid);
      }
      assert TermAt(src, mid + 1) == Success(Parsed(e.right, end)) by {
        TermPrinted(src, mid + 1, e.right, end);
        TermStopsAt(src, end, e.right);
      }
      ExpressionStep(src, mid, e.left, e.kind, e.right, end);
    } else {
      assert TermAt(src, pos) == Success(Parsed(e, end)) by {
        TermPrinted(src, pos, e, end);
        TermStopsAt(src, end, e);
      }
    }
  }

  /** Every well-formed tree, printed with only the parentheses the grammar
      needs, is parsed back as that tree. */
  lemma ParsePrint(e: Expr)
    requires WellFormed(e)
    ensures Parse(PrintE(e)) == Success(e)
  {
    var src := PrintE(e) + ['\0'];
    var n := |PrintE(e)|;
    assert src[0..n] == PrintE(e);
    ExpressionPrinted(src, 0, e, n);
    StopAt(src, n, e);
  }

  /** A chain of two '+' or '-' operators folds to the left:
      a - b - c is (a - b) - c, for any operands. */
  lemma AdditiveChainFoldsLeft(a: Expr, k1: ExprType, b: Expr, k2: ExprType, c: Expr)
    requires WellFormed(a) && WellFormed(b) && WellFormed(c)
    requires IsAdditive(k1) && IsAdditive(k2)
    ensures Parse(PrintE(a) + [OpChar(k1)] + PrintT(b) + [OpChar(k2)] + PrintT(c))
            == Success(Op(k2, Op(k1, a, b), c))
  {
    ParsePrint(Op(k2, Op(k1, a, b), c));
  }

  /** A chain of two '*' or '/' operators folds to the left:
      a / b / c is (a / b) / c, for any operands. */
  lemma MultiplicativeChainFoldsLeft(a: Expr, k1: ExprType, b: Expr, k2: ExprType, c: Expr)
    requires WellFormed(a) && WellFormed(b) && WellFormed(c)
    requires IsMultiplicative(k1) && IsMultiplicative(k2)
    ensures Parse(PrintT(a) + [OpChar(k1)] + PrintF(b) + [OpChar(k2)] + PrintF(c))
            == Success(Op(k2, Op(k1, a, b), c))
  {
    var e := Op(k2, Op(k1, a, b), c);
    assert PrintT(Op(k1, a, b)) == PrintT(a) + [OpChar(k1)] + PrintF(b);
    assert PrintE(e) == PrintT(e) == PrintT(Op(k1, a, b)) + [OpChar(k2)] + PrintF(c);
    ParsePrint(e);
  }

  /** '*' and '/' bind tighter on the right of '+' and '-':
      a + b * c is a + (b * c), for any operands. */
  lemma ProductGroupsOnTheRight(a: Expr, k1: ExprType, b: Expr, k2: ExprType, c: Expr)
    requires WellFormed(a) && WellFormed(b) && WellFormed(c)
    requires IsAdditive(k1) && IsMultiplicative(k2)
    ensures Parse(PrintE(a) + [OpChar(k1)] + PrintT(b) + [OpChar(k2)] + PrintF(c))
            == Success(Op(k1, a, Op(k2, b, c)))
  {
    var e := Op(k1, a, Op(k2, b, c));
    assert PrintE(a) + [OpChar(k1)] + PrintT(b) + [OpChar(k2)] + PrintF(c)
        == PrintE(a) + [OpChar(k1)] + (PrintT(b) + [OpChar(k2)] + PrintF(c));
    ParsePrint(e);
  }

  /** '*' and '/' bind tighter on the left of '+' and '-':
      a * b + c is (a * b) + c, for any operands. */
  lemma ProductGroupsOnTheLeft(a: Expr, k1: ExprType, b: Expr, k2: ExprType, c: Expr)
    requires WellFormed(a) && WellFormed(b) && WellFormed(c)
    requires IsMultiplicative(k1) && IsAdditive(k2)
    ensures Parse(PrintT(a) + [OpChar(k1)] + PrintF(b) + [OpChar(k2)] + PrintT(c))
            == Success(Op(k2, Op(k1, a, b), c))
  {
    var e := Op(k2, Op(k1, a, b), c);
    assert PrintE(Op(k1, a, b)) == PrintT(Op(k1, a, b));
    ParsePrint(e);
  }
}
