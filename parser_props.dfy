/** What the parser's productions mean: the value of a digit run, the trees
    it builds for printed trees (a round trip), left folding, precedence and
    the error cases. */
module ParserProps {
  import opened Int64
  import opened Expr
  import opened Parser

  predicate AllDigits(ds: seq<char>) {
    forall i :: 0 <= i < |ds| ==> IsDigit(ds[i])
  }

  /** Decimal reading of a digit string, continuing from acc. */
  function FoldDigits(acc: int, ds: seq<char>): int
    requires AllDigits(ds)
    decreases ds
  {
    if ds == [] then acc else FoldDigits(10 * acc + DigitValue(ds[0]), ds[1..])
  }

  /** The unbounded decimal value of a digit string. */
  function DecimalValue(ds: seq<char>): int
    requires AllDigits(ds)
  {
    FoldDigits(0, ds)
  }

  /** The characters of s other than spaces, in order. */
  function NonSpaces(s: seq<char>): seq<char> {
    if s == [] then [] else (if s[0] == ' ' then [] else [s[0]]) + NonSpaces(s[1..])
  }

  lemma {:induction false} NonSpacesAppend(a: seq<char>, b: seq<char>)
    ensures NonSpaces(a + b) == NonSpaces(a) + NonSpaces(b)
  {
    if a != [] {
      assert (a + b)[0] == a[0];
      assert (a + b)[1..] == a[1..] + b;
      NonSpacesAppend(a[1..], b);
    } else {
      assert a + b == b;
    }
  }

  lemma {:induction false} NonSpacesOfSpaces(s: seq<char>)
    requires forall i :: 0 <= i < |s| ==> s[i] == ' '
    ensures NonSpaces(s) == []
  {
    if s != [] {
      NonSpacesOfSpaces(s[1..]);
    }
  }

  lemma ModStep(a: int, d: int)
    ensures (10 * (a % TWO_32) + d) % TWO_32 == (10 * a + d) % TWO_32
  {
    var q := a / TWO_32;
    assert a == TWO_32 * q + a % TWO_32;
    assert 10 * a + d == (10 * (a % TWO_32) + d) + TWO_32 * (10 * q);
  }

  /** Reducing the accumulator modulo 2^32 before reading more digits does
      not change the result modulo 2^32. */
  lemma {:induction false} FoldDigitsMod(acc: int, ds: seq<char>)
    requires AllDigits(ds)
    ensures FoldDigits(acc % TWO_32, ds) % TWO_32 == FoldDigits(acc, ds) % TWO_32
    decreases ds
  {
    if ds != [] {
      var d := DigitValue(ds[0]);
      FoldDigitsMod(10 * (acc % TWO_32) + d, ds[1..]);
      FoldDigitsMod(10 * acc + d, ds[1..]);
      ModStep(acc, d);
    }
  }

  lemma {:induction false} FoldDigitsSnoc(acc: int, ds: seq<char>, c: char)
    requires AllDigits(ds) && IsDigit(c)
    ensures AllDigits(ds + [c])
    ensures FoldDigits(acc, ds + [c]) == 10 * FoldDigits(acc, ds) + DigitValue(c)
    decreases ds
  {
    if ds != [] {
      assert (ds + [c])[1..] == ds[1..] + [c];
      FoldDigitsSnoc(10 * acc + DigitValue(ds[0]), ds[1..], c);
    }
  }

  /** Dropping the spaces of a span that starts with spaces and then a digit. */
  lemma NonSpacesStep(src: seq<char>, pos: nat, k: nat, next: nat)
    requires pos <= k < next <= |src|
    requires forall j :: pos <= j < k ==> src[j] == ' '
    requires IsDigit(src[k])
    ensures NonSpaces(src[pos..next]) == [src[k]] + NonSpaces(src[k + 1..next])
  {
    assert src[pos..next] == src[pos..k] + [src[k]] + src[k + 1..next];
    NonSpacesOfSpaces(src[pos..k]);
    NonSpacesAppend(src[pos..k] + [src[k]], src[k + 1..next]);
    NonSpacesAppend(src[pos..k], [src[k]]);
    assert NonSpaces([src[k]]) == [src[k]];
  }

  /** One more digit in front of a digit string, read from acc. */
  lemma ConsDigit(acc: uint32, c: char, rest: seq<char>, v: int)
    requires IsDigit(c) && AllDigits(rest)
    requires v == FoldDigits((10 * acc + DigitValue(c)) % TWO_32, rest) % TWO_32
    ensures AllDigits([c] + rest)
    ensures v == FoldDigits(acc, [c] + rest) % TWO_32
  {
    assert ([c] + rest)[0] == c;
    assert ([c] + rest)[1..] == rest;
    FoldDigitsMod(10 * acc + DigitValue(c), rest);
  }

  /** The digits read after the digit at k, spaces skipped, and the
      spaces before it, give the digits read from pos. */
  lemma DigitStep(src: seq<char>, pos: nat, k: nat, next: nat, acc: uint32, v: int)
    requires pos <= k < next <= |src| && IsDigit(src[k])
    requires forall j :: pos <= j < k ==> src[j] == ' '
    requires AllDigits(NonSpaces(src[k + 1..next]))
    requires v == FoldDigits((10 * acc + DigitValue(src[k])) % TWO_32, NonSpaces(src[k + 1..next])) % TWO_32
    ensures AllDigits(NonSpaces(src[pos..next]))
    ensures v == FoldDigits(acc, NonSpaces(src[pos..next])) % TWO_32
  {
    NonSpacesStep(src, pos, k, next);
    ConsDigit(acc, src[k], NonSpaces(src[k + 1..next]), v);
  }

  /** The digit loop consumes only digits and spaces (what it consumes is
      all digits once the spaces are dropped), and the value it returns is
      the decimal value of those digits, read on from acc, modulo 2^32. */
  lemma {:induction false} ValueLoopMeaning(src: seq<char>, pos: nat, acc: uint32, v: uint32, next: nat)
    requires SourceOk(src) && pos < |src|
    requires ValueLoop(src, pos, acc) == (v, next)
    ensures AllDigits(NonSpaces(src[pos..next]))
    ensures v == FoldDigits(acc, NonSpaces(src[pos..next])) % TWO_32
    decreases |src| - pos
  {
    var k := SkipSpaces(src, pos);
    SkippedAreSpaces(src, pos);
    if IsDigit(src[k]) {
      var acc' := (10 * acc + DigitValue(src[k])) % TWO_32;
      assert ValueLoop(src, k + 1, acc') == (v, next) by {
        assert ValueLoop(src, pos, acc) == ValueLoop(src, k + 1, acc');
      }
      ValueLoopMeaning(src, k + 1, acc', v, next);
      DigitStep(src, pos, k, next, acc, v);
    } else {
      assert next == k;
      NonSpacesOfSpaces(src[pos..k]);
    }
  }

  /** parseValue reads a digit run, spaces skipped, as its decimal value
      modulo 2^32. */
  lemma ValueMeaning(src: seq<char>, pos: nat)
    requires SourceOk(src) && pos < |src|
    ensures var (v, next) := ValueAt(src, pos);
      && AllDigits(NonSpaces(src[pos..next]))
      && v == DecimalValue(NonSpaces(src[pos..next])) % TWO_32
  {
    ValueLoopMeaning(src, pos, 0, ValueAt(src, pos).0, ValueAt(src, pos).1);
  }

  /** On a contiguous digit run ds that ends before a character that is
      neither a digit nor a space, the digit loop consumes exactly ds. */
  lemma {:induction false} ValueLoopOfDigitRun(src: seq<char>, pos: nat, ds: seq<char>, acc: uint32)
    requires SourceOk(src) && AllDigits(ds)
    requires pos + |ds| < |src| && src[pos..pos + |ds|] == ds
    requires src[pos + |ds|] != ' ' && !IsDigit(src[pos + |ds|])
    ensures ValueLoop(src, pos, acc) == (FoldDigits(acc, ds) % TWO_32, pos + |ds|)
    decreases ds
  {
    if ds == [] {
      assert SkipSpaces(src, pos) == pos;
    } else {
      FoundAt(src, pos, ds);
      assert SkipSpaces(src, pos) == pos;
      var acc' := (10 * acc + DigitValue(ds[0])) % TWO_32;
      ValueLoopOfDigitRun(src, pos + 1, ds[1..], acc');
      FoldDigitsMod(10 * acc + DigitValue(ds[0]), ds[1..]);
    }
  }

  /** parseValue on a contiguous digit run. */
  lemma ValueOfDigitRun(src: seq<char>, pos: nat, ds: seq<char>)
    requires SourceOk(src) && AllDigits(ds)
    requires pos + |ds| < |src| && src[pos..pos + |ds|] == ds
    requires src[pos + |ds|] != ' ' && !IsDigit(src[pos + |ds|])
    ensures ValueAt(src, pos) == (DecimalValue(ds) % TWO_32, pos + |ds|)
  {
    ValueLoopOfDigitRun(src, pos, ds, 0);
  }

  // ---------------------------------------------------------------------
  // A printer: the fully parenthesised text of a tree. The parser reads
  // every printed tree back as that tree.

  function DigitChar(d: nat): (c: char)
    requires d < 10
    ensures IsDigit(c) && DigitValue(c) == d
  {
    (('0' as int) + d) as char
  }

  /** The decimal digits of n, without leading zeros. */
  function Decimal(n: nat): (s: string)
    ensures |s| > 0 && AllDigits(s)
  {
    if n < 10 then [DigitChar(n)] else Decimal(n / 10) + [DigitChar(n % 10)]
  }

  lemma {:induction false} DecimalValueOfDecimal(n: nat)
    ensures DecimalValue(Decimal(n)) == n
  {
    if n >= 10 {
      DecimalValueOfDecimal(n / 10);
      FoldDigitsSnoc(0, Decimal(n / 10), DigitChar(n % 10));
      assert 10 * (n / 10) + n % 10 == n;
    } else {
      assert FoldDigits(0, [DigitChar(n)]) == FoldDigits(DigitChar(n) as int - '0' as int, []);
    }
  }

  function OpChar(k: ExprType): (c: char)
    requires IsOperator(k)
    ensures c != ' ' && !IsDigit(c) && c != '\0'
  {
    match k
    case ADD => '+'
    case SUB => '-'
    case MUL => '*'
    case DIV => '/'
  }

  function Show(e: Expr): string
    requires WellFormed(e)
  {
    match e
    case Leaf(k, v) => if k == VAL then Decimal(v) else ['_'] + Decimal(v)
    case Op(k, l, r) => ['('] + Show(l) + [OpChar(k)] + Show(r) + [')']
  }

  /** parseFactor gives up on a first character that cannot start a factor
      (an operator, ')', the terminator, ...), reporting where it stands. */
  lemma FactorRejects(src: seq<char>, pos: nat)
    requires SourceOk(src) && pos < |src|
    requires src[SkipSpaces(src, pos)] != '(' && src[SkipSpaces(src, pos)] != '_'
    requires !IsDigit(src[SkipSpaces(src, pos)])
    ensures FactorAt(src, pos) == Failure(UnexpectedToken(SkipSpaces(src, pos)))
  {
  }

  /** A group whose expression is not followed by ')' is rejected at the
      character found instead. */
  lemma GroupRejects(src: seq<char>, pos: nat, t: Expr, p: nat)
    requires SourceOk(src) && pos < |src| && src[SkipSpaces(src, pos)] == '('
    requires SkipSpaces(src, pos) + 1 < |src|
    requires ExpressionAt(src, SkipSpaces(src, pos) + 1) == Success(Parsed(t, p))
    requires src[p] != ')'
    ensures FactorAt(src, pos) == Failure(MissingCloseParen(p))
  {
    ReadAtNonSpace(src, p);
  }

  /** Both loops stop at a character that is none of the four operators,
      leaving the tree unchanged and the cursor on it. */
  lemma StopAt(src: seq<char>, pos: nat, acc: Expr)
    requires SourceOk(src) && pos < |src| && WellFormed(acc)
    requires src[pos] !in {' ', '+', '-', '*', '/'}
    ensures TermTail(src, pos, acc) == Success(Parsed(acc, pos))
    ensures ExpressionTail(src, pos, acc) == Success(Parsed(acc, pos))
  {
    TermStopsAt(src, pos, acc);
    ExpressionStopsAt(src, pos, acc);
  }

  /** The term loop stops at a character that is not a space, '*' or '/':
      a '+', a '-', a ')' or the terminator. */
  lemma TermStopsAt(src: seq<char>, pos: nat, acc: Expr)
    requires SourceOk(src) && pos < |src| && WellFormed(acc)
    requires src[pos] != ' ' && src[pos] != '*' && src[pos] != '/'
    ensures TermTail(src, pos, acc) == Success(Parsed(acc, pos))
  {
    ReadAtNonSpace(src, pos);
  }

  /** The expression loop stops at a character that is not a space, '+'
      or '-': also on a '*' or '/' it did not expect there. */
  lemma ExpressionStopsAt(src: seq<char>, pos: nat, acc: Expr)
    requires SourceOk(src) && pos < |src| && WellFormed(acc)
    requires src[pos] != ' ' && src[pos] != '+' && src[pos] != '-'
    ensures ExpressionTail(src, pos, acc) == Success(Parsed(acc, pos))
  {
    ReadAtNonSpace(src, pos);
  }

  /** parseFactor on a character that is a digit: a VAL leaf holding the
      value read from that digit on. */
  lemma FactorOnDigit(src: seq<char>, pos: nat)
    requires SourceOk(src) && pos < |src| && IsDigit(src[pos])
    ensures FactorAt(src, pos) == Success(Parsed(Leaf(VAL, ValueAt(src, pos).0), ValueAt(src, pos).1))
  {
    ReadAtNonSpace(src, pos);
  }

  /** parseFactor on '_': a VAR leaf holding the value read after it. */
  lemma FactorOnUnderscore(src: seq<char>, pos: nat)
    requires SourceOk(src) && pos < |src| && src[pos] == '_'
    ensures FactorAt(src, pos) ==
      Success(Parsed(Leaf(VAR, ValueAt(src, pos + 1).0), ValueAt(src, pos + 1).1))
  {
    ReadAtNonSpace(src, pos);
  }

  /** The first character and the rest of a string found at pos. */
  lemma FoundAt(src: seq<char>, pos: nat, s: seq<char>)
    requires |s| > 0 && pos + |s| <= |src| && src[pos..pos + |s|] == s
    ensures src[pos] == s[0] && src[pos + 1..pos + |s|] == s[1..]
  {
    assert src[pos..pos + |s|][0] == src[pos];
    forall i | 0 <= i < |s| - 1
      ensures src[pos + 1..pos + |s|][i] == s[1..][i]
    {
      assert src[pos..pos + |s|][i + 1] == src[pos + 1 + i];
    }
  }

  /** A VAL leaf printed as the digits ds is read back. */
  lemma ValRoundTrip(src: seq<char>, pos: nat, ds: seq<char>, v: uint32)
    requires SourceOk(src) && |ds| > 0 && AllDigits(ds) && DecimalValue(ds) == v
    requires pos + |ds| < |src| && src[pos..pos + |ds|] == ds
    requires src[pos + |ds|] != ' ' && !IsDigit(src[pos + |ds|])
    ensures FactorAt(src, pos) == Success(Parsed(Leaf(VAL, v), pos + |ds|))
  {
    FoundAt(src, pos, ds);
    ValueOfDigitRun(src, pos, ds);
    FactorOnDigit(src, pos);
  }

  /** A VAR leaf printed as '_' and the digits ds is read back. */
  lemma VarRoundTrip(src: seq<char>, pos: nat, ds: seq<char>, v: uint32)
    requires SourceOk(src) && |ds| > 0 && AllDigits(ds) && DecimalValue(ds) == v
    requires pos + 1 + |ds| < |src| && src[pos..pos + 1 + |ds|] == ['_'] + ds
    requires src[pos + 1 + |ds|] != ' ' && !IsDigit(src[pos + 1 + |ds|])
    ensures FactorAt(src, pos) == Success(Parsed(Leaf(VAR, v), pos + 1 + |ds|))
  {
    FoundAt(src, pos, ['_'] + ds);
    assert (['_'] + ds)[1..] == ds;
    ValueOfDigitRun(src, pos + 1, ds);
    FactorOnUnderscore(src, pos);
  }

  /** The leaf case of FactorRoundTrip. */
  lemma LeafRoundTrip(src: seq<char>, pos: nat, e: Expr)
    requires SourceOk(src) && WellFormed(e) && e.Leaf?
    requires pos + |Show(e)| < |src| && src[pos..pos + |Show(e)|] == Show(e)
    requires src[pos + |Show(e)|] != ' ' && !IsDigit(src[pos + |Show(e)|])
    ensures FactorAt(src, pos) == Success(Parsed(e, pos + |Show(e)|))
  {
    var ds := Decimal(e.val);
    DecimalValueOfDecimal(e.val);
    if e.kind == VAL {
      ValRoundTrip(src, pos, ds, e.val);
    } else {
      VarRoundTrip(src, pos, ds, e.val);
    }
  }

  /** readNext on a character that is not a space reads exactly it. */
  lemma ReadAtNonSpace(src: seq<char>, pos: nat)
    requires SourceOk(src) && pos < |src| && src[pos] != ' '
    ensures ReadAt(src, pos) == (src[pos], pos + 1)
  {
  }

  /** A parenthesised expression followed by ')' is a factor. */
  lemma FactorParen(src: seq<char>, pos: nat, t: Expr, p: nat)
    requires SourceOk(src) && pos + 1 < |src| && src[pos] == '('
    requires ExpressionAt(src, pos + 1) == Success(Parsed(t, p))
    requires src[p] == ')'
    ensures FactorAt(src, pos) == Success(Parsed(t, p + 1))
  {
    ReadAtNonSpace(src, pos);
    ReadAtNonSpace(src, p);
  }

  /** An additive operator between two factors, followed by ')'. */
  lemma AdditivePair(src: seq<char>, pos: nat, k: ExprType, l: Expr, p1: nat, r: Expr, p2: nat)
    requires SourceOk(src) && pos < p1 < p2 < |src|
    requires (k == ADD && src[p1] == '+') || (k == SUB && src[p1] == '-')
    requires WellFormed(l) && WellFormed(r) && src[p2] == ')'
    requires FactorAt(src, pos) == Success(Parsed(l, p1))
    requires FactorAt(src, p1 + 1) == Success(Parsed(r, p2))
    ensures ExpressionAt(src, pos) == Success(Parsed(Op(k, l, r), p2))
  {
    ReadAtNonSpace(src, p1);
    StopAt(src, p2, r);
    StopAt(src, p2, Op(k, l, r));
    assert TermAt(src, pos) == Success(Parsed(l, p1));
    assert TermAt(src, p1 + 1) == Success(Parsed(r, p2));
    assert ExpressionTail(src, p1, l) == ExpressionTail(src, p2, Op(k, l, r));
  }

  /** A multiplicative operator between two factors, followed by ')'. */
  lemma MultiplicativePair(src: seq<char>, pos: nat, k: ExprType, l: Expr, p1: nat, r: Expr, p2: nat)
    requires SourceOk(src) && pos < p1 < p2 < |src|
    requires (k == MUL && src[p1] == '*') || (k == DIV && src[p1] == '/')
    requires WellFormed(l) && WellFormed(r) && src[p2] == ')'
    requires FactorAt(src, pos) == Success(Parsed(l, p1))
    requires FactorAt(src, p1 + 1) == Success(Parsed(r, p2))
    ensures ExpressionAt(src, pos) == Success(Parsed(Op(k, l, r), p2))
  {
    ReadAtNonSpace(src, p1);
    StopAt(src, p2, Op(k, l, r));
    assert TermTail(src, p1, l) == TermTail(src, p2, Op(k, l, r));
    assert TermAt(src, pos) == Success(Parsed(Op(k, l, r), p2));
  }

  /** Where the five parts of "(" L c R ")" lie when it sits at pos: the
      operator at p1, the ')' at p2. */
  lemma ParenLayout(src: seq<char>, pos: nat, L: seq<char>, c: char, R: seq<char>, p1: nat, p2: nat)
    requires p1 == pos + 1 + |L| && p2 == p1 + 1 + |R| && p2 < |src|
    requires src[pos..p2 + 1] == ['('] + L + [c] + R + [')']
    ensures src[pos] == '(' && src[p1] == c && src[p2] == ')'
    ensures src[pos + 1..p1] == L
    ensures src[p1 + 1..p2] == R
  {
    var s := ['('] + L + [c] + R + [')'];
    forall i | 0 <= i < |s|
      ensures src[pos + i] == s[i]
    {
      assert src[pos..p2 + 1][i] == src[pos + i];
    }
    assert src[pos] == s[0];
    assert src[p1] == s[1 + |L|];
    assert src[p2] == s[|L| + |R| + 2];
    forall i | 0 <= i < |L|
      ensures src[pos + 1..p1][i] == L[i]
    {
      assert s[1 + i] == L[i];
    }
    forall i | 0 <= i < |R|
      ensures src[p1 + 1..p2][i] == R[i]
    {
      assert s[2 + |L| + i] == R[i];
    }
  }

  /** The operation case of FactorRoundTrip: "(" l op r ")" with both
      children read back as factors. */
  lemma OpRoundTrip(src: seq<char>, pos: nat, e: Expr, p1: nat, p2: nat, end: nat)
    requires SourceOk(src) && WellFormed(e) && e.Op?
    requires pos < p1 < p2 < |src| && end == p2 + 1
    requires src[pos] == '(' && src[p1] == OpChar(e.kind) && src[p2] == ')'
    requires FactorAt(src, pos + 1) == Success(Parsed(e.left, p1))
    requires FactorAt(src, p1 + 1) == Success(Parsed(e.right, p2))
    ensures FactorAt(src, pos) == Success(Parsed(e, end))
  {
    if e.kind == ADD || e.kind == SUB {
      AdditivePair(src, pos + 1, e.kind, e.left, p1, e.right, p2);
    } else {
      MultiplicativePair(src, pos + 1, e.kind, e.left, p1, e.right, p2);
    }
    FactorParen(src, pos, e, p2);
  }

  /** A printed tree, followed by a character that is neither a digit nor a
      space, is read back by parseFactor as that tree, and the cursor ends
      right after it, at `end`. */
  lemma {:induction false} FactorRoundTrip(src: seq<char>, pos: nat, e: Expr, end: nat)
    requires SourceOk(src) && WellFormed(e)
    requires end == pos + |Show(e)| && end < |src| && src[pos..end] == Show(e)
    requires src[end] != ' ' && !IsDigit(src[end])
    ensures FactorAt(src, pos) == Success(Parsed(e, end))
    decreases e, 1
  {
    if e.Leaf? {
      LeafRoundTrip(src, pos, e);
    } else {
      OpFactorRoundTrip(src, pos, e, end);
    }
  }

  /** The operation case of FactorRoundTrip: both children are read back,
      by induction, and then the whole group. */
  lemma {:induction false} OpFactorRoundTrip(src: seq<char>, pos: nat, e: Expr, end: nat)
    requires SourceOk(src) && WellFormed(e) && e.Op?
    requires end == pos + |Show(e)| && end < |src| && src[pos..end] == Show(e)
    ensures FactorAt(src, pos) == Success(Parsed(e, end))
    decreases e, 0
  {
    var p1, p2 := OpShowLayout(src, pos, e, end);
    assert FactorAt(src, pos + 1) == Success(Parsed(e.left, p1)) by {
      FactorRoundTrip(src, pos + 1, e.left, p1);
    }
    assert FactorAt(src, p1 + 1) == Success(Parsed(e.right, p2)) by {
      FactorRoundTrip(src, p1 + 1, e.right, p2);
    }
    OpRoundTrip(src, pos, e, p1, p2, end);
  }

  /** Where the parts of a printed operation lie: its operator at p1 and
      its ')' at p2, the children's texts between them. */
  lemma OpShowLayout(src: seq<char>, pos: nat, e: Expr, end: nat) returns (p1: nat, p2: nat)
    requires WellFormed(e) && e.Op? && end == pos + |Show(e)| && end <= |src| && src[pos..end] == Show(e)
    ensures p1 == pos + 1 + |Show(e.left)| && p2 == p1 + 1 + |Show(e.right)| && end == p2 + 1
    ensures src[pos] == '(' && src[p1] == OpChar(e.kind) && src[p2] == ')'
    ensures src[pos + 1..p1] == Show(e.left) && src[p1 + 1..p2] == Show(e.right)
  {
    var L, R := Show(e.left), Show(e.right);
    var c := OpChar(e.kind);
    p1 := pos + 1 + |L|;
    p2 := p1 + 1 + |R|;
    assert Show(e) == ['('] + L + [c] + R + [')'];
    ParenLayout(src, pos, L, c, R, p1, p2);
  }

  /** Printing then parsing gives back every well-formed tree. */
  lemma ParseShow(e: Expr)
    requires WellFormed(e)
    ensures Parse(Show(e)) == Success(e)
  {
    var src := Show(e) + ['\0'];
    var n := |Show(e)|;
    assert src[0..n] == Show(e);
    FactorRoundTrip(src, 0, e, n);
    StopAt(src, n, e);
    assert TermAt(src, 0) == Success(Parsed(e, n));
  }
}
