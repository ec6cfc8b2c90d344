/** The recursive-descent parser. One cursor into a NUL-terminated character
    buffer is shared by every production; each production advances it in
    place and, when it has read one character too many, steps it back by one.

    The functions over (src, pos) state what each production computes; the
    class Parser holds the cursor and its methods are proved to compute
    exactly those functions. */
module Parser {
  import opened Int64
  import opened Expr

  /** Why a parse stops. Both are the points where the parser exits. */
  datatype ParseError =
    | UnexpectedToken(at: nat)    // a factor starts with a character that cannot start one
    | MissingCloseParen(at: nat)  // a parenthesised group is not closed by ')'

  datatype Result<T> = Success(value: T) | Failure(error: ParseError)

  /** A parsed tree together with the cursor position after it. */
  datatype Parsed = Parsed(tree: Expr, next: nat)

  /** A buffer the parser may run over: its last character is the NUL
      terminator. */
  predicate SourceOk(src: seq<char>) {
    |src| > 0 && src[|src| - 1] == '\0'
  }

  predicate IsDigit(c: char) {
    '0' <= c <= '9'
  }

  function DigitValue(c: char): (d: nat)
    requires IsDigit(c)
    ensures d < 10
  {
    (c as int) - ('0' as int)
  }

  /** The position of the first non-space character at or after pos. */
  function SkipSpaces(src: seq<char>, pos: nat): (k: nat)
    requires SourceOk(src) && pos < |src|
    ensures pos <= k < |src| && src[k] != ' '
    decreases |src| - pos
  {
    if src[pos] == ' ' then SkipSpaces(src, pos + 1) else pos
  }

  /** Everything SkipSpaces passes over is a space. */
  lemma {:induction false} SkippedAreSpaces(src: seq<char>, pos: nat)
    requires SourceOk(src) && pos < |src|
    ensures forall j :: pos <= j < SkipSpaces(src, pos) ==> src[j] == ' '
    decreases |src| - pos
  {
    if src[pos] == ' ' {
      SkippedAreSpaces(src, pos + 1);
    }
  }

  /** What readNext returns and where it leaves the cursor: it skips a run
      of spaces, returns the character after it and moves one past that
      character. */
  function ReadAt(src: seq<char>, pos: nat): (r: (char, nat))
    requires SourceOk(src) && pos < |src|
    ensures pos < r.1 <= |src| && r.0 == src[r.1 - 1] && r.0 != ' '
    ensures r.0 != '\0' ==> r.1 < |src|
  {
    var k := SkipSpaces(src, pos);
    (src[k], k + 1)
  }

  /** The digit loop of parseValue, from a cursor at pos with the value
      accumulated so far: each digit multiplies by ten and adds, modulo 2^32;
      the first non-digit is un-read. */
  function ValueLoop(src: seq<char>, pos: nat, acc: uint32): (r: (uint32, nat))
    requires SourceOk(src) && pos < |src|
    ensures pos <= r.1 < |src| && src[r.1] != ' ' && !IsDigit(src[r.1])
    decreases |src| - pos
  {
    var (c, q) := ReadAt(src, pos);
    if IsDigit(c) then ValueLoop(src, q, (10 * acc + DigitValue(c)) % TWO_32)
    else (acc, q - 1)
  }

  /** parseValue: a run of digits, spaces between them skipped. */
  function ValueAt(src: seq<char>, pos: nat): (r: (uint32, nat))
    requires SourceOk(src) && pos < |src|
    ensures pos <= r.1 < |src| && src[r.1] != ' ' && !IsDigit(src[r.1])
  {
    ValueLoop(src, pos, 0)
  }

  /** parseExpression: a term followed by any number of '+' or '-' terms. */
  function ExpressionAt(src: seq<char>, pos: nat): (r: Result<Parsed>)
    requires SourceOk(src) && pos < |src|
    ensures r.Success? ==> pos <= r.value.next < |src| && WellFormed(r.value.tree)
    ensures r.Success? ==> src[r.value.next] != ' ' && src[r.value.next] != '+' && src[r.value.next] != '-'
    decreases |src| - pos, 4
  {
    match TermAt(src, pos)
    case Failure(err) => Failure(err)
    case Success(Parsed(t, p)) => ExpressionTail(src, p, t)
  }

  /** The loop of parseExpression, with the tree built so far. */
  function ExpressionTail(src: seq<char>, pos: nat, acc: Expr): (r: Result<Parsed>)
    requires SourceOk(src) && pos < |src| && WellFormed(acc)
    ensures r.Success? ==> pos <= r.value.next < |src| && WellFormed(r.value.tree)
    ensures r.Success? ==> src[r.value.next] != ' ' && src[r.value.next] != '+' && src[r.value.next] != '-'
    decreases |src| - pos, 3
  {
    var (c, q) := ReadAt(src, pos);
    if c == '+' || c == '-' then
      match TermAt(src, q)
      case Failure(err) => Failure(err)
      case Success(Parsed(t, p)) => ExpressionTail(src, p, Op(if c == '+' then ADD else SUB, acc, t))
    else
      Success(Parsed(acc, q - 1))
  }

  /** parseTerm: a factor followed by any number of '*' or '/' factors. */
  function TermAt(src: seq<char>, pos: nat): (r: Result<Parsed>)
    requires SourceOk(src) && pos < |src|
    ensures r.Success? ==> pos <= r.value.next < |src| && WellFormed(r.value.tree)
    ensures r.Success? ==> src[r.value.next] != ' ' && src[r.value.next] != '*' && src[r.value.next] != '/'
    decreases |src| - pos, 2
  {
    match FactorAt(src, pos)
    case Failure(err) => Failure(err)
    case Success(Parsed(f, p)) => TermTail(src, p, f)
  }

  /** The loop of parseTerm, with the tree built so far. */
  function TermTail(src: seq<char>, pos: nat, acc: Expr): (r: Result<Parsed>)
    requires SourceOk(src) && pos < |src| && WellFormed(acc)
    ensures r.Success? ==> pos <= r.value.next < |src| && WellFormed(r.value.tree)
    ensures r.Success? ==> src[r.value.next] != ' ' && src[r.value.next] != '*' && src[r.value.next] != '/'
    decreases |src| - pos, 1
  {
    var (c, q) := ReadAt(src, pos);
    if c == '*' || c == '/' then
      match FactorAt(src, q)
      case Failure(err) => Failure(err)
      case Success(Parsed(f, p)) => TermTail(src, p, Op(if c == '*' then MUL else DIV, acc, f))
    else
      Success(Parsed(acc, q - 1))
  }

  /** parseFactor: '(' expression ')', '_' digits, or digits. */
  function FactorAt(src: seq<char>, pos: nat): (r: Result<Parsed>)
    requires SourceOk(src) && pos < |src|
    ensures r.Success? ==> pos < r.value.next < |src| && WellFormed(r.value.tree)
    decreases |src| - pos, 0
  {
    var (c, q) := ReadAt(src, pos);
    if c == '(' then
      match ExpressionAt(src, q)
      case Failure(err) => Failure(err)
      case Success(Parsed(t, p)) =>
        var (c2, q2) := ReadAt(src, p);
        if c2 == ')' then Success(Parsed(t, q2)) else Failure(MissingCloseParen(q2 - 1))
    else if c == '_' then
      var (v, p) := ValueAt(src, q);
      Success(Parsed(Leaf(VAR, v), p))
    else if IsDigit(c) then
      var (v, p) := ValueAt(src, q - 1);
      Success(Parsed(Leaf(VAL, v), p))
    else
      Failure(UnexpectedToken(q - 1))
  }

  /** Parsing a whole argument string: the parser runs over the string and
      its terminator from the first character; trailing input is left unread. */
  function Parse(s: string): (r: Result<Expr>)
    ensures r.Success? ==> WellFormed(r.value)
  {
    match ExpressionAt(s + ['\0'], 0)
    case Failure(err) => Failure(err)
    case Success(p) => Success(p.tree)
  }

  /** A method's result together with where it left the cursor. */
  function Outcome(r: Result<Expr>, pos: nat): Result<Parsed> {
    match r
    case Success(t) => Success(Parsed(t, pos))
    case Failure(err) => Failure(err)
  }

  class Parser {
    const src: seq<char>
    var pos: nat

    constructor (s: seq<char>)
      requires SourceOk(s)
      ensures src == s && pos == 0
    {
      src := s;
      pos := 0;
    }

    method ReadNext() returns (c: char)
      requires SourceOk(src) && pos < |src|
      modifies this`pos
      ensures (c, pos) == ReadAt(src, old(pos))
    {
      while src[pos] == ' '
        invariant old(pos) <= pos < |src|
        invariant SkipSpaces(src, pos) == SkipSpaces(src, old(pos))
        decreases |src| - pos
      {
        pos := pos + 1;
      }
      c := src[pos];
      pos := pos + 1;
    }

    method ParseExpression() returns (r: Result<Expr>)
      requires SourceOk(src) && pos < |src|
      modifies this`pos
      ensures Outcome(r, pos) == ExpressionAt(src, old(pos))
      decreases |src| - pos, 4
    {
      r := ParseTerm();
      if r.Failure? {
        return;
      }
      var expression := r.value;
      while true
        invariant old(pos) <= pos < |src| && WellFormed(expression)
        invariant ExpressionTail(src, pos, expression) == ExpressionAt(src, old(pos))
        decreases |src| - pos
      {
        var c := ReadNext();
        if c == '+' {
          var t := ParseTerm();
          if t.Failure? {
            return t;
          }
          expression := Op(ADD, expression, t.value);
        } else if c == '-' {
          var t := ParseTerm();
          if t.Failure? {
            return t;
          }
          expression := Op(SUB, expression, t.value);
        } else {
          pos := pos - 1;
          return Success(expression);
        }
      }
    }

    method ParseTerm() returns (r: Result<Expr>)
      requires SourceOk(src) && pos < |src|
      modifies this`pos
      ensures Outcome(r, pos) == TermAt(src, old(pos))
      decreases |src| - pos, 2
    {
      r := ParseFactor();
      if r.Failure? {
        return;
      }
      var term := r.value;
      while true
        invariant old(pos) <= pos < |src| && WellFormed(term)
        invariant TermTail(src, pos, term) == TermAt(src, old(pos))
        decreases |src| - pos
      {
        var c := ReadNext();
        if c == '*' {
          var f := ParseFactor();
          if f.Failure? {
            return f;
          }
          term := Op(MUL, term, f.value);
        } else if c == '/' {
          var f := ParseFactor();
          if f.Failure? {
            return f;
          }
          term := Op(DIV, term, f.value);
        } else {
          pos := pos - 1;
          return Success(term);
        }
      }
    }

    method ParseFactor() returns (r: Result<Expr>)
      requires SourceOk(src) && pos < |src|
      modifies this`pos
      ensures Outcome(r, pos) == FactorAt(src, old(pos))
      decreases |src| - pos, 0
    {
      var c := ReadNext();
      if c == '(' {
        r := ParseExpression();
        if r.Failure? {
          return;
        }
        var close := ReadNext();
        if close != ')' {
          return Failure(MissingCloseParen(pos - 1));
        }
      } else if c == '_' {
        var val := ParseValue();
        return Success(Leaf(VAR, val));
      } else if IsDigit(c) {
        pos := pos - 1;
        var val := ParseValue();
        return Success(Leaf(VAL, val));
      } else {
        return Failure(UnexpectedToken(pos - 1));
      }
    }

    method ParseValue() returns (val: uint32)
      requires SourceOk(src) && pos < |src|
      modifies this`pos
      ensures (val, pos) == ValueAt(src, old(pos))
    {
      val := 0;
      var c := ReadNext();
      while IsDigit(c)
        invariant 0 < pos <= |src| && c == src[pos - 1]
        invariant ValueAt(src, old(pos)) ==
          if IsDigit(c) then ValueLoop(src, pos, (10 * val + DigitValue(c)) % TWO_32) else (val, pos - 1)
        decreases |src| - pos
      {
        val := (10 * val + DigitValue(c)) % TWO_32;
        c := ReadNext();
      }
      pos := pos - 1;
    }
  }

  /** Running the parser object over a string and its terminator computes
      Parse. */
  method ParseString(s: string) returns (r: Result<Expr>)
    ensures r == Parse(s)
  {
    var p := new Parser(s + ['\0']);
    r := p.ParseExpression();
  }
}
