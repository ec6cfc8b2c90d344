/** Fixed-width integer arithmetic shared by the expression semantics and
    the abstract instruction machine. */
module Int64 {

  const TWO_32: int := 0x1_0000_0000
  const TWO_63: int := 0x8000_0000_0000_0000
  const TWO_64: int := 0x1_0000_0000_0000_0000

  /** The unsigned 32-bit integers (C++ `uint32_t`). */
  type uint32 = x: int | 0 <= x < TWO_32

  /** The signed 64-bit integers (LLVM `i64`). */
  predicate InInt64(x: int) {
    -TWO_63 <= x < TWO_63
  }

  /** Two's-complement reduction of an unbounded integer to 64 bits. */
  function Wrap64(x: int): (r: int)
    ensures InInt64(r)
    ensures (r - x) % TWO_64 == 0
    ensures InInt64(x) ==> r == x
  {
    (x + TWO_63) % TWO_64 - TWO_63
  }

  /** Reading a 32-bit pattern as a signed 32-bit integer, as an `i32`
      constant built from a `uint32_t` is read. */
  function ToInt32(x: uint32): (r: int)
    ensures -0x8000_0000 <= r < 0x8000_0000
    ensures (r - x) % TWO_32 == 0
    ensures x < 0x8000_0000 ==> r == x
  {
    if x < 0x8000_0000 then x else x - TWO_32
  }

  function Abs(x: int): (r: nat)
    ensures r == x || r == -x
  {
    if x < 0 then -x else x
  }

  /** A signed 64-bit division that is defined: the divisor is not zero,
      and the quotient is not the one that overflows, the most negative
      value divided by -1. */
  predicate DivDefined(a: int, b: int) {
    b != 0 && !(a == -TWO_63 && b == -1)
  }

  /** Division truncating towards zero, as a signed machine division does.
      Dafny's own `/` is Euclidean, so the signs are handled explicitly. */
  function TruncDiv(a: int, b: int): (q: int)
    requires b != 0
    ensures Abs(q) == Abs(a) / Abs(b)
    ensures q != 0 ==> ((q < 0) <==> ((a < 0) != (b < 0)))
  {
    var m := Abs(a) / Abs(b);
    QuotientNonNegative(Abs(a), Abs(b), m);
    if (a < 0) == (b < 0) then m else -m
  }

  /** The quotient and remainder of a truncating division: the remainder
      is smaller than the divisor in magnitude and is zero or has the sign
      of the dividend. */
  lemma TruncDivRemainder(a: int, b: int)
    requires b != 0
    ensures var r := a - TruncDiv(a, b) * b;
            Abs(r) < Abs(b) && (r == 0 || (r < 0) == (a < 0))
  {
    var na: int, nb: int := Abs(a), Abs(b);
    var q0: int, r0: int := na / nb, na % nb;
    assert na == q0 * nb + r0 && 0 <= r0 < nb;
    var q := TruncDiv(a, b);
    if (a < 0) == (b < 0) {
      assert q == q0;
      assert q * b == (if a < 0 then -(q0 * nb) else q0 * nb);
    } else {
      assert q == -q0;
      assert q * b == (if a < 0 then -(q0 * nb) else q0 * nb);
    }
  }

  /** For 64-bit operands, the truncated quotient is a 64-bit value exactly
      when the division is defined: the only overflow is the most negative
      value divided by -1. */
  lemma TruncDivInRange(a: int, b: int)
    requires InInt64(a) && InInt64(b) && b != 0
    ensures InInt64(TruncDiv(a, b)) <==> DivDefined(a, b)
  {
    QuotientBound(Abs(a), Abs(b));
  }

  /** A quotient of naturals is at most the dividend, and at most half of
      it when the divisor is 2 or more. */
  lemma QuotientNonNegative(n: nat, d: nat, q: int)
    requires d >= 1 && q == n / d
    ensures q >= 0
  {
  }

  lemma QuotientBound(n: nat, d: nat)
    requires d >= 1
    ensures n / d <= n
    ensures d == 1 ==> n / d == n
    ensures d >= 2 ==> 2 * (n / d) <= n
  {
    var q: int, r: int := n / d, n % d;
    assert n == q * d + r && 0 <= r < d;
    QuotientNonNegative(n, d, q);
    ProductAtLeast(q, d);
  }

  /** A product grows with each factor: q * d is at least q, and at least
      2 * q once d is 2 or more. */
  lemma {:induction false} ProductAtLeast(q: nat, d: nat)
    requires d >= 1
    ensures q <= q * d
    ensures d >= 2 ==> 2 * q <= q * d
  {
    if d > 1 {
      ProductAtLeast(q, d - 1);
      assert q * d == q * (d - 1) + q;
    }
  }

}
