/**
 Signed 64-bit division and remainder (common/gcc-millicode/divdi3.c and
 moddi3.c) on top of the unsigned routine.
 */
module Divdi3 {
  import opened Words
  import opened Qdivrem

  const MIN := -0x8000_0000_0000_0000

  type int64 = x: int | -0x8000_0000_0000_0000 <= x < 0x8000_0000_0000_0000

  /** A signed word reread as unsigned. */
  function ToUnsigned(x: int): int { x % W64 }

  /** An unsigned word reread as signed. */
  function ToSigned(x: int): (r: int64)
    requires 0 <= x < W64
  {
    if x < W64 / 2 then x else x - W64
  }

  function Abs(x: int): nat { if x < 0 then -x else x }

  /** Division truncated toward zero, as section 6.5.5 of ISO/IEC 9899:1999 asks:
      what q leaves over is smaller than b and is zero or has the sign of a. */
  predicate Truncated(a: int, b: int, q: int) {
    var r := a - q * b;
    Abs(r) < Abs(b) && (r == 0 || (r < 0 <==> a < 0))
  }

  datatype Outcome = Trap | Value(value: int64)

  /** The sign handling on the way in: the word, negated when the number is negative. */
  function Magnitude(a: int64): (r: int)
    ensures 0 <= r <= W64 / 2 && r == Abs(a)
  {
    var ua := ToUnsigned(a);
    if a < 0 then (-ua) % W64 else ua
  }

  /** The sign handling on the way out: negate the word, then reread it as signed. */
  function Signed(w: int, neg: bool): (r: int64)
    requires 0 <= w <= W64 / 2
    ensures r == if neg then -w else if w == W64 / 2 then MIN else w
  {
    ToSigned(if neg then (-w) % W64 else w)
  }

  /** __divdi3. The one pair whose quotient does not fit wraps around to the dividend. */
  method Divide(a: int64, b: int64) returns (res: Outcome)
    ensures res.Trap? <==> b == 0
    ensures b != 0 ==> (Truncated(a, b, res.value) <==> !(a == MIN && b == -1))
    ensures a == MIN && b == -1 ==> res == Value(MIN)
  {
    var d := QDivRem(Magnitude(a), Magnitude(b));
    match d {
      case DivideByZero =>
        return Trap;
      case Quotient(uq, ur) =>
        QuotientRange(Magnitude(a), Magnitude(b), uq, ur);
        SignedQuotient(a, b, uq, ur);
        if a == MIN && b == -1 { assert !Truncated(a, b, MIN); }
        return Value(Signed(uq, (a < 0) != (b < 0)));
    }
  }

  /** __moddi3. */
  method Remainder(a: int64, b: int64) returns (res: Outcome, ghost q: int)
    ensures res.Trap? <==> b == 0
    ensures b != 0 ==> Truncated(a, b, q) && res.value == a - q * b
  {
    var d := QDivRem(Magnitude(a), Magnitude(b));
    match d {
      case DivideByZero =>
        return Trap, 0;
      case Quotient(uq, ur) =>
        SignedQuotient(a, b, uq, ur);
        return Value(Signed(ur, a < 0)), if (a < 0) != (b < 0) then -uq else uq;
    }
  }

  lemma QuotientRange(ua: int, ub: int, uq: int, ur: int)
    requires 0 <= ua && 0 < ub && ua == uq * ub + ur && 0 <= ur < ub
    ensures 0 <= uq <= ua
    ensures ub > 1 && ua > 0 ==> uq < ua
    ensures ub == 1 ==> uq == ua
  {
    if uq < 0 { MulMono(uq, -1, ub); }
    if uq >= 0 { MulMono(1, ub, uq); }
    if ub > 1 && uq > 0 { MulMono(2, ub, uq); }
  }

  /** The signed quotient and remainder from those of the absolute values. */
  lemma SignedQuotient(a: int, b: int, uq: int, ur: int)
    requires b != 0 && Abs(a) == uq * Abs(b) + ur && 0 <= ur < Abs(b)
    ensures var q := if (a < 0) != (b < 0) then -uq else uq;
            Truncated(a, b, q) && a - q * b == if a < 0 then -ur else ur
  {
    assert (-uq) * b == -(uq * b) && uq * (-b) == -(uq * b);
  }

  /** There is only one truncated quotient. */
  lemma TruncatedUnique(a: int, b: int, q: int, q': int)
    requires Truncated(a, b, q) && Truncated(a, b, q')
    ensures q == q'
  {
    ProductSize(q - q', b);
    assert (q - q') * b == q * b - q' * b;
  }

  lemma ProductSize(k: int, b: int)
    ensures k != 0 ==> Abs(k * b) >= Abs(b)
  {
    var m := Abs(b);
    assert Abs(k * b) == Abs(k) * m by { assert (-k) * b == -(k * b) && k * (-b) == -(k * b) && (-k) * (-b) == k * b; }
    if k != 0 { MulMono(1, Abs(k), m); }
  }
}
