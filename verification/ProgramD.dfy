/**
 Steps D3 to D6 of Program D, one quotient digit at a time, worked in place on
 the five-digit arrays of common/gcc-millicode/qdivrem.c.

 Pointers into the digit arrays are written as offsets. With n divisor digits
 the divisor occupies v[5-n..5], and step k of the main loop works on the window
 u[k..k+n+1].
 */
module ProgramD {
  import opened Words
  import opened Digits

  // ---------------------------------------------------------------- D3

  /** rhat is what remains of nn after qhat times v1. */
  predicate Remains(qhat: int, rhat: int, v1: int, nn: int) { qhat * v1 + rhat == nn }

  /** q is not too small as a quotient of t by e. */
  predicate NotBelow(q: int, t: int, e: int) { t < (q + 1) * e }

  /** q is not too large as a quotient of t by e. */
  predicate NotAbove(q: int, t: int, e: int) { q * e <= t }

  /** D3: the quotient digit guessed from three dividend and two divisor digits
      is exactly their quotient, capped at B - 1. */
  method EstimateDigit(u0: digit, u1: digit, u2: digit, v1: digit, v2: digit) returns (qhat: int)
    requires 0 < v1 && u0 <= v1
    ensures 0 <= qhat < B
    ensures NotAbove(qhat, Combine(Combine(u0, u1), u2), Combine(v1, v2))
    ensures qhat == B - 1 || NotBelow(qhat, Combine(Combine(u0, u1), u2), Combine(v1, v2))
  {
    hide Remains, NotBelow, NotAbove;
    var rhat: int;
    var tooBig := u0 == v1;
    var nn := Combine(u0, u1);
    if tooBig {
      qhat, rhat := B, u1;
      FullGuess(u0, u1);
    } else {
      qhat, rhat := nn / v1, nn % v1;
      FirstGuess(nn, v1, v2, u2, u0);
      WordsFit(qhat, rhat, v2, u2);
    }
    assert nn < W32;
    while tooBig || v2 * qhat > Combine(rhat, u2)
      invariant Remains(qhat, rhat, v1, nn) && 0 <= rhat < B
      invariant if tooBig then qhat == B else 0 <= qhat < B && v2 * qhat < W32 && Combine(rhat, u2) < W32
      invariant !tooBig && qhat < B - 1 ==> NotBelow(qhat, Combine(nn, u2), Combine(v1, v2))
      decreases qhat
    {
      if !tooBig { GuessTooBig(qhat, rhat, nn, u2, v1, v2); }
      StepDown(qhat, rhat, v1, nn);
      qhat := qhat - 1;
      rhat := rhat + v1;
      tooBig := false;
      assert rhat < W32;
      if rhat >= B {
        BigRemainder(qhat, rhat, u2, v2);
        break;
      }
      WordsFit(qhat, rhat, v2, u2);
    }
    GuessFits(qhat, rhat, nn, u2, v1, v2);
  }

  /** Both sides of the comparison fit in a word. */
  lemma WordsFit(qhat: int, rhat: int, v2: digit, u2: digit)
    requires 0 <= qhat < B && 0 <= rhat < B
    ensures v2 * qhat < W32 && Combine(rhat, u2) < W32
  {
    MulMono(qhat, B - 1, v2);
    MulMono(v2, B - 1, B - 1);
  }

  lemma FullGuess(u0: digit, u1: digit)
    ensures Remains(B, u1, u0, Combine(u0, u1))
  {
  }

  lemma FirstGuess(nn: int, v1: digit, v2: digit, u2: digit, u0: digit)
    requires 0 < v1 && u0 < v1 && u0 * B <= nn < u0 * B + B
    ensures 0 <= nn / v1 < B && 0 <= nn % v1 < v1 && Remains(nn / v1, nn % v1, v1, nn)
    ensures NotBelow(nn / v1, Combine(nn, u2), Combine(v1, v2))
  {
    var q := nn / v1;
    assert nn < (q + 1) * v1;
    if q >= B { MulMono(B, q, v1); }
    assert (q + 1) * Combine(v1, v2) == (q + 1) * v1 * B + (q + 1) * v2;
    assert (q + 1) * v2 >= 0;
  }

  lemma StepDown(qhat: int, rhat: int, v1: int, nn: int)
    requires Remains(qhat, rhat, v1, nn)
    ensures Remains(qhat - 1, rhat + v1, v1, nn)
  {
    assert (qhat - 1) * v1 + (rhat + v1) == qhat * v1 + rhat;
  }

  lemma GuessTooBig(qhat: int, rhat: int, nn: int, u2: digit, v1: digit, v2: digit)
    requires Remains(qhat, rhat, v1, nn) && rhat >= 0
    requires v2 * qhat > Combine(rhat, u2)
    ensures 0 < qhat && NotBelow(qhat - 1, Combine(nn, u2), Combine(v1, v2))
  {
    assert qhat * Combine(v1, v2) == qhat * v1 * B + v2 * qhat;
    if qhat <= 0 { MulMono(qhat, 0, v2); }
  }

  lemma BigRemainder(qhat: int, rhat: int, u2: digit, v2: digit)
    requires 0 <= qhat < B && rhat >= B
    ensures v2 * qhat <= Combine(rhat, u2)
  {
    MulMono(qhat, B, v2);
  }

  lemma GuessFits(qhat: int, rhat: int, nn: int, u2: digit, v1: digit, v2: digit)
    requires Remains(qhat, rhat, v1, nn)
    requires v2 * qhat <= Combine(rhat, u2)
    ensures NotAbove(qhat, Combine(nn, u2), Combine(v1, v2))
  {
    assert qhat * Combine(v1, v2) == qhat * v1 * B + v2 * qhat;
  }

  /** The estimate is right or one too large, whatever digits follow the leading ones:
      one add-back suffices. */
  lemma EstimateWithinOne(qhat: int, t: int, e: int, p: int, tlow: int, elow: int)
    requires 0 <= qhat < B && p > 0 && 0 <= tlow < p && 0 <= elow < p && e >= B
    requires t * p + tlow < (e * p + elow) * B
    requires NotAbove(qhat, t, e) && (qhat == B - 1 || NotBelow(qhat, t, e))
    ensures (qhat - 1) * (e * p + elow) <= t * p + tlow < (qhat + 1) * (e * p + elow)
  {
    EstimateLow(qhat, t, e, p, elow);
    if qhat < B - 1 { EstimateHigh(qhat, t, e, p, tlow, elow); }
  }

  lemma EstimateLow(qhat: int, t: int, e: int, p: int, elow: int)
    requires 0 <= qhat < B && p > 0 && 0 <= elow < p && e >= B && qhat * e <= t
    ensures (qhat - 1) * (e * p + elow) <= t * p
  {
    MulMono(qhat * e, t, p);
    MulMono(B, e, p);
    MulMono(qhat, B, elow);
    calc {
      (qhat - 1) * (e * p + elow);
      qhat * (e * p) + qhat * elow - e * p - elow;
      { assert qhat * (e * p) == qhat * e * p; }
      qhat * e * p + qhat * elow - e * p - elow;
    }
  }

  lemma EstimateHigh(qhat: int, t: int, e: int, p: int, tlow: int, elow: int)
    requires 0 <= qhat && p > 0 && tlow < p && 0 <= elow && t < (qhat + 1) * e
    ensures t * p + tlow < (qhat + 1) * (e * p + elow)
  {
    MulMono(t + 1, (qhat + 1) * e, p);
    MulMono(0, qhat + 1, elow);
    calc {
      (qhat + 1) * (e * p + elow);
      (qhat + 1) * (e * p) + (qhat + 1) * elow;
      { assert (qhat + 1) * (e * p) == (qhat + 1) * e * p; }
      (qhat + 1) * e * p + (qhat + 1) * elow;
    }
  }

  // ---------------------------------------------------------------- D4

  /** nu is ou with nothing changed outside the window of n+1 digits at k, whose value is now w. */
  ghost predicate WindowSet(ou: seq<digit>, nu: seq<digit>, k: nat, n: nat, w: int)
    requires |ou| == 5 && |nu| == 5 && k + n <= 4
  {
    nu[..k] == ou[..k] && nu[k + n + 1..] == ou[k + n + 1..] && Val(nu[k..k + n + 1]) == w
  }

  /** Value of the n divisor digits. */
  ghost function Divisor(vs: seq<digit>, n: nat): int
    requires |vs| == 5 && n <= 5
  {
    Val(vs[5 - n..5])
  }

  /** Digits lo..hi of nu are those of ou minus q times the aligned divisor digits, owing t. */
  ghost predicate Borrowed(ou: seq<digit>, nu: seq<digit>, vs: seq<digit>, lo: nat, hi: nat, q: int, t: int)
    requires |ou| == 5 && |nu| == 5 && |vs| == 5 && lo <= hi <= 5
  {
    Val(nu[lo..hi]) == Val(ou[lo..hi]) - q * Val(vs[5 - (hi - lo)..5]) + t * Pow(hi - lo)
  }

  /** D4: subtract qhat times the divisor from the window. The window ends up
      congruent modulo B^(n+1), and the returned high half is nonzero exactly
      when the subtraction went below zero. */
  method MultiplySubtract(u: array<digit>, v: array<digit>, k: nat, n: nat, qhat: int) returns (high: int)
    requires u.Length == 5 && v.Length == 5 && u != v && 0 < n && k + n <= 4
    requires 0 <= qhat < B
    modifies u
    ensures WindowSet(old(u[..]), u[..], k, n,
                      Val(old(u[..])[k..k + n + 1]) - qhat * Divisor(v[..], n) + if high != 0 then Pow(n + 1) else 0)
  {
    hide Val, Pow, Borrowed, WindowSet, Divisor;
    ghost var ou := u[..];
    var t, i := 0, n;
    BorrowedNone(ou, v[..], k + n + 1, qhat);
    while i > 0
      invariant 0 <= i <= n && 0 <= t < B && v[..] == old(v[..])
      invariant forall x :: 0 <= x < 5 && !(k + i < x <= k + n) ==> u[..][x] == ou[x]
      invariant Borrowed(ou, u[..], v[..], k + i + 1, k + n + 1, qhat, t)
    {
      ghost var nu, t0 := u[..], t;
      t := SubtractDigit(u, k + i, v[4 - n + i], qhat, t);
      BorrowedStep(ou, nu, v[..], k + i, k + n + 1, qhat, t0, u[k + i], t);
      i := i - 1;
    }
    ghost var nu, t0 := u[..], t;
    high := SubtractTop(u, k, t);
    BorrowedTop(ou, nu, v[..], k, n, qhat, t0, u[k], high);
  }

  /** One digit of D4: store the low half, return the borrow. */
  method SubtractDigit(u: array<digit>, i: nat, vi: digit, qhat: int, t0: int) returns (t: int)
    requires i < u.Length && 0 <= qhat < B && 0 <= t0 < B
    modifies u
    ensures u[..] == old(u[..])[i := u[i]]
    ensures 0 <= t < B && u[i] - t * B == old(u[i]) - vi * qhat - t0
  {
    BorrowDigit(u[i], vi, qhat, t0);
    t := (u[i] - vi * qhat - t0) % W32;
    u[i] := LHalf(t);
    t := (B - HHalf(t)) % B;
  }

  /** The digit of D4 above the divisor's digits. */
  method SubtractTop(u: array<digit>, i: nat, t0: int) returns (high: int)
    requires i < u.Length && 0 <= t0 < B
    modifies u
    ensures u[..] == old(u[..])[i := u[i]]
    ensures u[i] - (if high != 0 then B else 0) == old(u[i]) - t0
  {
    var t := (u[i] - t0) % W32;
    u[i] := LHalf(t);
    high := HHalf(t);
  }

  lemma BorrowedNone(ou: seq<digit>, vs: seq<digit>, k: nat, q: int)
    requires |ou| == 5 && |vs| == 5 && k <= 5
    ensures Borrowed(ou, ou, vs, k, k, q, 0)
  {
    assert vs[5..5] == [] && q * Val(vs[5..5]) == 0;
  }

  lemma BorrowedStep(ou: seq<digit>, nu: seq<digit>, vs: seq<digit>, lo: nat, hi: nat, q: int, t: int,
                     x: digit, t': int)
    requires |ou| == 5 && |nu| == 5 && |vs| == 5 && lo < hi <= 5
    requires Borrowed(ou, nu, vs, lo + 1, hi, q, t)
    requires x - t' * B == ou[lo] - vs[5 - (hi - lo)] * q - t
    ensures Borrowed(ou, nu[lo := x], vs, lo, hi, q, t')
  {
    ValSlice(nu[lo := x], lo, hi);
    assert nu[lo := x][lo + 1..hi] == nu[lo + 1..hi];
    ValSlice(ou, lo, hi);
    var vlo := 5 - (hi - lo);
    ValSlice(vs, vlo, 5);
    MulSubStep(ou[lo], vs[vlo], q, t, x, t', Pow(hi - lo - 1),
               Val(ou[lo + 1..hi]), Val(vs[vlo + 1..5]), Val(nu[lo + 1..hi]));
  }

  /** The top digit of the window has no divisor digit under it. */
  lemma BorrowedTop(ou: seq<digit>, nu: seq<digit>, vs: seq<digit>, k: nat, n: nat, q: int, t: int, x: digit, high: int)
    requires |ou| == 5 && |nu| == 5 && |vs| == 5 && k + n <= 4
    requires forall i :: 0 <= i < 5 && !(k < i <= k + n) ==> nu[i] == ou[i]
    requires Borrowed(ou, nu, vs, k + 1, k + n + 1, q, t)
    requires x - (if high != 0 then B else 0) == ou[k] - t
    ensures WindowSet(ou, nu[k := x], k, n,
                      Val(ou[k..k + n + 1]) - q * Divisor(vs, n) + if high != 0 then Pow(n + 1) else 0)
  {
    ValSlice(nu[k := x], k, k + n + 1);
    assert nu[k := x][k + 1..k + n + 1] == nu[k + 1..k + n + 1];
    ValSlice(ou, k, k + n + 1);
    MulSubStep(ou[k], 0, q, t, x, if high != 0 then 1 else 0, Pow(n),
               Val(ou[k + 1..k + n + 1]), Val(vs[5 - n..5]), Val(nu[k + 1..k + n + 1]));
  }

  /** The 32-bit difference splits into the new digit and the exact borrow. */
  lemma BorrowDigit(ui: digit, vi: digit, qhat: int, t: int)
    requires 0 <= qhat < B && 0 <= t < B
    ensures var w := (ui - vi * qhat - t) % W32;
            var t' := (B - HHalf(w)) % B;
            LHalf(w) - t' * B == ui - vi * qhat - t
  {
    MulMono(vi, B - 1, qhat);
    MulMono(0, vi, qhat);
    BorrowWord(ui - vi * qhat - t);
  }

  lemma BorrowWord(raw: int)
    requires -(B - 1) * B <= raw < B
    ensures var w := raw % W32;
            LHalf(w) - (B - HHalf(w)) % B * B == raw
  {
    var w := raw % W32;
    if raw < 0 { assert w == raw + W32; }
  }

  lemma MulSubStep(ui: int, vi: int, q: int, t: int, nd: int, nt: int, p: int, a: int, vl: int, a': int)
    requires nd - nt * B == ui - vi * q - t
    requires a' == a - q * vl + t * p
    ensures nd * p + a' == (ui * p + a) - q * (vi * p + vl) + nt * (B * p)
  {
    calc {
      nd * p;
      (ui - vi * q - t + nt * B) * p;
      ui * p - vi * q * p - t * p + nt * B * p;
    }
    assert vi * q * p == q * (vi * p);
    assert nt * B * p == nt * (B * p);
    assert q * (vi * p + vl) == q * (vi * p) + q * vl;
  }

  // ---------------------------------------------------------------- D6

  /** Digits lo..hi of nu, with a carry of t, are the sum of those of ou and the aligned divisor digits. */
  ghost predicate Carried(ou: seq<digit>, nu: seq<digit>, vs: seq<digit>, lo: nat, hi: nat, t: int)
    requires |ou| == 5 && |nu| == 5 && |vs| == 5 && lo <= hi <= 5
  {
    Val(nu[lo..hi]) + t * Pow(hi - lo) == Val(ou[lo..hi]) + Val(vs[5 - (hi - lo)..5])
  }

  /** D6: add the divisor back into the window, dropping the final carry. */
  method AddBack(u: array<digit>, v: array<digit>, k: nat, n: nat)
    requires u.Length == 5 && v.Length == 5 && u != v && 0 < n && k + n <= 4
    modifies u
    ensures WindowSet(old(u[..]), u[..], k, n, (Val(old(u[..])[k..k + n + 1]) + Divisor(v[..], n)) % Pow(n + 1))
  {
    hide Val, Pow, Carried, WindowSet, Divisor;
    ghost var ou := u[..];
    var t, i := 0, n;
    CarriedNone(ou, v[..], k + n + 1);
    while i > 0
      invariant 0 <= i <= n && 0 <= t <= 1 && v[..] == old(v[..])
      invariant forall x :: 0 <= x < 5 && !(k + i < x <= k + n) ==> u[..][x] == ou[x]
      invariant Carried(ou, u[..], v[..], k + i + 1, k + n + 1, t)
    {
      ghost var nu, t0 := u[..], t;
      t := AddDigit(u, k + i, v[4 - n + i], t);
      CarriedStep(ou, nu, v[..], k + i, k + n + 1, t0, u[k + i], t);
      i := i - 1;
    }
    ghost var nu, t0 := u[..], t;
    t := AddDigit(u, k, 0, t);
    CarriedTop(ou, nu, v[..], k, n, t0, u[k], t);
  }

  /** One digit of D6: store the low half, return the carry. */
  method AddDigit(u: array<digit>, i: nat, vi: digit, t0: int) returns (t: int)
    requires i < u.Length && 0 <= t0 <= 1
    modifies u
    ensures u[..] == old(u[..])[i := u[i]]
    ensures 0 <= t <= 1 && u[i] + t * B == old(u[i]) + vi + t0
  {
    t := t0 + u[i] + vi;
    u[i] := LHalf(t);
    t := HHalf(t);
  }

  lemma CarriedNone(ou: seq<digit>, vs: seq<digit>, k: nat)
    requires |ou| == 5 && |vs| == 5 && k <= 5
    ensures Carried(ou, ou, vs, k, k, 0)
  {
  }

  lemma CarriedStep(ou: seq<digit>, nu: seq<digit>, vs: seq<digit>, lo: nat, hi: nat, t: int, x: digit, t': int)
    requires |ou| == 5 && |nu| == 5 && |vs| == 5 && lo < hi <= 5
    requires Carried(ou, nu, vs, lo + 1, hi, t)
    requires x + t' * B == ou[lo] + vs[5 - (hi - lo)] + t
    ensures Carried(ou, nu[lo := x], vs, lo, hi, t')
  {
    ValSlice(nu[lo := x], lo, hi);
    assert nu[lo := x][lo + 1..hi] == nu[lo + 1..hi];
    ValSlice(ou, lo, hi);
    var vlo := 5 - (hi - lo);
    ValSlice(vs, vlo, 5);
    AddStep(ou[lo], vs[vlo], t, x, t', Pow(hi - lo - 1));
  }

  lemma CarriedTop(ou: seq<digit>, nu: seq<digit>, vs: seq<digit>, k: nat, n: nat, t: int, x: digit, t': int)
    requires |ou| == 5 && |nu| == 5 && |vs| == 5 && k + n <= 4
    requires forall i :: 0 <= i < 5 && !(k < i <= k + n) ==> nu[i] == ou[i]
    requires Carried(ou, nu, vs, k + 1, k + n + 1, t)
    requires x + t' * B == ou[k] + t
    ensures WindowSet(ou, nu[k := x], k, n, (Val(ou[k..k + n + 1]) + Divisor(vs, n)) % Pow(n + 1))
  {
    hide Val, Pow;
    ValSlice(nu[k := x], k, k + n + 1);
    assert nu[k := x][k + 1..k + n + 1] == nu[k + 1..k + n + 1];
    ValSlice(ou, k, k + n + 1);
    PowNext(n);
    AddStep(ou[k], 0, t, x, t', Pow(n));
    ValBound(nu[k := x][k..k + n + 1]);
    CarryDropped(Val(nu[k := x][k..k + n + 1]), Val(ou[k..k + n + 1]) + Divisor(vs, n), t', Pow(n + 1));
  }

  lemma PowNext(n: nat)
    ensures Pow(n + 1) == B * Pow(n)
  {
  }

  lemma CarryDropped(r: int, sum: int, t: int, p: int)
    requires 0 <= r < p && r + t * p == sum
    ensures sum % p == r
  {
    ModUnique(r, t, p);
  }

  lemma AddStep(ui: int, vi: int, t: int, nd: int, nt: int, p: int)
    requires nd + nt * B == ui + vi + t
    ensures nd * p + nt * (B * p) == ui * p + vi * p + t * p
  {
    assert (nd + nt * B) * p == nd * p + nt * (B * p);
    assert (ui + vi + t) * p == ui * p + vi * p + t * p;
  }

  // ---------------------------------------------------------------- one quotient digit

  /** What the invariant of the main loop says about the window of step k. */
  lemma WindowFacts(us: seq<digit>, vs: seq<digit>, k: nat, n: nat)
    requires |us| == 5 && |vs| == 5 && 2 <= n && k + n <= 4
    requires Val(us) < Divisor(vs, n) * Pow(5 - n - k)
    ensures Val(us[..k]) == 0
    ensures Val(us[k..k + n + 1]) < Divisor(vs, n) * B
    ensures us[k] <= vs[5 - n]
  {
    AboveWindowZero(us, vs, k, n);
    WindowBelow(us, Divisor(vs, n), k, n);
    TopDigit(us, vs, k, n);
  }

  lemma AboveWindowZero(us: seq<digit>, vs: seq<digit>, k: nat, n: nat)
    requires |us| == 5 && |vs| == 5 && k + n <= 4
    requires Val(us) < Divisor(vs, n) * Pow(5 - n - k)
    ensures Val(us[..k]) == 0
  {
    DivisorBound(vs, n);
    MulMono(Divisor(vs, n), Pow(n), Pow(5 - n - k));
    PowAdd(n, 5 - n - k);
    HighDigitsZero(us, 5 - k);
    ValZeros(us[..k]);
  }

  lemma WindowBelow(us: seq<digit>, d: int, k: nat, n: nat)
    requires |us| == 5 && k + n <= 4
    requires Val(us) < d * Pow(5 - n - k)
    requires Val(us[..k]) == 0
    ensures Val(us[k..k + n + 1]) < d * B
  {
    ValSplit(us, k, k + n + 1);
    ValBound(us[k + n + 1..]);
    CancelPow(Val(us[k..k + n + 1]), d, Pow(4 - n - k), Val(us[k + n + 1..]));
  }

  lemma CancelPow(w: int, d: int, z: int, low: int)
    requires z > 0 && low >= 0 && w * z + low < d * (B * z)
    ensures w < d * B
  {
    assert d * (B * z) == d * B * z;
    if w >= d * B { MulMono(d * B, w, z); }
  }

  lemma TopDigit(us: seq<digit>, vs: seq<digit>, k: nat, n: nat)
    requires |us| == 5 && |vs| == 5 && 2 <= n && k + n <= 4
    requires Val(us[k..k + n + 1]) < Divisor(vs, n) * B
    ensures us[k] <= vs[5 - n]
  {
    ValSlice(us, k, k + n + 1);
    ValBound(us[k + 1..k + n + 1]);
    ValSlice(vs, 5 - n, 5);
    ValBound(vs[6 - n..5]);
    TopLe(us[k], vs[5 - n], Pow(n - 1), Val(us[k + 1..k + n + 1]), Val(vs[6 - n..5]));
  }

  lemma TopLe(x: int, y: int, p: int, a: int, b: int)
    requires p > 0 && a >= 0 && b < p && x * (B * p) + a < (y * p + b) * B
    ensures x <= y
  {
    assert x * (B * p) == B * (x * p);
    assert (y + 1) * p == y * p + p;
    if x > y {
      MulMono(y + 1, x, p);
    }
  }

  /** The leading digits of a slice, and what lies below them. */
  lemma LeadingTwo(s: seq<digit>, lo: nat, hi: nat) returns (low: int)
    requires lo + 2 <= hi <= |s|
    ensures 0 <= low < Pow(hi - lo - 2) && low == Val(s[lo + 2..hi])
    ensures Val(s[lo..hi]) == Combine(s[lo], s[lo + 1]) * Pow(hi - lo - 2) + low
  {
    ValSlice(s, lo, hi);
    ValSlice(s, lo + 1, hi);
    low := Val(s[lo + 2..hi]);
    ValBound(s[lo + 2..hi]);
    var p := Pow(hi - lo - 2);
    CombineScale(s[lo], s[lo + 1], p);
  }

  lemma CombineScale(x: int, y: int, p: int)
    ensures x * (B * p) + y * p == Combine(x, y) * p
  {
    assert x * (B * p) == x * B * p;
    assert (x * B + y) * p == x * B * p + y * p;
  }

  lemma LeadingThree(s: seq<digit>, lo: nat, hi: nat) returns (low: int)
    requires lo + 3 <= hi <= |s|
    ensures 0 <= low < Pow(hi - lo - 3)
    ensures Val(s[lo..hi]) == Combine(Combine(s[lo], s[lo + 1]), s[lo + 2]) * Pow(hi - lo - 3) + low
  {
    var l2 := LeadingTwo(s, lo, hi);
    ValSlice(s, lo + 2, hi);
    low := Val(s[lo + 3..hi]);
    ValBound(s[lo + 3..hi]);
    var p := Pow(hi - lo - 3);
    CombineScale(Combine(s[lo], s[lo + 1]), s[lo + 2], p);
  }

  /** D3 on the window of step k: the guess is the true digit or one more. */
  method EstimateInWindow(u: array<digit>, v: array<digit>, k: nat, n: nat) returns (qhat: int)
    requires u.Length == 5 && v.Length == 5 && 2 <= n && k + n <= 4 && v[5 - n] > 0
    requires Val(u[..]) < Divisor(v[..], n) * Pow(5 - n - k)
    ensures 0 <= qhat < B
    ensures (qhat - 1) * Divisor(v[..], n) <= Val(u[..][k..k + n + 1]) < (qhat + 1) * Divisor(v[..], n)
  {
    WindowFacts(u[..], v[..], k, n);
    qhat := EstimateDigit(u[k], u[k + 1], u[k + 2], v[5 - n], v[6 - n]);
    ghost var tlow := LeadingThree(u[..], k, k + n + 1);
    ghost var elow := LeadingTwo(v[..], 5 - n, 5);
    ghost var t, e := Combine(Combine(u[k], u[k + 1]), u[k + 2]), Combine(v[5 - n], v[6 - n]);
    EstimateWithinOne(qhat, t, e, Pow(n - 2), tlow, elow);
  }

  /** Steps D3 to D6: reduce the window modulo the divisor and return the quotient digit. */
  method DivideStep(u: array<digit>, v: array<digit>, k: nat, n: nat) returns (qd: int)
    requires u.Length == 5 && v.Length == 5 && u != v && 2 <= n && k + n <= 4 && v[5 - n] > 0
    requires Val(u[..]) < Divisor(v[..], n) * Pow(5 - n - k)
    modifies u
    ensures 0 <= qd < B
    ensures old(Val(u[..])) == qd * (Divisor(v[..], n) * Pow(4 - n - k)) + Val(u[..])
    ensures 0 <= Val(u[..]) < Divisor(v[..], n) * Pow(4 - n - k)
  {
    var qhat := EstimateInWindow(u, v, k, n);
    ghost var ou, d := u[..], Divisor(v[..], n);
    var high := MultiplySubtract(u, v, k, n, qhat);
    Settle(Val(ou[k..k + n + 1]), d, qhat, ou, u[..], v[..], k, n, high);
    if high != 0 {
      qhat := qhat - 1;
      AddBack(u, v, k, n);
    }
    qd := qhat;
    WindowReduced(ou, u[..], v[..], k, n, qd);
  }

  /** After D4 either the window is already reduced, or adding the divisor once reduces it. */
  lemma Settle(w: int, d: int, qhat: int, ou: seq<digit>, nu: seq<digit>, vs: seq<digit>, k: nat, n: nat, high: int)
    requires |ou| == 5 && |nu| == 5 && |vs| == 5 && k + n <= 4
    requires w == Val(ou[k..k + n + 1]) && d == Divisor(vs, n)
    requires 0 <= qhat < B && (qhat - 1) * d <= w < (qhat + 1) * d
    requires WindowSet(ou, nu, k, n, w - qhat * d + if high != 0 then Pow(n + 1) else 0)
    ensures high == 0 ==> 0 <= w - qhat * d < d
    ensures high != 0 ==> 0 < qhat && 0 <= w - (qhat - 1) * d < d
                          && (Val(nu[k..k + n + 1]) + d) % Pow(n + 1) == w - (qhat - 1) * d
  {
    ValBound(ou[k..k + n + 1]);
    ValBound(nu[k..k + n + 1]);
    DivisorBound(vs, n);
    SettleArith(w, Val(nu[k..k + n + 1]), d, qhat, qhat * d, Pow(n + 1), high);
  }

  lemma SettleArith(w: int, w1: int, d: int, qhat: int, qd: int, p: int, high: int)
    requires 0 <= w < p && 0 <= w1 < p && 0 <= d < p && 0 <= qhat && qd == qhat * d
    requires (qhat - 1) * d <= w < (qhat + 1) * d
    requires w1 == w - qd + if high != 0 then p else 0
    ensures high == 0 ==> 0 <= w - qd < d
    ensures high != 0 ==> 0 < qhat && 0 <= w - (qhat - 1) * d < d && (w1 + d) % p == w - (qhat - 1) * d
  {
    assert (qhat - 1) * d == qd - d && (qhat + 1) * d == qd + d;
    if high != 0 {
      assert w1 + d == (w - qd + d) + 1 * p;
      ModUnique(w - qd + d, 1, p);
    }
  }

  lemma DivisorBound(vs: seq<digit>, n: nat)
    requires |vs| == 5 && n <= 4
    ensures 0 <= Divisor(vs, n) < Pow(n) < Pow(n + 1)
  {
    ValBound(vs[5 - n..5]);
  }

  lemma WindowReduced(ou: seq<digit>, nu: seq<digit>, vs: seq<digit>, k: nat, n: nat, qd: int)
    requires |ou| == 5 && |nu| == 5 && |vs| == 5 && 2 <= n && k + n <= 4
    requires Val(ou) < Divisor(vs, n) * Pow(5 - n - k)
    requires WindowSet(ou, nu, k, n, Val(ou[k..k + n + 1]) - qd * Divisor(vs, n))
    requires Val(nu[k..k + n + 1]) < Divisor(vs, n)
    ensures Val(ou) == qd * (Divisor(vs, n) * Pow(4 - n - k)) + Val(nu)
    ensures 0 <= Val(nu) < Divisor(vs, n) * Pow(4 - n - k)
  {
    AboveWindowZero(ou, vs, k, n);
    ValSplit(ou, k, k + n + 1);
    ValSplit(nu, k, k + n + 1);
    ValBound(nu[k + n + 1..]);
    ValBound(nu);
    WindowArith(Val(ou[k..k + n + 1]), Val(nu[k..k + n + 1]), qd, Divisor(vs, n), Pow(4 - n - k));
  }

  lemma WindowArith(w: int, w': int, qd: int, d: int, z: int)
    requires w' == w - qd * d && w' < d && z > 0
    ensures w * z == qd * (d * z) + w' * z
    ensures w' * z + z <= d * z
  {
    assert (w' + qd * d) * z == w' * z + qd * d * z;
    assert qd * d * z == qd * (d * z);
    MulMono(w' + 1, d, z);
    assert (w' + 1) * z == w' * z + z;
  }
}
