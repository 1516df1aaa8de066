/**
 Unsigned 64-bit division as common/gcc-millicode/qdivrem.c does it: a one-digit
 path, and Program D with normalisation before it and denormalisation after it.

 The quotient digit of step k is stored in q[k+n], so q[1..5] ends up holding
 the four quotient digits and u[1..5] the four remainder digits.
 */
module Qdivrem {
  import opened Words
  import opened Digits
  import opened ProgramD

  datatype Division = DivideByZero | Quotient(quot: int, rem: int)

  function Pow2(d: nat): (r: nat)
    ensures r > 0
  {
    if d == 0 then 1 else 2 * Pow2(d - 1)
  }

  lemma {:induction false} Pow2Split(d: nat)
    requires d <= 16
    ensures Pow2(d) * Pow2(16 - d) == Pow2(16 - d) * Pow2(d) == B
  {
    if d == 0 {
      assert Pow2(16) == B by {
        assert Pow2(4) == 16;
        assert Pow2(8) == 256;
        assert Pow2(12) == 4096;
      }
    } else {
      Pow2Split(d - 1);
      assert 2 * Pow2(d - 1) * Pow2(16 - d) == Pow2(d - 1) * (2 * Pow2(16 - d));
    }
  }

  // ---------------------------------------------------------------- shifting

  /** A digit shifted left by d bits: what stays, and what moves into the next digit up. */
  lemma ShiftDigit(x: digit, s: int, t: int)
    requires s > 0 && t > 0 && s * t == B
    ensures x * s == (x / t) * B + LHalf(x * s)
    ensures LHalf(x * s) == (x % t) * s
    ensures 0 <= x / t < s
  {
    var h, l := x / t, x % t;
    Euclid(x, t);
    ScaledDigit(h, l, s, t);
    ModUnique(l * s, h, B);
  }

  lemma ScaledDigit(h: int, l: int, s: int, t: int)
    requires s > 0 && t > 0 && s * t == B && 0 <= l < t && 0 <= h * t + l < B
    ensures (h * t + l) * s == l * s + h * B
    ensures 0 <= l * s < B && 0 <= h < s
  {
    assert (h * t + l) * s == h * (s * t) + l * s;
    MulMono(l + 1, t, s);
    MulMono(0, l, s);
    assert (l + 1) * s == l * s + s;
    if h >= s { MulMono(s, h, t); }
    if h < 0 { MulMono(h, -1, t); }
  }

  /** shl: shift p[lo..lo+len+1] left by sh bits; no bit may fall out at the top. */
  method ShiftLeft(p: array<digit>, lo: nat, len: nat, sh: nat)
    requires lo + len < p.Length && 0 < sh < 16
    requires p[lo] * Pow2(sh) < B
    modifies p
    ensures p[..][..lo] == old(p[..])[..lo] && p[..][lo + len + 1..] == old(p[..])[lo + len + 1..]
    ensures Val(p[..][lo..lo + len + 1]) == Val(old(p[..])[lo..lo + len + 1]) * Pow2(sh)
  {
    hide Val, Pow, Pow2;
    var s, t := Pow2(sh), Pow2(16 - sh);
    Pow2Split(sh);
    ghost var op := p[..];
    ShiftBegin(op, lo, s, t);
    var i := 0;
    while i < len
      invariant 0 <= i <= len
      invariant forall x :: 0 <= x < p.Length && !(lo <= x < lo + i) ==> p[..][x] == op[x]
      invariant Val(p[..][lo..lo + i]) == Val(op[lo..lo + i]) * s + op[lo + i] / t
    {
      ghost var np := p[..];
      ShiftDigit(p[lo + i], s, t);
      ShiftDigit(p[lo + i + 1], s, t);
      var x := LHalf(p[lo + i] * s) + p[lo + i + 1] / t;
      ShiftedFits(p[lo + i], p[lo + i + 1], s, t);
      p[lo + i] := x;
      ShiftStep(op, np, lo, i, s, t, op[lo + i + 1] / t, x);
      i := i + 1;
    }
    ghost var np := p[..];
    ShiftDigit(p[lo + i], s, t);
    p[lo + i] := LHalf(p[lo + i] * s);
    ShiftStep(op, np, lo, i, s, t, 0, p[lo + i]);
  }

  lemma ShiftBegin(op: seq<digit>, lo: nat, s: int, t: int)
    requires lo < |op| && s > 0 && t > 0 && s * t == B && op[lo] * s < B
    ensures op[lo] / t == 0 && Val(op[lo..lo]) == 0
  {
    ShiftDigit(op[lo], s, t);
  }

  lemma ShiftedFits(x: digit, y: digit, s: int, t: int)
    requires s > 0 && t > 0 && s * t == B
    ensures 0 <= LHalf(x * s) + y / t < B
  {
    ShiftDigit(x, s, t);
    ShiftDigit(y, s, t);
    MulMono(x % t + 1, t, s);
    assert (x % t + 1) * s == (x % t) * s + s;
  }

  lemma ShiftStep(op: seq<digit>, np: seq<digit>, lo: nat, i: nat, s: int, t: int, next: int, x: digit)
    requires |op| == |np| && lo + i < |op| && s > 0 && t > 0
    requires Val(np[lo..lo + i]) == Val(op[lo..lo + i]) * s + op[lo + i] / t
    requires op[lo + i] * s == (op[lo + i] / t) * B + (x - next)
    ensures Val(np[lo + i := x][lo..lo + i + 1]) == Val(op[lo..lo + i + 1]) * s + next
  {
    hide Val;
    var a, b := np[lo + i := x][lo..lo + i + 1], op[lo..lo + i + 1];
    assert a[..|a| - 1] == np[lo..lo + i] && b[..|b| - 1] == op[lo..lo + i];
    ValLast(a);
    ValLast(b);
    ShiftArith(Val(op[lo..lo + i]), op[lo + i], s, op[lo + i] / t, next, x);
  }

  lemma ValLast(s: seq<digit>)
    requires s != []
    ensures Val(s) == Val(s[..|s| - 1]) * B + s[|s| - 1]
  {
  }

  lemma ShiftArith(o: int, y: int, s: int, h: int, next: int, x: int)
    requires y * s == h * B + (x - next)
    ensures (o * s + h) * B + x == (o * B + y) * s + next
  {
    assert (o * B + y) * s == o * s * B + y * s;
  }

  /** Digits i+1..5 of nu are those of ou divided by s: low bits r0 fell out at the
      bottom, and low bits ri of digit i were shifted in at the top. */
  ghost predicate Unshifted(ou: seq<digit>, nu: seq<digit>, i: nat, s: int, r0: int, ri: int)
    requires |ou| == 5 && |nu| == 5 && i <= 4
  {
    Val(nu[i + 1..5]) * s == Val(ou[i + 1..5]) - r0 + ri * Pow(4 - i)
  }

  /** Denormalisation of the remainder: u[4-n..5] shifted right by d bits in place. */
  method ShiftRight(u: array<digit>, n: nat, d: nat)
    requires u.Length == 5 && 0 < n <= 4 && 0 < d < 16
    requires Val(u[..]) < Pow(n)
    requires Val(u[..]) % Pow2(d) == 0
    modifies u
    ensures Val(u[..]) * Pow2(d) == old(Val(u[..]))
  {
    var s, t := Pow2(d), Pow2(16 - d);
    Pow2Split(d);
    ghost var ou := u[..];
    var i := 4;
    while i > 4 - n
      invariant 4 - n <= i <= 4
      invariant forall x :: 0 <= x <= i ==> u[..][x] == ou[x]
      invariant Unshifted(ou, u[..], i, s, ou[4] % s, ou[i] % s)
    {
      ghost var nu := u[..];
      Euclid(u[i], s);
      UnshiftDigit(u, i, s, t);
      UnshiftStep(ou, nu, i, s, t, u[i], ou[4] % s, ou[i] / s, ou[i] % s, ou[i - 1] % s);
      i := i - 1;
    }
    ghost var nu := u[..];
    u[i] := 0;
    Euclid(ou[4], s);
    Euclid(ou[4 - n], s);
    UnshiftDone(ou, nu, u[..], n, s, ou[4] % s, ou[4 - n] % s);
  }

  method UnshiftDigit(u: array<digit>, i: nat, s: int, t: int)
    requires 0 < i < u.Length && s > 0 && t > 0 && t * s == B
    modifies u
    ensures u[..] == old(u[..])[i := u[i]]
    ensures u[i] == old(u[i]) / s + (u[i - 1] % s) * t
  {
    ShiftDigit(u[i - 1], t, s);
    ShiftedFits(u[i - 1], u[i], t, s);
    u[i] := u[i] / s + LHalf(u[i - 1] * t);
  }

  lemma UnshiftDone(ou: seq<digit>, nu: seq<digit>, fu: seq<digit>, n: nat, s: int, r0: int, ri: int)
    requires |ou| == 5 && |nu| == 5 && 0 < n <= 4 && s > 0
    requires Val(ou) < Pow(n) && Val(ou) % s == 0
    requires forall x :: 0 <= x <= 4 - n ==> nu[x] == ou[x]
    requires 0 <= r0 < s && (ou[4 - n] == 0 ==> ri == 0)
    requires Unshifted(ou, nu, 4 - n, s, r0, ri)
    requires fu == nu[4 - n := 0]
    ensures Val(fu) * s == Val(ou)
  {
    HighDigitsZero(ou, n);
    assert fu == nu;
    WholeIsTail(ou, n);
    WholeIsTail(nu, n);
    assert ri == 0;
    NothingShiftedIn(Val(ou), Val(nu), r0, ri, Pow(n), s);
  }

  lemma NothingShiftedIn(a: int, b: int, r0: int, ri: int, p: int, s: int)
    requires s > 0 && 0 <= r0 < s && a % s == 0 && ri == 0 && b * s == a - r0 + ri * p
    ensures b * s == a
  {
    assert ri * p == 0;
    ExactShift(a, b, r0, s);
  }

  lemma UnshiftStep(ou: seq<digit>, nu: seq<digit>, i: nat, s: int, t: int, x: digit, r0: int, qi: int,
                    ri: int, r': int)
    requires |ou| == 5 && |nu| == 5 && 0 < i <= 4 && s * t == B
    requires Unshifted(ou, nu, i, s, r0, ri)
    requires ou[i] == qi * s + ri && x == qi + r' * t
    ensures Unshifted(ou, nu[i := x], i - 1, s, r0, r')
  {
    ValSlice(nu[i := x], i, 5);
    assert nu[i := x][i + 1..5] == nu[i + 1..5];
    ValSlice(ou, i, 5);
    UnshiftArith(qi, ri, r', s, t, Pow(4 - i), x, ou[i], Val(nu[i + 1..5]), Val(ou[i + 1..5]), r0);
  }

  lemma UnshiftArith(q: int, r: int, r': int, s: int, t: int, p: int, x: int, y: int, a: int, b: int, r0: int)
    requires s * t == B && x == q + r' * t && y == q * s + r
    requires a * s == b - r0 + r * p
    ensures (x * p + a) * s == y * p + b - r0 + r' * (B * p)
  {
    calc {
      (x * p + a) * s;
      x * p * s + a * s;
      { assert x * p * s == x * s * p; }
      x * s * p + a * s;
      { assert x * s == q * s + r' * (s * t); }
      (q * s + r' * B) * p + a * s;
      { assert (q * s + r' * B) * p == q * s * p + r' * (B * p); }
      q * s * p + r' * (B * p) + a * s;
      { assert y * p == q * s * p + r * p; }
      y * p + b - r0 + r' * (B * p);
    }
  }

  lemma WholeIsTail(s: seq<digit>, n: nat)
    requires |s| == 5 && n <= 5
    requires forall i :: 0 <= i < 5 - n ==> s[i] == 0
    ensures Val(s) == Val(s[5 - n..5])
  {
    ValConcat(s[..5 - n], s[5 - n..]);
    ValZeros(s[..5 - n]);
    assert s == s[..5 - n] + s[5 - n..] && s[5 - n..5] == s[5 - n..];
  }

  lemma Euclid(y: int, s: int)
    requires s > 0
    ensures y == y / s * s + y % s && 0 <= y % s < s
    ensures y == 0 ==> y % s == 0
  {
  }

  lemma ExactShift(a: int, b: int, r: int, s: int)
    requires s > 0 && 0 <= r < s && a % s == 0 && b * s == a - r
    ensures r == 0
  {
    var q := a / s;
    assert a == q * s;
    DivUnique(0, q, r, b, s);
  }

  // ---------------------------------------------------------------- one-digit divisor

  /** One step of short division: bring down the next digit. */
  lemma ShortStep(x: int, q: int, r: int, d: digit, t: int)
    requires x == q * t + r && 0 <= r < t
    ensures 0 <= Combine(r, d) / t < B
    ensures x * B + d == (q * B + Combine(r, d) / t) * t + Combine(r, d) % t
  {
    var y := Combine(r, d);
    assert y == y / t * t + y % t;
    assert (q * B + y / t) * t == q * t * B + y / t * t;
    if y / t >= B { MulMono(B, y / t, t); }
  }

  /** The unrolled loop for a divisor t below B. */
  method ShortDivide(u: array<digit>, t: digit) returns (quot: int, rem: int)
    requires u.Length == 5 && t > 0
    ensures Val(u[..][1..]) == quot * t + rem && 0 <= rem < t
  {
    var q1 := u[1] / t;
    var rbj := Combine(u[1] % t, u[2]);
    ShortStep(u[1], q1, u[1] % t, u[2], t);
    var q2 := rbj / t;
    ghost var x2, r2 := u[1] * B + u[2], rbj % t;
    rbj := Combine(rbj % t, u[3]);
    ShortStep(x2, q1 * B + q2, r2, u[3], t);
    var q3 := rbj / t;
    ghost var x3, r3 := x2 * B + u[3], rbj % t;
    rbj := Combine(rbj % t, u[4]);
    ShortStep(x3, (q1 * B + q2) * B + q3, r3, u[4], t);
    var q4 := rbj / t;
    rem := rbj % t;
    quot := Combine(q1, q2) * W32 + Combine(q3, q4);
    FourDigits(u[..][1..]);
  }

  lemma FourDigits(s: seq<digit>)
    requires |s| == 4
    ensures Val(s) == Combine(s[0], s[1]) * W32 + Combine(s[2], s[3])
  {
    assert s[..3][..2] == s[..2] && s[..2][..1] == s[..1] && s[..1][..0] == [];
    assert Val(s[..1]) == s[0];
    assert Val(s[..2]) == s[0] * B + s[1];
    assert Val(s[..3]) == (s[0] * B + s[1]) * B + s[2];
  }

  // ---------------------------------------------------------------- main loop

  /** The digits qs of the quotient are done, and r, below the scaled divisor dz, is what is left of u0. */
  ghost predicate Progress(u0: int, qs: seq<digit>, dz: int, r: int) {
    u0 == Val(qs) * dz + r && 0 <= r < dz
  }

  /** Steps D2 to D7 for an already normalised dividend and divisor. */
  method DivideDigits(u: array<digit>, v: array<digit>, q: array<digit>, n: nat, uo: nat)
    requires u.Length == 5 && v.Length == 5 && q.Length == 5 && u != v && u != q && v != q
    requires 2 <= n && uo + n <= 4 && v[5 - n] > 0
    requires Val(u[..]) < Divisor(v[..], n) * Pow(5 - n - uo)
    requires forall i :: 0 <= i < uo + n ==> q[i] == 0
    modifies u, q
    ensures old(Val(u[..])) == Val(q[..]) * Divisor(v[..], n) + Val(u[..])
    ensures 0 <= Val(u[..]) < Divisor(v[..], n)
    ensures q[0] == 0
  {
    ghost var u0, d := Val(u[..]), Divisor(v[..], n);
    var k := uo;
    ValZeros(q[..][..k + n]);
    ValBound(u[..]);
    assert Progress(u0, q[..][..k + n], d * Pow(5 - n - k), Val(u[..]));
    hide Progress;
    while k + n <= 4
      invariant uo <= k && k + n <= 5 && v[..] == old(v[..]) && q[0] == 0
      invariant Progress(u0, q[..][..k + n], d * Pow(5 - n - k), Val(u[..]))
    {
      ghost var qs, r := q[..][..k + n], Val(u[..]);
      ProgressBound(u0, qs, d * Pow(5 - n - k), r);
      var qd := DivideStep(u, v, k, n);
      q[k + n] := qd;
      assert q[..][..k + n] == qs;
      assert q[..][..k + n + 1] == qs + [qd];
      NextProgress(u0, qs, d, Pow(4 - n - k), r, qd, Val(u[..]));
      k := k + 1;
    }
    assert q[..][..5] == q[..];
    ProgressBound(u0, q[..], d * Pow(0), Val(u[..]));
  }

  lemma ProgressBound(u0: int, qs: seq<digit>, dz: int, r: int)
    requires Progress(u0, qs, dz, r)
    ensures 0 <= r < dz && u0 == Val(qs) * dz + r
  {
  }

  lemma NextProgress(u0: int, qs: seq<digit>, d: int, z: int, r: int, qd: digit, r': int)
    requires Progress(u0, qs, d * (B * z), r)
    requires r == qd * (d * z) + r' && 0 <= r' < d * z
    ensures Progress(u0, qs + [qd], d * z, r')
  {
    assert (qs + [qd])[..|qs|] == qs;
    NextQuotient(u0, Val(qs), d, z, r, qd, r');
  }

  lemma NextQuotient(u0: int, qv: int, d: int, z: int, r: int, qd: int, r': int)
    requires u0 == qv * (d * (B * z)) + r
    requires r == qd * (d * z) + r'
    ensures u0 == (qv * B + qd) * (d * z) + r'
  {
    assert qv * (d * (B * z)) == qv * B * (d * z);
    assert (qv * B + qd) * (d * z) == qv * B * (d * z) + qd * (d * z);
  }

  // ---------------------------------------------------------------- normalisation

  /** Position of the first digit of the dividend; it has no more digits than fit. */
  method SkipLeadingZeros(u: array<digit>, n: nat) returns (uo: nat)
    requires u.Length == 5 && 2 <= n <= 4 && u[0] == 0
    requires Val(u[..]) >= Pow(n - 1)
    ensures uo + n <= 4
    ensures forall i :: 0 <= i <= uo ==> u[i] == 0
    ensures Val(u[..]) < Pow(4 - uo)
  {
    uo := 0;
    while u[uo + 1] == 0
      invariant uo + n <= 4
      invariant forall i :: 0 <= i <= uo ==> u[i] == 0
      decreases 4 - uo
    {
      if uo + n == 4 { WholeIsTail(u[..], n - 1); ValBound(u[..][5 - (n - 1)..5]); }
      uo := uo + 1;
    }
    WholeIsTail(u[..], 4 - uo);
    ValBound(u[..][5 - (4 - uo)..5]);
  }

  /** D1: number of bits by which to shift the divisor's first digit up. */
  method ShiftAmount(v1: digit) returns (d: nat)
    requires v1 > 0
    ensures d < 16 && B / 2 <= v1 * Pow2(d) < B
  {
    d := 0;
    var t := v1;
    while t < B / 2
      invariant d < 16 && t == v1 * Pow2(d) && t < B
      decreases B - t
    {
      ShiftRoom(v1, d);
      t := 2 * t;
      d := d + 1;
    }
  }

  lemma ShiftRoom(v1: digit, d: nat)
    requires v1 > 0 && d < 16 && v1 * Pow2(d) < B / 2
    ensures d < 15 && v1 * Pow2(d + 1) == 2 * (v1 * Pow2(d))
  {
    hide Pow2;
    MulGrow(v1, Pow2(d));
    HalfOfB(d);
    assert v1 * (2 * Pow2(d)) == 2 * (v1 * Pow2(d));
  }

  lemma HalfOfB(d: nat)
    ensures d == 15 ==> Pow2(d) == B / 2
    ensures Pow2(d + 1) == 2 * Pow2(d)
  {
    assert Pow2(5) == 32;
    assert Pow2(10) == 1024;
  }

  /** Both numbers shifted by d bits in place. */
  method Normalise(u: array<digit>, v: array<digit>, n: nat, uo: nat, d: nat)
    requires u.Length == 5 && v.Length == 5 && u != v && 2 <= n && uo + n <= 4 && d < 16
    requires forall i :: 0 <= i <= uo ==> u[i] == 0
    requires 0 < v[5 - n] && v[5 - n] * Pow2(d) < B
    modifies u, v
    ensures Val(u[..]) == old(Val(u[..])) * Pow2(d)
    ensures Divisor(v[..], n) == old(Divisor(v[..], n)) * Pow2(d)
  {
    if d > 0 {
      WholeIsTail(u[..], 5 - uo);
      ghost var ou, ov := u[..], v[..];
      ShiftLeft(u, uo, 4 - uo, d);
      assert forall i :: 0 <= i < uo ==> u[..][..uo][i] == 0;
      WholeIsTail(u[..], 5 - uo);
      ShiftLeft(v, 5 - n, n - 1, d);
    }
  }

  /** A divisor has a nonzero first digit exactly when it needs all its digits. */
  lemma FirstDigit(vs: seq<digit>, n: nat)
    requires |vs| == 5 && 0 < n <= 4
    ensures vs[5 - n] > 0 <==> Divisor(vs, n) >= Pow(n - 1)
  {
    ValSlice(vs, 5 - n, 5);
    ValBound(vs[5 - n + 1..5]);
    if vs[5 - n] > 0 { MulGrow(vs[5 - n], Pow(n - 1)); }
  }

  /** After normalisation the main loop's invariant holds at its first step. */
  lemma LoopEntry(u0: int, v0: int, s: int, n: nat, uo: nat)
    requires n > 0 && uo + n <= 4 && s > 0
    requires 0 <= u0 < Pow(4 - uo) && v0 >= Pow(n - 1)
    ensures u0 * s < v0 * s * Pow(5 - n - uo)
    ensures v0 * s >= Pow(n - 1)
  {
    var z := Pow(5 - n - uo);
    PowAdd(n - 1, 5 - n - uo);
    MulMono(Pow(n - 1), v0, z);
    assert u0 < v0 * z;
    MulMono(u0 + 1, v0 * z, s);
    assert (u0 + 1) * s == u0 * s + s;
    assert v0 * z * s == v0 * s * z;
    MulMono(1, s, v0);
  }

  /** Undoing the scaling leaves quotient and remainder of the original numbers. */
  lemma Unscale(u0: int, v0: int, s: int, quot: int, r: int, rem: int)
    requires s > 0 && u0 * s == quot * (v0 * s) + r && 0 <= r < v0 * s && rem * s == r
    ensures u0 == quot * v0 + rem && 0 <= rem < v0
  {
    assert quot * (v0 * s) == quot * v0 * s;
    assert (quot * v0 + rem) * s == quot * v0 * s + rem * s;
    CancelScale(u0, quot * v0 + rem, s);
    if rem < 0 { MulMono(rem, -1, s); }
    if rem >= v0 { MulMono(v0, rem, s); }
  }

  lemma CancelScale(a: int, b: int, s: int)
    requires s > 0 && a * s == b * s
    ensures a == b
  {
    assert (a + 1) * s == a * s + s && (b + 1) * s == b * s + s;
    if a < b { MulMono(a + 1, b, s); }
    if b < a { MulMono(b + 1, a, s); }
  }

  lemma NotScaled(r: int)
    ensures r * Pow2(0) == r
  {
  }

  lemma ScaledRemainder(u0: int, v0: int, s: int, quot: int, r: int)
    requires s > 0 && u0 * s == quot * (v0 * s) + r
    ensures r % s == 0
  {
    var x := u0 - quot * v0;
    assert quot * (v0 * s) == quot * v0 * s;
    assert r == 0 + x * s;
    ModUnique(0, x, s);
  }

  /** Division by a divisor of two to four digits. */
  method LongDivide(u: array<digit>, v: array<digit>, q: array<digit>, n: nat) returns (quot: int, rem: int)
    requires u.Length == 5 && v.Length == 5 && q.Length == 5 && u != v && u != q && v != q
    requires 2 <= n <= 4 && u[0] == 0 && v[5 - n] > 0
    requires Val(u[..]) >= Divisor(v[..], n)
    modifies u, v, q
    ensures old(Val(u[..])) == quot * old(Divisor(v[..], n)) + rem
    ensures 0 <= rem < old(Divisor(v[..], n))
  {
    hide Val, Pow, Pow2, Divisor;
    ghost var u0, v0 := Val(u[..]), Divisor(v[..], n);
    FirstDigit(v[..], n);
    var uo := SkipLeadingZeros(u, n);
    var i := uo + n;
    while i > 0
      invariant 0 <= i <= uo + n
      invariant forall x :: i <= x < uo + n ==> q[x] == 0
      invariant u[..] == old(u[..]) && v[..] == old(v[..])
    {
      i := i - 1;
      q[i] := 0;
    }
    var d := ShiftAmount(v[5 - n]);
    ghost var s := Pow2(d);
    Normalise(u, v, n, uo, d);
    LoopEntry(u0, v0, s, n, uo);
    FirstDigit(v[..], n);
    DivideDigits(u, v, q, n, uo);
    ghost var r := Val(u[..]);
    DivisorBound(v[..], n);
    if d > 0 {
      ScaledRemainder(u0, v0, s, Val(q[..]), r);
      ShiftRight(u, n, d);
    } else {
      NotScaled(r);
    }
    rem := Combine(u[1], u[2]) * W32 + Combine(u[3], u[4]);
    quot := Combine(q[1], q[2]) * W32 + Combine(q[3], q[4]);
    Unscale(u0, v0, s, Val(q[..]), r, Val(u[..]));
    DropTop(q[..]);
    DivisorBound(old(v[..]), n);
    PowMono(n, 4);
    HighDigitsZero(u[..], 4);
    DropTop(u[..]);
  }

  lemma PowMono(a: nat, b: nat)
    requires a <= b
    ensures Pow(a) <= Pow(b)
  {
    PowAdd(a, b - a);
    MulGrow(Pow(b - a), Pow(a));
  }

  lemma DropTop(s: seq<digit>)
    requires |s| == 5 && s[0] == 0
    ensures Val(s) == Combine(s[1], s[2]) * W32 + Combine(s[3], s[4])
  {
    WholeIsTail(s, 4);
    FourDigits(s[1..5]);
  }

  // ---------------------------------------------------------------- entry point

  /** The four digits of a 64-bit word. */
  method SplitWord(x: int) returns (a: array<digit>)
    requires 0 <= x < W64
    ensures fresh(a) && a.Length == 5 && a[0] == 0 && Val(a[..]) == x
  {
    var h, l := x / W32, x % W32;
    a := new digit[5](_ => 0);
    a[1] := LHalf(HHalf(h));
    a[2] := LHalf(h);
    a[3] := LHalf(HHalf(l));
    a[4] := LHalf(l);
    assert HHalf(h) < B && HHalf(l) < B;
    DropTop(a[..]);
  }

  /** __qdivrem: quotient and remainder of any two 64-bit unsigned numbers. */
  method QDivRem(ull: int, vll: int) returns (res: Division)
    requires 0 <= ull < W64 && 0 <= vll < W64
    ensures res.DivideByZero? <==> vll == 0
    ensures res.Quotient? ==> ull == res.quot * vll + res.rem && 0 <= res.rem < vll
  {
    if vll == 0 {
      return DivideByZero;
    }
    if ull < vll {
      return Quotient(0, ull);
    }
    var u := SplitWord(ull);
    var v := SplitWord(vll);
    var q := new digit[5](_ => 0);
    WholeIsTail(u[..], 4);
    var n := 4;
    while v[5 - n] == 0
      invariant 2 <= n <= 4
      invariant forall i :: 0 <= i < 5 - n ==> v[i] == 0
      invariant Val(u[..]) == ull && Val(v[..]) == vll && u[0] == 0
      decreases n
    {
      n := n - 1;
      if n == 1 {
        WholeIsTail(v[..], 1);
        assert v[..][4..5] == [v[4]];
        assert [v[4]][..0] == [];
        assert u[..][1..5] == u[..][1..];
        var quot, rem := ShortDivide(u, v[4]);
        return Quotient(quot, rem);
      }
    }
    WholeIsTail(v[..], n);
    var quot, rem := LongDivide(u, v, q, n);
    return Quotient(quot, rem);
  }
}
