/**
 64-bit multiplication from half-word products (common/gcc-millicode/muldi3.c).
 */
module Muldi3 {
  import opened Words
  import opened Digits
  import opened Divdi3

  /** LHUP: low half of a word moved to the upper half. */
  function LHUp(x: int): int { x * B % W32 }

  function Carry(c: bool): int { if c then 1 else 0 }

  /** x is congruent to y modulo 2^64. */
  predicate Same64(x: int, y: int) { (x - y) % W64 == 0 }

  /** Adding x * B into a two-word accumulator, carry detected by overflow of the low word. */
  method AddHalfUp(h: int, l: int, x: int) returns (h': int, l': int)
    requires 0 <= h < W32 && 0 <= l < W32 && 0 <= x < W32
    ensures 0 <= h' < W32 && 0 <= l' < W32
    ensures Same64(h' * W32 + l', h * W32 + l + x * B)
  {
    HalfUp(x);
    l' := (l + LHUp(x)) % W32;
    var sum := h + HHalf(x) + Carry(l' < l);
    h' := sum % W32;
    assert l' + Carry(l' < l) * W32 == l + LHUp(x);
    WordWrap(h', sum, l', h * W32 + l + x * B);
  }

  /** The same with subtraction and a borrow. */
  method SubHalfUp(h: int, l: int, x: int) returns (h': int, l': int)
    requires 0 <= h < W32 && 0 <= l < W32 && 0 <= x < W32
    ensures 0 <= h' < W32 && 0 <= l' < W32
    ensures Same64(h' * W32 + l', h * W32 + l - x * B)
  {
    HalfUp(x);
    l' := (l - LHUp(x)) % W32;
    var diff := h - (HHalf(x) + Carry(l' > l));
    h' := diff % W32;
    assert l' - Carry(l' > l) * W32 == l - LHUp(x);
    WordWrap(h', diff, l', h * W32 + l - x * B);
  }

  lemma HalfUp(x: int)
    requires 0 <= x < W32
    ensures 0 <= LHUp(x) < W32 && x * B == HHalf(x) * W32 + LHUp(x)
  {
    var hi, lo := x / B, x % B;
    assert x * B == hi * W32 + lo * B;
    ModUnique(lo * B, hi, W32);
  }

  /** Reducing the high word modulo 2^32 changes the pair by a multiple of 2^64. */
  lemma WordWrap(h: int, exact: int, l: int, y: int)
    requires h == exact % W32 && exact * W32 + l == y
    ensures Same64(h * W32 + l, y)
  {
    assert h * W32 + l - y == 0 + (-(exact / W32)) * W64;
    ModUnique(0, -(exact / W32), W64);
  }

  /** Two 64-bit words that are congruent are equal. */
  lemma Same64Equal(x: int, y: int)
    requires Same64(x, y) && 0 <= x < W64 && 0 <= y < W64
    ensures x == y
  {
  }

  /** Absolute difference and whether it was negative. */
  method AbsDiff(x: int, y: int) returns (d: int, neg: bool)
    ensures d >= 0 && x - y == if neg then -d else d
    ensures 0 <= x < W32 && 0 <= y < W32 ==> d < W32
    ensures 0 <= x < B && 0 <= y < B ==> d < B
  {
    if x >= y { d, neg := x - y, false; } else { d, neg := y - x, true; }
  }

  /** The identity behind the three-product multiply. */
  lemma ThreeProducts(u1: int, u0: int, v1: int, v0: int, b: int)
    ensures (u1 * b + u0) * (v1 * b + v0)
         == u1 * v1 * (b * b) + (u1 * v1 + (u1 - u0) * (v0 - v1) + u0 * v0) * b + u0 * v0
  {
    assert (u1 - u0) * (v0 - v1) == u1 * v0 - u1 * v1 - u0 * v0 + u0 * v1;
    calc {
      (u1 * b + u0) * (v1 * b + v0);
      (u1 * b) * (v1 * b) + (u1 * b) * v0 + u0 * (v1 * b) + u0 * v0;
      { assert (u1 * b) * (v1 * b) == u1 * v1 * (b * b);
        assert (u1 * b) * v0 == u1 * v0 * b;
        assert u0 * (v1 * b) == u0 * v1 * b; }
      u1 * v1 * (b * b) + u1 * v0 * b + u0 * v1 * b + u0 * v0;
      { assert (u1 * v0 + u0 * v1) * b == u1 * v0 * b + u0 * v1 * b; }
      u1 * v1 * (b * b) + (u1 * v0 + u0 * v1) * b + u0 * v0;
    }
  }

  /** The sign of the middle product. */
  lemma SignedProduct(x: int, y: int, dx: int, nx: bool, dy: int, ny: bool)
    requires x == (if nx then -dx else dx) && y == if ny then -dy else dy
    ensures x * y == if nx != ny then -(dx * dy) else dx * dy
  {
    assert (-dx) * dy == -(dx * dy) && dx * (-dy) == -(dx * dy) && (-dx) * (-dy) == dx * dy;
  }

  lemma HalfProduct(x: int, y: int)
    requires 0 <= x < B && 0 <= y < B
    ensures 0 <= x * y <= (B - 1) * (B - 1)
  {
    MulMono(x, B - 1, y);
    MulMono(0, x, y);
  }

  lemma WordProduct(x: int, y: int)
    requires 0 <= x < W32 && 0 <= y < W32
    ensures 0 <= x * y < W64
  {
    MulMono(x, W32 - 1, y);
    MulMono(0, x, y);
  }

  /** __lmulq: the exact 64-bit product of two 32-bit words. */
  method Lmulq(u: int, v: int) returns (prod: int)
    requires 0 <= u < W32 && 0 <= v < W32
    ensures prod == u * v
  {
    var u1, u0, v1, v0 := HHalf(u), LHalf(u), HHalf(v), LHalf(v);
    HalfProduct(u0, v0);
    var low := u0 * v0;
    if u1 == 0 && v1 == 0 {
      return low;
    }
    var udiff, uneg := AbsDiff(u1, u0);
    var vdiff, vneg := AbsDiff(v0, v1);
    HalfProduct(udiff, vdiff);
    HalfProduct(u1, v1);
    var mid, high := udiff * vdiff, u1 * v1;
    SignedProduct(u1 - u0, v0 - v1, udiff, uneg, vdiff, vneg);
    ThreeProducts(u1, u0, v1, v0, B);
    WordProduct(u, v);
    prod := Assemble(high, mid, low, uneg != vneg, u * v);
  }

  /** The carry chain that adds up the three products. */
  method Assemble(high: int, mid: int, low: int, neg: bool, ghost exact: int) returns (prod: int)
    requires 0 <= high < W32 && 0 <= mid < W32 && 0 <= low < W32 && 0 <= exact < W64
    requires exact == high * W32 + high * B + (if neg then -mid else mid) * B + low * B + low
    ensures prod == exact
  {
    HalfUp(high);
    var prodh, prodl := (high + HHalf(high)) % W32, LHUp(high);
    WordWrap(prodh, high + HHalf(high), prodl, high * W32 + high * B);
    ghost var p0, e := prodh * W32 + prodl, high * W32 + high * B;
    if neg {
      prodh, prodl := SubHalfUp(prodh, prodl, mid);
    } else {
      prodh, prodl := AddHalfUp(prodh, prodl, mid);
    }
    Chain(prodh * W32 + prodl, p0, e, (if neg then -mid else mid) * B);
    p0, e := prodh * W32 + prodl, e + (if neg then -mid else mid) * B;
    prodh, prodl := AddHalfUp(prodh, prodl, low);
    Chain(prodh * W32 + prodl, p0, e, low * B);
    p0, e := prodh * W32 + prodl, e + low * B;
    prodh, prodl := AddLow(prodh, prodl, low);
    Chain(prodh * W32 + prodl, p0, e, low);
    prod := prodh * W32 + prodl;
    Same64Equal(prod, exact);
  }

  method AddLow(h: int, l: int, low: int) returns (h': int, l': int)
    requires 0 <= h < W32 && 0 <= l < W32 && 0 <= low < W32
    ensures 0 <= h' < W32 && 0 <= l' < W32
    ensures Same64(h' * W32 + l', h * W32 + l + low)
  {
    h', l' := h, (l + low) % W32;
    if l' < low {
      h' := (h' + 1) % W32;
    }
    WordWrap(h', h + Carry(l' < low), l', h * W32 + l + low);
  }

  lemma Chain(x: int, y: int, z: int, d: int)
    requires Same64(x, y + d) && Same64(y, z)
    ensures Same64(x, z + d)
  {
    var a, b := (x - y - d) / W64, (y - z) / W64;
    assert x - (z + d) == 0 + (a + b) * W64;
    ModUnique(0, a + b, W64);
  }

  /** __muldi3: the product modulo 2^64 of any two signed words. */
  method Multiply(a: int64, b: int64) returns (res: int64)
    ensures Same64(res, a * b)
  {
    hide Same64, ToSigned;
    var u, v, negall := Magnitude(a), Magnitude(b), (a < 0) != (b < 0);
    var u1, u0, v1, v0 := u / W32, u % W32, v / W32, v % W32;
    var prod: int;
    if u1 == 0 && v1 == 0 {
      prod := Lmulq(u0, v0);
      WordProduct(u0, v0);
      SameItself(prod);
    } else {
      prod := MultiplyWide(u1, u0, v1, v0);
    }
    SignedProduct(a, b, u, a < 0, v, b < 0);
    res := ToSigned(if negall then (-prod) % W64 else prod);
    SignChange(prod, u * v, negall, res);
  }

  lemma SameItself(x: int)
    ensures Same64(x, x)
  {
  }

  lemma SignChange(prod: int, p: int, neg: bool, res: int64)
    requires 0 <= prod < W64 && Same64(prod, p)
    requires res == ToSigned(if neg then (-prod) % W64 else prod)
    ensures Same64(res, if neg then -p else p)
  {
  }

  method MultiplyWide(u1: int, u0: int, v1: int, v0: int) returns (prod: int)
    requires 0 <= u1 < W32 && 0 <= u0 < W32 && 0 <= v1 < W32 && 0 <= v0 < W32
    ensures 0 <= prod < W64
    ensures Same64(prod, (u1 * W32 + u0) * (v1 * W32 + v0))
  {
    hide Same64;
    var low := Lmulq(u0, v0);
    WordProduct(u0, v0);
    var udiff, uneg := AbsDiff(u1, u0);
    var vdiff, vneg := AbsDiff(v0, v1);
    var mid := udiff * vdiff % W32;
    var high := u1 * v1 % W32;
    var neg := uneg != vneg;
    var prodh := (high + (if neg then (-mid) % W32 else mid) + low % W32 + low / W32) % W32;
    prod := prodh * W32 + low % W32;
    SignedProduct(u1 - u0, v0 - v1, udiff, uneg, vdiff, vneg);
    ThreeProducts(u1, u0, v1, v0, W32);
    WideSum(u1 * v1, udiff * vdiff, low, neg, prodh);
  }

  lemma WideSum(h: int, m: int, low: int, neg: bool, prodh: int)
    requires 0 <= low < W64
    requires prodh == (h % W32 + (if neg then (-(m % W32)) % W32 else m % W32) + low % W32 + low / W32) % W32
    ensures 0 <= prodh * W32 + low % W32 < W64
    ensures Same64(prodh * W32 + low % W32, h * (W32 * W32) + (h + (if neg then -m else m) + low) * W32 + low)
  {
    var sm := if neg then -m else m;
    var exact := h + sm + low % W32 + low / W32;
    SumMod(h, m, low % W32 + low / W32, neg, prodh);
    var y := h * (W32 * W32) + (h + sm + low) * W32 + low;
    WideCarry(h, sm, low, (exact - prodh) / W32, prodh, y);
  }

  lemma SumMod(h: int, m: int, rest: int, neg: bool, p: int)
    requires p == (h % W32 + (if neg then (-(m % W32)) % W32 else m % W32) + rest) % W32
    ensures 0 <= p < W32 && (h + (if neg then -m else m) + rest - p) % W32 == 0
  {
  }

  lemma WideCarry(h: int, sm: int, low: int, k: int, prodh: int, y: int)
    requires h + sm + low % W32 + low / W32 - prodh == k * W32
    requires y == h * (W32 * W32) + (h + sm + low) * W32 + low
    ensures Same64(prodh * W32 + low % W32, y)
  {
    var c := k + h + low / W32;
    assert prodh * W32 + low % W32 - y == 0 + (-c) * W64;
    ModUnique(0, -c, W64);
  }
}
