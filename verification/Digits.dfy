/**
 Numbers written in base 2^16, most significant digit first: the digit arrays
 of the multi-word division routine, and the value they stand for.
 */
module Digits {

  /** Digit base: half of a 32-bit word (HALF_BITS is 16). */
  const B := 0x10000

  type digit = d: int | 0 <= d < 0x10000

  /** HHALF: upper half of a 32-bit word. */
  function HHalf(x: int): int { x / B }

  /** LHALF: lower half of a 32-bit word. */
  function LHalf(x: int): digit { x % B }

  /** COMBINE: two digits as one word. */
  function Combine(a: int, b: int): int { a * B + b }

  /** B to the power k. */
  function Pow(k: nat): (r: nat)
    ensures r > 0
  {
    if k == 0 then 1 else B * Pow(k - 1)
  }

  /** The number a digit sequence denotes. */
  function Val(s: seq<digit>): int {
    if s == [] then 0 else Val(s[..|s| - 1]) * B + s[|s| - 1]
  }

  lemma {:induction false} PowAdd(a: nat, b: nat)
    ensures Pow(a + b) == Pow(a) * Pow(b)
  {
    if b > 0 {
      PowAdd(a, b - 1);
      assert Pow(a) * (B * Pow(b - 1)) == B * (Pow(a) * Pow(b - 1));
    }
  }

  /** Concatenation shifts the left part by the length of the right part. */
  lemma {:induction false} ValConcat(a: seq<digit>, b: seq<digit>)
    ensures Val(a + b) == Val(a) * Pow(|b|) + Val(b)
  {
    if b == [] {
      assert a + b == a;
    } else {
      var c, x := b[..|b| - 1], b[|b| - 1];
      assert (a + b)[..|a + b| - 1] == a + c;
      ValConcat(a, c);
      calc {
        Val(a + b);
        (Val(a) * Pow(|c|) + Val(c)) * B + x;
        { assert Val(a) * Pow(|c|) * B == Val(a) * (B * Pow(|c|)); }
        Val(a) * Pow(|b|) + Val(b);
      }
    }
  }

  lemma {:induction false} ValBound(s: seq<digit>)
    ensures 0 <= Val(s) < Pow(|s|)
  {
    if s != [] {
      ValBound(s[..|s| - 1]);
    }
  }

  lemma ValCons(x: digit, s: seq<digit>)
    ensures Val([x] + s) == x * Pow(|s|) + Val(s)
  {
    ValConcat([x], s);
    assert [x][..0] == [];
    assert Val([x]) == x;
  }

  /** A slice as its first digit followed by the rest. */
  lemma ValSlice(s: seq<digit>, lo: nat, hi: nat)
    requires lo < hi <= |s|
    ensures Val(s[lo..hi]) == s[lo] * Pow(hi - lo - 1) + Val(s[lo + 1..hi])
  {
    assert s[lo..hi] == [s[lo]] + s[lo + 1..hi];
    ValCons(s[lo], s[lo + 1..hi]);
  }

  /** A sequence cut in three: everything above, a window, everything below. */
  lemma ValSplit(s: seq<digit>, lo: nat, hi: nat)
    requires lo <= hi <= |s|
    ensures Val(s) == Val(s[..lo]) * Pow(|s| - lo) + Val(s[lo..hi]) * Pow(|s| - hi) + Val(s[hi..])
  {
    hide Val, Pow;
    ValConcat(s[..lo], s[lo..]);
    assert s == s[..lo] + s[lo..];
    ValConcat(s[lo..hi], s[hi..]);
    assert s[lo..] == s[lo..hi] + s[hi..];
  }

  lemma {:induction false} ValZeros(s: seq<digit>)
    requires forall i :: 0 <= i < |s| ==> s[i] == 0
    ensures Val(s) == 0
  {
    if s != [] {
      ValZeros(s[..|s| - 1]);
    }
  }

  /** A number below B^k has only zeros above its last k digits. */
  lemma {:induction false} HighDigitsZero(s: seq<digit>, k: nat)
    requires k <= |s|
    requires Val(s) < Pow(k)
    ensures forall i :: 0 <= i < |s| - k ==> s[i] == 0
  {
    if k < |s| {
      ValSlice(s, 0, |s|);
      assert s[0..|s|] == s && s[1..|s|] == s[1..];
      ValBound(s[1..]);
      PowAdd(k, |s| - 1 - k);
      if s[0] > 0 {
        assert s[0] * Pow(|s| - 1) >= Pow(|s| - 1) by { MulGrow(s[0], Pow(|s| - 1)); }
        assert Pow(k) * Pow(|s| - 1 - k) >= Pow(k) by { MulGrow(Pow(|s| - 1 - k), Pow(k)); }
        assert false;
      }
      HighDigitsZero(s[1..], k);
      forall i | 0 <= i < |s| - k ensures s[i] == 0 {
        if i > 0 { assert s[i] == s[1..][i - 1]; }
      }
    }
  }

  lemma MulGrow(a: int, b: int)
    requires a >= 1 && b >= 0
    ensures a * b >= b
  {
    assert (a - 1) * b >= 0;
  }
}
