/**
 Parsing decimal integers (common/libc/stdlib/atoi.c), and its round trip with
 the %d field of printf.
 */
module Atoi {
  import opened Words
  import opened Printf

  predicate Blank(c: char) { c == ' ' || c == '\t' }
  predicate IsDigit(c: char) { '0' <= c <= '9' }
  function DigitValue(c: char): nat
    requires IsDigit(c)
  {
    c as int - '0' as int
  }

  /** An unsigned word reread as int. */
  function ToInt32(v: nat): int
    requires v < W32
  {
    if v < W32 / 2 then v else v - W32
  }

  function SkipBlanks(s: string): string {
    if s != [] && Blank(s[0]) then SkipBlanks(s[1..]) else s
  }

  /** acc followed by the leading digits of s. */
  function Value(s: string, acc: nat): nat {
    if s != [] && IsDigit(s[0]) then Value(s[1..], acc * 10 + DigitValue(s[0])) else acc
  }

  predicate Signed(s: string) { s != [] && (s[0] == '-' || s[0] == '+') }

  /** What atoi returns: leading blanks, an optional sign, then digits up to the first other character,
      as a number modulo 2^32 reread as int. */
  function Parsed(s: string): int {
    var r := SkipBlanks(s);
    var v := Value(if Signed(r) then r[1..] else r, 0) % W32;
    ToInt32(if r != [] && r[0] == '-' then (-v) % W32 else v)
  }

  /** strchr in the string of digits. */
  method FindDigit(c: char) returns (where: int)
    ensures where == if IsDigit(c) then DigitValue(c) else -1
  {
    var digits := "0123456789";
    where := 0;
    while where < |digits| && digits[where] != c
      invariant 0 <= where <= |digits| && (IsDigit(c) ==> where <= DigitValue(c))
    {
      where := where + 1;
    }
    if where == |digits| {
      where := -1;
    }
  }

  /** The first loop: past the blanks. */
  method PassBlanks(s: string) returns (i: nat)
    ensures i <= |s| && SkipBlanks(s) == s[i..]
  {
    i := 0;
    while i < |s| && Blank(s[i])
      invariant 0 <= i <= |s| && SkipBlanks(s) == SkipBlanks(s[i..])
    {
      assert s[i..][1..] == s[i + 1..];
      i := i + 1;
    }
  }

  /** The second loop: the digits from position i on, modulo 2^32. */
  method ReadDigits(s: string, start: nat) returns (val: nat)
    requires start <= |s|
    ensures val == Value(s[start..], 0) % W32
  {
    var i := start;
    val := 0;
    ghost var exact: nat := 0;
    while i < |s|
      invariant start <= i <= |s| && val == exact % W32 && Value(s[start..], 0) == Value(s[i..], exact)
    {
      var digit := FindDigit(s[i]);
      if digit == -1 {
        break;
      }
      assert s[i..][1..] == s[i + 1..];
      ShiftIn(exact, digit);
      val := (val * 10 + digit) % W32;
      exact := exact * 10 + digit;
      i := i + 1;
    }
    assert Value(s[i..], exact) == exact;
  }

  /** atoi. */
  method Atoi(s: string) returns (r: int)
    ensures r == Parsed(s)
  {
    hide Value, SkipBlanks;
    var i := PassBlanks(s);
    var neg := false;
    ghost var text := s[i..];
    if i < |s| && s[i] == '-' {
      neg := true;
      i := i + 1;
      assert text[1..] == s[i..];
    } else if i < |s| && s[i] == '+' {
      i := i + 1;
      assert text[1..] == s[i..];
    }
    var val := ReadDigits(s, i);
    if neg {
      return ToInt32((-val) % W32);
    }
    return ToInt32(val);
  }

  lemma ShiftIn(x: nat, d: nat)
    ensures (x % W32 * 10 + d) % W32 == (x * 10 + d) % W32
  {
    var q := x / W32;
    assert x * 10 + d == (x % W32 * 10 + d) + q * 10 * W32;
    AddMultiple(x % W32 * 10 + d, q * 10);
  }

  lemma AddMultiple(a: int, k: int)
    ensures (a + k * W32) % W32 == a % W32
  {
  }

  // ---------------------------------------------------------------- round trip

  predicate AllDigits(s: string) { forall i :: 0 <= i < |s| ==> IsDigit(s[i]) }

  lemma {:induction false} ValueAppend(a: string, b: string, acc: nat)
    requires AllDigits(a)
    ensures Value(a + b, acc) == Value(b, Value(a, acc))
  {
    if a == [] {
      assert a + b == b;
    } else {
      assert (a + b)[1..] == a[1..] + b;
      ValueAppend(a[1..], b, acc * 10 + DigitValue(a[0]));
    }
  }

  lemma {:induction false} ValueNumeral(n: nat)
    ensures AllDigits(Numeral(n, 10)) && |Numeral(n, 10)| >= 1 && Value(Numeral(n, 10), 0) == n
  {
    if n < 10 {
      assert Numeral(n, 10)[1..] == [];
    } else {
      ValueNumeral(n / 10);
      var d := [DIGITS[n % 10]];
      ValueAppend(Numeral(n / 10, 10), d, 0);
      assert d[1..] == [];
    }
  }

  /** Zeros in front change nothing; zeros behind multiply by ten each. */
  lemma {:induction false} ValueZeros(k: nat, acc: nat)
    ensures AllDigits(Repeat('0', k)) && Value(Repeat('0', k), acc) == acc * Power(10, k)
  {
    if k > 0 {
      assert Repeat('0', k)[1..] == Repeat('0', k - 1);
      ValueZeros(k - 1, acc * 10);
      assert acc * 10 * Power(10, k - 1) == acc * (10 * Power(10, k - 1));
    }
  }

  lemma ValueBlanks(k: nat, acc: nat)
    ensures Value(Repeat(' ', k), acc) == acc
  {
  }

  lemma {:induction false} SkipSpaces(k: nat, s: string)
    requires s != [] && !Blank(s[0])
    ensures SkipBlanks(Repeat(' ', k) + s) == s
  {
    if k == 0 {
      assert Repeat(' ', 0) + s == s;
    } else {
      assert (Repeat(' ', k) + s)[1..] == Repeat(' ', k - 1) + s;
      SkipSpaces(k - 1, s);
    }
  }

  /** The digits after the sign, padding included. */
  function Body(n: int, pad: nat, left: bool, fill: char): string {
    var num := Numeral(if n < 0 then -n else n, 10);
    if left then num + Repeat(fill, pad) else if fill == '0' then Repeat('0', pad) + num else num
  }

  function PadOf(n: int, width: int): nat {
    var len := (if n < 0 then 1 else 0) + |Numeral(if n < 0 then -n else n, 10)|;
    if width > len then width - len else 0
  }

  function SignOf(n: int): string { if n < 0 then "-" else "" }

  /** The body starts with a digit. */
  lemma BodyStarts(n: int, pad: nat, left: bool, fill: char)
    requires fill == ' ' || fill == '0'
    ensures Body(n, pad, left, fill) != [] && IsDigit(Body(n, pad, left, fill)[0])
  {
    var num := Numeral(if n < 0 then -n else n, 10);
    ValueNumeral(if n < 0 then -n else n);
    assert IsDigit(num[0]);
    if !left && fill == '0' && pad > 0 {
      assert (Repeat('0', pad) + num)[0] == '0';
    }
  }

  /** The text of the field is blanks, the sign, and the body. */
  lemma FieldText(n: int, width: int, left: bool, fill: char)
    requires fill == ' ' || fill == '0'
    ensures var pad := PadOf(n, width);
            Decimal(n, width, left, fill)
            == Repeat(' ', if !left && fill == ' ' then pad else 0) + (SignOf(n) + Body(n, pad, left, fill))
  {
    var pad, num := PadOf(n, width), Numeral(if n < 0 then -n else n, 10);
    if left {
      assert SignOf(n) + "" + num + Repeat(fill, pad) == Repeat(' ', 0) + (SignOf(n) + (num + Repeat(fill, pad)));
    } else if fill == '0' {
      assert SignOf(n) + "" + Repeat('0', pad) + num == Repeat(' ', 0) + (SignOf(n) + (Repeat('0', pad) + num));
    } else {
      assert Repeat(' ', pad) + SignOf(n) + "" + num == Repeat(' ', pad) + (SignOf(n) + num);
    }
  }

  lemma FieldShape(n: int, width: int, left: bool, fill: char)
    requires fill == ' ' || fill == '0'
    ensures SkipBlanks(Decimal(n, width, left, fill)) == SignOf(n) + Body(n, PadOf(n, width), left, fill)
  {
    var pad := PadOf(n, width);
    FieldText(n, width, left, fill);
    BodyStarts(n, pad, left, fill);
    SkipSpaces(if !left && fill == ' ' then pad else 0, SignOf(n) + Body(n, pad, left, fill));
  }

  /** Reading the body back: the number, times ten for each zero on the right. */
  lemma BodyValue(n: int, pad: nat, left: bool, fill: char)
    requires fill == ' ' || fill == '0'
    ensures var m := if n < 0 then -n else n;
            Value(Body(n, pad, left, fill), 0) == if left && fill == '0' then m * Power(10, pad) else m
  {
    var m := if n < 0 then -n else n;
    ValueNumeral(m);
    var num := Numeral(m, 10);
    if left {
      ValueAppend(num, Repeat(fill, pad), 0);
      if fill == '0' { ValueZeros(pad, m); } else { ValueBlanks(pad, m); }
    } else if fill == '0' {
      ValueZeros(pad, 0);
      ValueAppend(Repeat('0', pad), num, 0);
    }
  }

  /** atoi reads the text of a %d field as the number times ten for each zero padded on the right. */
  lemma ReadBack(n: int, width: int, left: bool, fill: char)
    requires fill == ' ' || fill == '0'
    ensures var m := if n < 0 then -n else n;
            var v := (if left && fill == '0' then m * Power(10, PadOf(n, width)) else m) % W32;
            Parsed(Decimal(n, width, left, fill)) == ToInt32(if n < 0 then (-v) % W32 else v)
  {
    var body := Body(n, PadOf(n, width), left, fill);
    FieldShape(n, width, left, fill);
    BodyValue(n, PadOf(n, width), left, fill);
    BodyStarts(n, PadOf(n, width), left, fill);
    if n < 0 {
      assert ("-" + body)[1..] == body;
    } else {
      assert "" + body == body;
    }
  }

  /** An odd factor does not help to reach a multiple of a power of two. */
  lemma {:induction false} OddFactor(x: int, m: int, j: nat)
    requires m % 2 == 1 && (x * m) % Power(2, j) == 0
    ensures x % Power(2, j) == 0
    decreases j
  {
    if j > 0 {
      var p := Power(2, j - 1);
      HalveProduct(x, m, p);
      OddFactor(x / 2, m, j - 1);
      DoubleMultiple(x, p);
    }
  }

  lemma HalveProduct(x: int, m: int, p: nat)
    requires p > 0 && m % 2 == 1 && (x * m) % (2 * p) == 0
    ensures x % 2 == 0 && (x / 2 * m) % p == 0
  {
    var q := x * m / (2 * p);
    assert x * m == 2 * (p * q);
    EvenFactor(x, m);
    var y := x / 2;
    assert 2 * (y * m) == x * m;
    Multiple(q, p);
  }

  lemma DoubleMultiple(x: int, p: nat)
    requires p > 0 && x % 2 == 0 && (x / 2) % p == 0
    ensures x % (2 * p) == 0
  {
    var z := x / 2 / p;
    assert x == 2 * p * z;
    Multiple(z, 2 * p);
  }

  lemma EvenFactor(x: int, m: int)
    requires m % 2 == 1
    ensures (x * m) % 2 == x % 2
  {
    var b := m / 2;
    assert x * m == x + 2 * (x * b);
  }

  lemma Multiple(q: int, p: int)
    requires p > 0
    ensures (p * q) % p == 0
  {
    ModUnique(0, q, p);
    assert 0 + q * p == p * q;
  }

  lemma TwoToThe32()
    ensures Power(2, 32) == W32
  {
    assert Power(2, 8) == 256;
    assert Power(2, 16) == 65536;
    assert Power(2, 24) == 16777216;
  }

  /** A 32-bit number is still itself after zeros on its right only if it is zero. */
  lemma ZerosOnTheRight(m: nat, k: nat)
    requires m <= W32 / 2 && k > 0
    ensures (m * Power(10, k)) % W32 == m <==> m == 0
  {
    hide Power;
    var p := Power(10, k);
    TenDivides(k);
    if (m * p) % W32 == m {
      SameResidue(m, p, m * p / W32);
      TwoToThe32();
      OddFactor(m, p - 1, 32);
    }
  }

  lemma TenDivides(k: nat)
    requires k > 0
    ensures Power(10, k) % 2 == 0
  {
    assert Power(10, k) == 10 * Power(10, k - 1);
  }

  lemma SameResidue(m: nat, p: nat, q: nat)
    requires m * p == W32 * q + m
    ensures (m * (p - 1)) % W32 == 0
  {
    assert m * (p - 1) == W32 * q;
    Multiple(q, W32);
  }

  /** atoi of a %d field is the number printed, for every int, width and padding, exactly unless zeros were
      padded on the right of a number other than zero. */
  lemma RoundTrip(n: int, width: int, left: bool, fill: char)
    requires -W32 / 2 <= n < W32 / 2 && (fill == ' ' || fill == '0')
    ensures Parsed(Decimal(n, width, left, fill)) == n <==> !(left && fill == '0' && PadOf(n, width) > 0 && n != 0)
  {
    hide Parsed, Decimal, PadOf, ToInt32;
    ReadBack(n, width, left, fill);
    ReadWord(n, PadOf(n, width), left && fill == '0');
  }

  lemma ReadWord(n: int, k: nat, zeros: bool)
    requires -W32 / 2 <= n < W32 / 2
    ensures var m := if n < 0 then -n else n;
            var v := (if zeros then m * Power(10, k) else m) % W32;
            ToInt32(if n < 0 then (-v) % W32 else v) == n <==> !(zeros && k > 0 && n != 0)
  {
    var m := if n < 0 then -n else n;
    var x := if zeros then m * Power(10, k) else m;
    SameWord(n, x % W32);
    if zeros && k > 0 {
      ZerosOnTheRight(m, k);
    } else {
      assert x == m;
    }
  }

  lemma SameWord(n: int, v: nat)
    requires -W32 / 2 <= n < W32 / 2 && v < W32
    ensures ToInt32(if n < 0 then (-(v as int)) % W32 else v) == n <==> v == if n < 0 then -n else n
  {
  }

  /** "12" left-aligned and zero-filled to width 4 reads back as 1200. */
  lemma ZeroFillOnTheRight()
    ensures Parsed(Decimal(12, 4, true, '0')) == 1200
  {
    ReadBack(12, 4, true, '0');
    assert Numeral(12, 10) == "12" by { assert Numeral(1, 10) == "1"; }
    assert Power(10, 2) == 100;
  }
}
