/**
 Printing integers (common/libc/printf/__printf.c): conversion into a fixed
 buffer from right to left, and padding to the field width.
 */
module Printf {
  import opened Words

  /** Bits of a long long divided by 3, plus 2. */
  const NUMBER_BUF_SIZE := 64 / 3 + 2

  const DIGITS := "0123456789abcdef"

  predicate IsBase(b: int) { b == 8 || b == 10 || b == 16 }

  /** The number in the given base, most significant digit first; 0 is one digit. */
  function Numeral(n: nat, base: nat): string
    requires 2 <= base <= 16
    decreases n
  {
    if n < base then [DIGITS[n]] else Numeral(n / base, base) + [DIGITS[n % base]]
  }

  function Repeat(c: char, n: nat): string { seq(n, _ => c) }

  /** The text padded to the width: spaces come before the prefixes, zeros after them. */
  function Padded(prefix: string, prefix2: string, stuff: string, width: int, left: bool, fill: char): string {
    var len := |prefix| + |prefix2| + |stuff|;
    var pad := Repeat(fill, if width > len then width - len else 0);
    if left then prefix + prefix2 + stuff + pad
    else if fill == '0' then prefix + prefix2 + pad + stuff
    else pad + prefix + prefix2 + stuff
  }

  function Power(b: nat, k: nat): (r: nat)
    ensures b >= 1 ==> r >= 1
  {
    if k == 0 then 1 else b * Power(b, k - 1)
  }

  /** A numeral with k digits denotes a number of at least base^(k-1): how long it can get. */
  lemma {:induction false} NumeralLength(n: nat, base: nat)
    requires 2 <= base <= 16
    ensures |Numeral(n, base)| >= 1
    ensures |Numeral(n, base)| > 1 ==> Power(base, |Numeral(n, base)| - 1) <= n
  {
    if n >= base {
      var q := n / base;
      QuotientBound(n, base);
      NumeralLength(q, base);
      var k := |Numeral(q, base)|;
      assert |Numeral(n, base)| == k + 1;
      if k > 1 {
        Scale(base, Power(base, k - 1), q);
      } else {
        assert Power(base, 1) == base * Power(base, 0) == base;
      }
    }
  }

  lemma QuotientBound(n: nat, base: nat)
    requires base > 0
    ensures base * (n / base) <= n && (base >= 2 && n > 0 ==> n / base < n)
  {
  }

  lemma Scale(b: nat, x: nat, y: nat)
    requires x <= y
    ensures b * x <= b * y
  {
  }

  lemma {:induction false} PowerMonotone(b: nat, j: nat, k: nat)
    requires b >= 1 && j <= k
    ensures 1 <= Power(b, j) <= Power(b, k)
    decreases k
  {
    if j < k {
      PowerMonotone(b, j, k - 1);
      assert Power(b, k) == b * Power(b, k - 1);
      Scale(Power(b, k - 1), 1, b);
    } else if j > 0 {
      PowerMonotone(b, j - 1, k - 1);
      Scale(Power(b, k - 1), 1, b);
    }
  }

  lemma {:induction false} PowerBase(b: nat, c: nat, k: nat)
    requires 1 <= b <= c
    ensures Power(b, k) <= Power(c, k)
  {
    if k > 0 {
      PowerBase(b, c, k - 1);
      Scale(b, Power(b, k - 1), Power(c, k - 1));
      Scale(Power(c, k - 1), b, c);
    }
  }

  lemma PowerOfEight()
    ensures Power(8, 21) == 0x8000_0000_0000_0000
  {
    assert Power(8, 3) == 512;
    assert Power(8, 6) == 262144;
    assert Power(8, 9) == 134217728;
    assert Power(8, 12) == 68719476736;
    assert Power(8, 15) == 35184372088832;
    assert Power(8, 18) == 18014398509481984;
  }

  /** Every 64-bit number fits the buffer together with its terminator, in each of the three bases. */
  lemma FitsBuffer(n: nat, base: nat)
    requires n < W64 && IsBase(base)
    ensures |Numeral(n, base)| + 1 <= NUMBER_BUF_SIZE
  {
    hide Numeral, Power;
    NumeralLength(n, base);
    BigPower(base);
    var k := |Numeral(n, base)|;
    if k > 22 { PowerMonotone(base, 22, k - 1); }
  }

  lemma BigPower(base: nat)
    requires IsBase(base)
    ensures Power(base, 22) >= W64
  {
    assert Power(8, 22) == 8 * Power(8, 21);
    PowerOfEight();
    PowerBase(8, base, 22);
  }

  /** The buffer is no larger than needed: the largest number in octal uses all of it. */
  lemma BufferIsTight()
    ensures |Numeral(W64 - 1, 8)| + 1 == NUMBER_BUF_SIZE
  {
    PowerOfEight();
    OctalOnes(21);
  }

  /** 2 * 8^k - 1 is written 1 followed by k sevens. */
  lemma {:induction false} OctalOnes(k: nat)
    ensures |Numeral(2 * Power(8, k) - 1, 8)| == k + 1
  {
    if k > 0 {
      var p := Power(8, k - 1);
      assert 2 * Power(8, k) - 1 == 8 * (2 * p - 1) + 7;
      OctalOnes(k - 1);
    }
  }

  // ---------------------------------------------------------------- the printf state

  class PF {
    var out: string                     // what has been sent
    var charcount: int
    var num: nat
    var sign: int
    var spacing: int
    var rightspc: bool
    var fillchar: char
    var base: int
    var baseprefix: bool

    /** __pf_print. */
    method Print(txt: string)
      modifies this`out, this`charcount
      ensures out == old(out) + txt && charcount == old(charcount) + |txt|
    {
      out := out + txt;
      charcount := charcount + |txt|;
    }

    /** __pf_fill. */
    method Fill(spc: int)
      modifies this`out, this`charcount
      ensures out == old(out) + Repeat(fillchar, if spc > 0 then spc else 0)
      ensures charcount == old(charcount) + if spc > 0 then spc else 0
    {
      var i := 0;
      while i < spc
        invariant 0 <= i && (spc >= 0 ==> i <= spc) && (spc < 0 ==> i == 0)
        invariant out == old(out) + Repeat(fillchar, i) && charcount == old(charcount) + i
      {
        Print([fillchar]);
        assert Repeat(fillchar, i) + [fillchar] == Repeat(fillchar, i + 1);
        i := i + 1;
      }
    }

    /** The padding of one of the three places, if this is the place. */
    method PadHere(here: bool, spc: nat)
      modifies this`out, this`charcount
      ensures out == old(out) + Pad(here, fillchar, spc) && charcount - |out| == old(charcount - |out|)
    {
      if spc > 0 && here {
        Fill(spc);
      }
    }

    /** __pf_printstuff. */
    method PrintStuff(prefix: string, prefix2: string, stuff: string)
      modifies this`out, this`charcount
      ensures out == old(out) + Padded(prefix, prefix2, stuff, spacing, rightspc, fillchar)
      ensures charcount - |out| == old(charcount - |out|)
    {
      hide Padded, Pad, Repeat;
      ghost var o := out;
      var len := |prefix| + |prefix2| + |stuff|;
      var spc := if spacing > len then spacing - len else 0;
      PadHere(!rightspc && fillchar != '0', spc);
      Print(prefix);
      Print(prefix2);
      PadHere(!rightspc && fillchar == '0', spc);
      Print(stuff);
      PadHere(rightspc, spc);
      Laid(o, prefix, prefix2, stuff, spacing, rightspc, fillchar);
    }

    /** The conversion loop of __pf_printnum: digits go into the buffer from right to left, and always fit. */
    method Convert() returns (s: string)
      requires IsBase(base) && num < W64
      ensures s == Numeral(num, base)
    {
      FitsBuffer(num, base);
      var buf := new char[NUMBER_BUF_SIZE];
      var x := NUMBER_BUF_SIZE - 1;
      buf[x] := '\0';
      x := x - 1;
      var xnum, more := num, true;
      ghost var done := [];
      while more
        invariant 0 <= xnum < W64 && -1 <= x && x + 1 + |done| == NUMBER_BUF_SIZE - 1
        invariant Numeral(num, base) == (if more then Numeral(xnum, base) else []) + done
        invariant buf[x + 1..NUMBER_BUF_SIZE - 1] == done
        decreases more, xnum
      {
        x, xnum, done := StoreDigit(buf, x, xnum, base, done);
        more := xnum > 0;
      }
      x := x + 1;
      s := buf[x..NUMBER_BUF_SIZE - 1];
    }

    /** __pf_printnum. */
    method PrintNum()
      requires IsBase(base) && num < W64
      modifies this`out, this`charcount
      ensures out == old(out) + Padded(if sign != 0 then "-" else "", BasePrefix(base, baseprefix),
                                       Numeral(num, base), spacing, rightspc, fillchar)
      ensures charcount - |out| == old(charcount - |out|)
    {
      var x := Convert();
      var bprefix := if baseprefix && base == 16 then "0x" else if baseprefix && base == 8 then "0" else "";
      var sprefix := if sign != 0 then "-" else "";
      PrintStuff(sprefix, bprefix, x);
    }

    /** __pf_getnum for %d, %ld and %lld: the negation wraps for the least number, and its word is the magnitude. */
    method GetSigned(signednum: int)
      requires -INT64 <= signednum < INT64
      modifies this`num, this`sign
      ensures 0 <= num <= INT64 && signednum == (if signednum < 0 then 0 - num else num)
      ensures old(sign) == 0 ==> signednum == if sign != 0 then 0 - num else num
      ensures sign == if signednum < 0 then -1 else old(sign)
    {
      if signednum < 0 {
        sign := -1;
        num := Wrap64(-signednum) % W64;
      } else {
        num := signednum;
      }
    }

    /** A %d field: __pf_getnum, __pf_setbase and __pf_printnum, in a state reset by __pf_endfield. */
    method PrintDecimal(n: int)
      requires -INT64 <= n < INT64 && sign == 0 && !baseprefix
      modifies this
      ensures out == old(out) + Decimal(n, old(spacing), old(rightspc), old(fillchar))
      ensures charcount - |out| == old(charcount - |out|)
    {
      hide Numeral, Padded;
      GetSigned(n);
      base := 10;
      PrintNum();
    }
  }

  /** One turn of the loop: the last digit goes into the next free place on the left. */
  method StoreDigit(buf: array<char>, x: int, xnum: nat, base: int, ghost done: string)
    returns (x': int, rest: nat, ghost done': string)
    requires IsBase(base) && buf.Length == NUMBER_BUF_SIZE && x < NUMBER_BUF_SIZE - 1
    requires -1 <= x && x + 1 + |done| == NUMBER_BUF_SIZE - 1 && buf[x + 1..NUMBER_BUF_SIZE - 1] == done
    requires |Numeral(xnum, base) + done| < NUMBER_BUF_SIZE
    modifies buf
    ensures -1 <= x' && x' == x - 1 && rest == xnum / base && (xnum > 0 ==> rest < xnum)
    ensures |done'| == |done| + 1 && buf[x' + 1..NUMBER_BUF_SIZE - 1] == done'
    ensures Numeral(xnum, base) + done == (if rest > 0 then Numeral(rest, base) else []) + done'
  {
    hide Numeral;
    DigitMoves(xnum, base, done);
    var d := DIGITS[xnum % base];
    buf[x] := d;
    done' := [d] + done;
    x', rest := x - 1, xnum / base;
  }

  lemma DigitMoves(n: nat, base: nat, done: string)
    requires 2 <= base <= 16
    ensures 0 <= n % base < base && |Numeral(n, base)| >= 1 && (n > 0 ==> n / base < n)
    ensures Numeral(n, base) + done
            == (if n / base > 0 then Numeral(n / base, base) else []) + ([DIGITS[n % base]] + done)
  {
    hide Numeral, Power;
    NumeralLength(n, base);
    NumeralSplit(n, base);
    Regroup(if n / base > 0 then Numeral(n / base, base) else [], [DIGITS[n % base]], done);
  }

  lemma Regroup(a: string, b: string, c: string)
    ensures a + b + c == a + (b + c)
  {
  }

  function Pad(here: bool, fill: char, spc: nat): string { if here then Repeat(fill, spc) else [] }

  /** Text laid out piece by piece, padding in one of three places, is the padded text. */
  lemma Laid(o: string, p: string, p2: string, stuff: string, width: int, left: bool, fill: char)
    ensures var len := |p| + |p2| + |stuff|;
            var spc := if width > len then width - len else 0;
            o + Pad(!left && fill != '0', fill, spc) + p + p2 + Pad(!left && fill == '0', fill, spc) + stuff
              + Pad(left, fill, spc)
            == o + Padded(p, p2, stuff, width, left, fill)
  {
    hide Repeat;
    var len := |p| + |p2| + |stuff|;
    var pad := Repeat(fill, if width > len then width - len else 0);
    if left {
      LaidRight(o, p, p2, stuff, pad);
    } else if fill == '0' {
      LaidInside(o, p, p2, stuff, pad);
    } else {
      LaidLeft(o, p, p2, stuff, pad);
    }
  }

  lemma LaidLeft(o: string, p: string, p2: string, stuff: string, pad: string)
    ensures o + pad + p + p2 + [] + stuff + [] == o + (pad + p + p2 + stuff)
  {
  }

  lemma LaidInside(o: string, p: string, p2: string, stuff: string, pad: string)
    ensures o + [] + p + p2 + pad + stuff + [] == o + (p + p2 + pad + stuff)
  {
  }

  lemma LaidRight(o: string, p: string, p2: string, stuff: string, pad: string)
    ensures o + [] + p + p2 + [] + stuff + pad == o + (p + p2 + stuff + pad)
  {
  }

  function BasePrefix(base: int, wanted: bool): string {
    if wanted && base == 16 then "0x" else if wanted && base == 8 then "0" else ""
  }

  /** The text of a %d field. */
  function Decimal(n: int, width: int, left: bool, fill: char): string {
    Padded(if n < 0 then "-" else "", "", Numeral(if n < 0 then -n else n, 10), width, left, fill)
  }

  /** The last digit, and the numeral of what remains. */
  lemma NumeralSplit(n: nat, base: nat)
    requires 2 <= base <= 16
    ensures Numeral(n, base) == (if n / base > 0 then Numeral(n / base, base) else []) + [DIGITS[n % base]]
    ensures n > 0 ==> n / base < n
  {
    QuotientBound(n, base);
    if n < base { SmallQuotient(n, base); } else { LargeQuotient(n, base); }
  }

  lemma SmallQuotient(n: nat, base: nat)
    requires n < base
    ensures n / base == 0 && n % base == n
  {
  }

  lemma LargeQuotient(n: nat, base: nat)
    requires 0 < base <= n
    ensures n / base > 0
  {
  }
}
