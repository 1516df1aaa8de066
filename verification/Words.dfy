/**
 Machine words and the few facts about products and remainders that their
 arithmetic rests on.
 */
module Words {

  /** One past the largest 32-bit unsigned word. */
  const W32 := 0x1_0000_0000
  /** One past the largest 64-bit unsigned word. */
  const W64 := 0x1_0000_0000_0000_0000
  /** One past the largest 64-bit signed word. */
  const INT64 := 0x8000_0000_0000_0000

  /** An exact 64-bit result as a signed word. */
  function Wrap64(x: int): int { (x + INT64) % W64 - INT64 }

  lemma MulMono(a: int, b: int, p: int)
    requires a <= b && p >= 0
    ensures a * p <= b * p
  {
    assert (b - a) * p >= 0;
  }

  lemma ModUnique(r: int, q: int, m: int)
    requires 0 <= r < m
    ensures (r + q * m) % m == r
    ensures (r + q * m) / m == q
  {
    var x := r + q * m;
    DivUnique(r, q, x % m, x / m, m);
  }

  lemma DivUnique(r: int, q: int, r': int, q': int, m: int)
    requires 0 <= r < m && 0 <= r' < m
    requires r + q * m == r' + q' * m
    ensures r == r' && q == q'
  {
    if q < q' {
      MulMono(q + 1, q', m);
    } else if q' < q {
      MulMono(q' + 1, q, m);
    }
  }
}
