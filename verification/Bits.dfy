/** Powers of two, quotients and remainders: machine words are modelled as natural numbers, a
    right shift as a quotient, a mask of low bits as a remainder. */
module Bits {

  function Pow2(n: nat): (r: nat)
    ensures r >= 1
  {
    if n == 0 then 1 else 2 * Pow2(n - 1)
  }

  const WORD: nat := 0x1_0000_0000_0000_0000 // 2^64
  const TOP: nat := 0x8000_0000_0000_0000 // 2^63
  type Word = x: nat | x < WORD

  lemma {:induction false} Pow2Add(a: nat, b: nat)
    ensures Pow2(a + b) == Pow2(a) * Pow2(b)
  {
    if b > 0 {
      Pow2Add(a, b - 1);
      assert Pow2(a + b) == 2 * (Pow2(a) * Pow2(b - 1)) == Pow2(a) * (2 * Pow2(b - 1));
    }
  }

  lemma {:induction false} Pow2Mono(a: nat, b: nat)
    requires a <= b
    ensures Pow2(a) <= Pow2(b)
  {
    Pow2Add(a, b - a);
    MulMono(1, Pow2(b - a), Pow2(a));
  }

  /** The powers the code writes as constants. */
  lemma Pow2Values()
    ensures Pow2(9) == 0x200 && Pow2(10) == 0x400 && Pow2(11) == 0x800 && Pow2(13) == 0x2000
    ensures Pow2(23) == 0x80_0000 && Pow2(24) == 0x100_0000
    ensures Pow2(29) == 0x2000_0000 && Pow2(31) == 0x8000_0000 && Pow2(32) == 0x1_0000_0000
    ensures Pow2(39) == 0x80_0000_0000 && Pow2(40) == 0x100_0000_0000
    ensures Pow2(52) == 0x10_0000_0000_0000 && Pow2(53) == 0x20_0000_0000_0000
    ensures Pow2(63) == TOP && Pow2(64) == WORD
  {
    assert Pow2(8) == 256;
    assert Pow2(16) == 0x1_0000 by { Pow2Add(8, 8); }
    Pow2Add(16, 13);
    Pow2Add(16, 7);
    Pow2Add(16, 16);
    Pow2Add(32, 7);
    Pow2Add(32, 20);
    Pow2Add(16, 4);
    Pow2Add(32, 31);
    Pow2Add(16, 15);
  }

  lemma MulAssoc(a: int, b: int, c: int)
    ensures (a * b) * c == a * (b * c)
    ensures (a * b) * c == (a * c) * b
  {
  }

  lemma MulMono(a: int, b: int, c: int)
    requires a <= b && 0 <= c
    ensures a * c <= b * c
  {
  }

  lemma MulMonoStrict(a: int, b: int, c: int)
    requires a < b && 0 < c
    ensures a * c < b * c
  {
  }

  lemma MulCancelLess(a: int, b: int, c: int)
    requires c > 0
    ensures a * c < b * c <==> a < b
    ensures a * c <= b * c <==> a <= b
  {
    if a < b { MulMonoStrict(a, b, c); } else { MulMono(b, a, c); }
    if a > b { MulMonoStrict(b, a, c); }
  }

  lemma DivMod(n: int, d: int)
    requires d > 0
    ensures n == (n / d) * d + n % d
    ensures 0 <= n % d < d
  {
  }

  lemma NatQuotient(a: nat, n: nat)
    requires n >= 1
    ensures a / n >= 0
  {
  }

  /** Quotient and remainder are unique. */
  lemma DivUnique(n: int, d: int, q: int, r: int)
    requires d > 0 && n == q * d + r && 0 <= r < d
    ensures n / d == q && n % d == r
  {
    DivMod(n, d);
    var p := n / d;
    if p < q {
      MulMono(p + 1, q, d);
    } else if p > q {
      MulMono(q + 1, p, d);
    }
  }

  /** Dividing twice is dividing by the product. */
  lemma DivDiv(n: int, a: int, b: int)
    requires a > 0 && b > 0
    ensures a * b > 0
    ensures n / (a * b) == (n / a) / b
    ensures n % (a * b) == ((n / a) % b) * a + n % a
  {
    MulMono(1, b, a);
    var q, r := n / a, n % a;
    DivMod(n, a);
    DivMod(q, b);
    var rem := (q % b) * a + r;
    assert n == (q / b) * (a * b) + rem by {
      assert q * a == ((q / b) * b + q % b) * a == (q / b) * (a * b) + (q % b) * a;
    }
    MulMono(q % b + 1, b, a);
    assert (q % b + 1) * a == (q % b) * a + a;
    MulMono(0, q % b, a);
    DivUnique(n, a * b, q / b, rem);
  }

  /** A quotient does not change when both operands are scaled. */
  lemma DivScale(n: int, d: int, c: int)
    requires d > 0 && c > 0
    ensures d * c > 0
    ensures (n * c) / (d * c) == n / d
    ensures (n * c) % (d * c) == (n % d) * c
  {
    MulMono(1, c, d);
    DivMod(n, d);
    assert n * c == (n / d) * (d * c) + (n % d) * c;
    MulMonoStrict(n % d, d, c);
    MulMono(0, n % d, c);
    DivUnique(n * c, d * c, n / d, (n % d) * c);
  }

  /** The number of bits of a positive number. */
  function BitLen(n: nat): (len: nat)
    ensures n > 0 ==> len > 0 && Pow2(len - 1) <= n < Pow2(len)
  {
    if n == 0 then 0 else BitLen(n / 2) + 1
  }

  lemma BitLenUnique(n: nat, len: nat)
    requires len > 0 && Pow2(len - 1) <= n < Pow2(len)
    ensures BitLen(n) == len
  {
    if BitLen(n) < len {
      Pow2Mono(BitLen(n), len - 1);
    } else if BitLen(n) > len {
      Pow2Mono(len, BitLen(n) - 1);
    }
  }
}
