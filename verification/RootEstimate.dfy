/** The paired reciprocal square root estimate (src/cpu/AlphaCPU_paired.cpp: paired_est's root
    branch): an integer square root corrected from whatever the host's sqrt gave. */
module RootEstimate {
  import opened Bits

  const S_BIAS: nat := 127
  const T_BIAS: nat := 1023
  const HIDDEN: nat := 0x80_0000 // 2^23, a single's hidden bit

  /** What the host's square root may answer: anything the correction can start from. */
  type Guess = g: nat | g < 0x1_0000_0000

  /** q is the square root of 2^g / m, chopped. */
  ghost predicate Brackets(m: nat, q: nat, g: nat) { q * q * m <= Pow2(g) < (q + 1) * (q + 1) * m }

  /** q * 2^F is 1/sqrt(m * 2^E) chopped to 14 fraction bits, with G = -(2F + E). */
  ghost predicate Chopped(m: nat, e: int, q: nat, g: nat) {
    && 0x4000 <= q < 0x8000
    && (g + e) % 2 == 0
    && Brackets(m, q, g)
  }

  /** There is one such estimate. */
  lemma ChoppedUnique(m: nat, e: int, q: nat, g: nat, r: nat, h: nat)
    requires m > 0 && Chopped(m, e, q, g) && Chopped(m, e, r, h)
    ensures q == r && g == h
  {
    ScaleNotLess(m, e, q, g, r, h);
    ScaleNotLess(m, e, r, h, q, g);
    SquaresOrder(m, q, r, Pow2(g));
    SquaresOrder(m, r, q, Pow2(g));
  }

  lemma SquaresOrder(m: nat, q: nat, r: nat, n: nat)
    requires q * q * m <= n < (r + 1) * (r + 1) * m
    ensures q <= r
  {
    if r + 1 <= q {
      MulMono(r + 1, q, r + 1);
      MulMono(r + 1, q, q);
      MulMono((r + 1) * (r + 1), q * q, m);
      assert false;
    }
  }

  lemma ScaleNotLess(m: nat, e: int, q: nat, g: nat, r: nat, h: nat)
    requires m > 0 && Chopped(m, e, q, g) && Chopped(m, e, r, h)
    ensures h <= g
  {
    if g < h {
      assert g + 2 <= h;
      Pow2Mono(g + 2, h);
      assert Pow2(g + 2) == 4 * Pow2(g);
      MulMono(0x4000, q, 0x4000);
      MulMono(0x4000, q, q);
      MulMono(0x1000_0000, q * q, m);
      MulMono(r + 1, 0x8000, r + 1);
      MulMono(r + 1, 0x8000, 0x8000);
      MulMono((r + 1) * (r + 1), 0x4000_0000, m);
      assert false;
    }
  }

  // ---- The integer square root -----------------------------------------------------------------

  /** The two correcting loops. */
  method IntegerRoot(n: nat, guess: Guess) returns (q: nat)
    ensures q * q <= n < (q + 1) * (q + 1)
  {
    q := guess;
    while q * q > n
      invariant q >= 0
      decreases q
    {
      q := q - 1;
    }
    while (q + 1) * (q + 1) <= n
      invariant q * q <= n
      decreases n - q * q
    {
      assert (q + 1) * (q + 1) == q * q + 2 * q + 1;
      q := q + 1;
    }
  }

  /** The root of a quotient's floor is the root of the quotient, chopped. */
  lemma RootOfQuotient(p: nat, m: nat, q: nat)
    requires m > 0 && q * q <= p / m < (q + 1) * (q + 1)
    ensures q * q * m <= p < (q + 1) * (q + 1) * m
  {
    DivMod(p, m);
    MulMono(q * q, p / m, m);
    MulMono(p / m + 1, (q + 1) * (q + 1), m);
  }

  /** With the scale the parity asks for, the root is in range but for the smallest significand at 53;
      there 51 is the one. */
  lemma RootInRange(m: nat, g: nat, q: nat)
    requires HIDDEN <= m < 2 * HIDDEN && (g == 52 || g == 53 || (g == 51 && m == HIDDEN))
    requires Brackets(m, q, g)
    ensures 0x4000 <= q
    ensures q >= 0x8000 ==> g == 53 && m == HIDDEN
  {
    Pow2Values();
    assert Pow2(52) == 2 * Pow2(51);
    if q < 0x4000 {
      MulMono(q + 1, 0x4000, q + 1);
      MulMono(q + 1, 0x4000, 0x4000);
      MulMono((q + 1) * (q + 1), 0x1000_0000, m);
      assert false;
    }
    if q >= 0x8000 {
      MulMono(0x8000, q, 0x8000);
      MulMono(0x8000, q, q);
      MulMono(0x4000_0000, q * q, m);
    }
  }

  // ---- The estimate ----------------------------------------------------------------------------

  /** A single's fields. */
  function Exponent(b: nat): nat { b / HIDDEN % 256 }

  function Significand(b: nat): nat { HIDDEN + b % HIDDEN }

  predicate PositiveNormal(b: nat) { b < 0x8000_0000 && 1 <= Exponent(b) <= 254 }

  /** One round: the root at a scale. */
  method RootAt(m: nat, g: nat, guess: nat -> Guess) returns (q: nat)
    requires HIDDEN <= m < 2 * HIDDEN && (g == 52 || g == 53 || (g == 51 && m == HIDDEN))
    ensures Brackets(m, q, g) && 0x4000 <= q && (q >= 0x8000 ==> g == 53 && m == HIDDEN)
  {
    hide Pow2;
    var n := Pow2(g) / m;
    assert n >= 0 by {
      DivMod(Pow2(g), m);
      if n < 0 { MulMono(n, -1, m); }
    }
    q := IntegerRoot(n, guess(n));
    RootOfQuotient(Pow2(g), m, q);
    RootInRange(m, g, q);
  }

  /** The scale loop, from the significand and the exponent. */
  method ScaledRoot(m: nat, e: int, guess: nat -> Guess) returns (q: nat, g: nat, rounds: nat)
    requires HIDDEN <= m < 2 * HIDDEN
    ensures Chopped(m, e, q, g) && rounds <= 2 && 51 <= g <= 53
  {
    hide Brackets;
    g := if e % 2 == 1 then 53 else 52;
    rounds := 0;
    while true
      invariant (g == 52 && rounds == 0) || (g == 53 && rounds == 0) || (g == 51 && rounds == 1 && m == HIDDEN)
      invariant (g + e) % 2 == 0
      decreases 2 - rounds
    {
      rounds := rounds + 1;
      q := RootAt(m, g, guess);
      if q < 0x8000 {
        return;
      }
      g := g - 2;
    }
  }

  /** The estimate of a positive normal single: for every guess, the single whose value q * 2^F is
      1/sqrt(x) chopped to 14 fraction bits, its exponent in range, after two rounds at most. */
  method Estimate(b: nat, guess: nat -> Guess) returns (r: nat, rounds: nat)
    requires PositiveNormal(b)
    ensures rounds <= 2
    ensures r < 0x8000_0000 && 63 <= Exponent(r) <= 190 && Significand(r) % 0x200 == 0
    ensures var e := Exponent(b) - S_BIAS - 23;
            var f := Exponent(r) - S_BIAS - 14;
            -(2 * f + e) >= 0 && Chopped(Significand(b), e, Significand(r) / 0x200, -(2 * f + e))
  {
    hide Brackets;
    var m, e := Significand(b), Exponent(b) + (T_BIAS - S_BIAS) - T_BIAS - 23;
    var q, g;
    q, g, rounds := ScaledRoot(m, e, guess);
    var f := -(g + e) / 2;
    var bexp := f + 14 + S_BIAS;
    r := bexp * HIDDEN + (q - 0x4000) * 0x200;
    Fields(bexp, (q - 0x4000) * 0x200);
    assert Significand(r) == q * 0x200;
  }

  lemma Fields(exponent: nat, fraction: nat)
    requires exponent < 256 && fraction < HIDDEN
    ensures Exponent(exponent * HIDDEN + fraction) == exponent
            && Significand(exponent * HIDDEN + fraction) == HIDDEN + fraction
  {
    DivUnique(exponent * HIDDEN + fraction, HIDDEN, exponent, fraction);
  }
}
