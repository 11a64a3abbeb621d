/** Correct rounding of an exact rational, the reference the floating-point routines are held to:
    the four modes of section 4.3 of IEEE 754-2008, and the S and T formats' precision and range. */
module Rounding {
  import opened Bits

  /** In the order of the instruction's rounding field. */
  datatype Mode = Chopped | MinusInf | Nearest | PlusInf

  /** Is a magnitude with this sign rounded away from zero by a directed mode? */
  predicate Away(mode: Mode, neg: bool) {
    (mode == PlusInf && !neg) || (mode == MinusInf && neg)
  }

  /** The magnitude n / d rounded to an integer. */
  function RoundDiv(n: nat, d: nat, mode: Mode, neg: bool): nat
    requires d > 0
  {
    var q, r := n / d, n % d;
    if r == 0 then q
    else if mode == Nearest then
      if 2 * r < d then q else if 2 * r > d then q + 1 else q + q % 2
    else if Away(mode, neg) then q + 1
    else q
  }

  /** What the modes mean: the nearest multiple with ties to even, or the multiple next to the exact
      value on the mode's side; and an exact value is kept. */
  lemma RoundDivCorrect(n: nat, d: nat, mode: Mode, neg: bool)
    requires d > 0
    ensures var m := RoundDiv(n, d, mode, neg);
            && (mode == Nearest ==> 2 * (m * d - n) <= d && 2 * (n - m * d) <= d)
            && (mode == Nearest && (2 * (m * d - n) == d || 2 * (n - m * d) == d) ==> m % 2 == 0)
            && (mode != Nearest && Away(mode, neg) ==> n <= m * d && m * d - n < d)
            && (mode != Nearest && !Away(mode, neg) ==> m * d <= n && n - m * d < d)
            && (m * d == n <==> n % d == 0)
  {
    DivMod(n, d);
    var q, r := n / d, n % d;
    assert (q + 1) * d == q * d + d;
    if RoundDiv(n, d, mode, neg) == q {
      assert q * d == n - r;
    } else {
      assert (q + 1) * d == n - r + d;
    }
  }

  /** Rounding to an even multiple of h looks at the quotient by h and at whether it is exact, no
      more: this is why a guard bit and a sticky bit suffice. */
  function RoundHalves(q: nat, exact: bool, mode: Mode, neg: bool): nat {
    if exact && q % 2 == 0 then q / 2
    else if mode == Nearest then
      if q % 2 == 0 then q / 2 else if !exact then q / 2 + 1 else q / 2 + (q / 2) % 2
    else if Away(mode, neg) then q / 2 + 1
    else q / 2
  }

  lemma RoundByHalves(n: nat, h: nat, mode: Mode, neg: bool)
    requires h > 0
    ensures RoundDiv(n, h * 2, mode, neg) == RoundHalves(n / h, n % h == 0, mode, neg)
    ensures n % (h * 2) == 0 <==> n % h == 0 && (n / h) % 2 == 0
  {
    DivDiv(n, h, 2);
    if (n / h) % 2 == 0 {
      assert ((n / h) % 2) * h == 0;
    } else {
      assert ((n / h) % 2) * h == h;
    }
  }

  lemma RoundRatio(n: nat, d: nat, n': nat, d': nat, mode: Mode, neg: bool)
    requires d > 0 && d' > 0 && n * d' == n' * d
    ensures RoundDiv(n, d, mode, neg) == RoundDiv(n', d', mode, neg)
    ensures n % d == 0 <==> n' % d' == 0
  {
    RoundScale(n, d, d', mode, neg);
    RoundScale(n', d', d, mode, neg);
    assert d * d' == d' * d;
  }

  lemma RoundScale(n: nat, d: nat, c: nat, mode: Mode, neg: bool)
    requires d > 0 && c > 0
    ensures d * c > 0
    ensures RoundDiv(n * c, d * c, mode, neg) == RoundDiv(n, d, mode, neg)
    ensures (n * c) % (d * c) == 0 <==> n % d == 0
  {
    DivScale(n, d, c);
    var r := n % d;
    MulCancelLess(2 * r, d, c);
    MulCancelLess(d, 2 * r, c);
    MulCancelLess(0, r, c);
    assert 2 * (r * c) == (2 * r) * c;
  }

  /** A word f stands for the exact fraction n / d down to 2^j: the same quotient by 2^j, and an
      exact multiple exactly when n / d is one. A sticky low bit makes this so. */
  ghost predicate Stands(f: nat, n: nat, d: nat, j: nat)
    requires d > 0
  {
    && d * Pow2(j) > 0
    && f / Pow2(j) == n / (d * Pow2(j))
    && (f % Pow2(j) == 0 <==> n % (d * Pow2(j)) == 0)
  }

  lemma StandsCoarser(f: nat, n: nat, d: nat, j: nat, k: nat)
    requires d > 0 && j <= k && Stands(f, n, d, j)
    ensures Stands(f, n, d, k)
  {
    Pow2Add(j, k - j);
    MulAssoc(d, Pow2(j), Pow2(k - j));
    Coarser(f, n, Pow2(j), d * Pow2(j), Pow2(k - j));
  }

  lemma Coarser(f: nat, n: nat, a: nat, b: nat, c: nat)
    requires a > 0 && b > 0 && c > 0
    requires f / a == n / b && (f % a == 0 <==> n % b == 0)
    ensures a * c > 0 && b * c > 0
    ensures f / (a * c) == n / (b * c) && (f % (a * c) == 0 <==> n % (b * c) == 0)
  {
    DivDiv(f, a, c);
    DivDiv(n, b, c);
    ZeroSum((f / a) % c, a, f % a);
    ZeroSum((n / b) % c, b, n % b);
  }

  lemma ZeroSum(a: nat, b: nat, r: nat)
    requires b > 0
    ensures a * b + r == 0 <==> a == 0 && r == 0
  {
    if a > 0 { MulMono(1, a, b); }
  }

  lemma StandsRounds(f: nat, n: nat, d: nat, j: nat, g: nat, mode: Mode, neg: bool)
    requires d > 0 && j < g && Stands(f, n, d, j)
    ensures d * Pow2(g) > 0
    ensures RoundDiv(f, Pow2(g), mode, neg) == RoundDiv(n, d * Pow2(g), mode, neg)
    ensures f % Pow2(g) == 0 <==> n % (d * Pow2(g)) == 0
  {
    StandsCoarser(f, n, d, j, g - 1);
    var h := Pow2(g - 1);
    assert Pow2(g) == h * 2;
    hide Pow2, RoundDiv;
    HalvesAlike(f, n, h, d * h, mode, neg);
    MulAssoc(d, h, 2);
  }

  lemma HalvesAlike(f: nat, n: nat, h: nat, u: nat, mode: Mode, neg: bool)
    requires h > 0 && u > 0 && f / h == n / u && (f % h == 0 <==> n % u == 0)
    ensures RoundDiv(f, h * 2, mode, neg) == RoundDiv(n, u * 2, mode, neg)
    ensures f % (h * 2) == 0 <==> n % (u * 2) == 0
  {
    hide RoundDiv, RoundHalves;
    RoundByHalves(f, h, mode, neg);
    RoundByHalves(n, u, mode, neg);
  }

  // Products, quotients and remainders under names, so that a proof may leave them alone.

  function Scaled(f: nat, k: nat): nat { f * Pow2(k) }

  function Quo(n: nat, d: nat): nat
    requires d > 0
  {
    NatQuotient(n, d);
    n / d
  }

  function Rem(n: nat, d: nat): nat
    requires d > 0
  {
    n % d
  }

  /** The code's shift right with the bits that fall off kept in the lowest one. */
  function Sticky(f: nat, sh: nat): nat {
    var q := Quo(f, Pow2(sh));
    if Rem(f, Pow2(sh)) != 0 && q % 2 == 0 then q + 1 else q
  }

  lemma StickyStands(f: nat, n: nat, d: nat, j: nat, sh: nat)
    requires d > 0 && j >= 1 && Stands(f, n, d, j)
    ensures d * Pow2(sh) > 0
    ensures Stands(Sticky(f, sh), n, d * Pow2(sh), j)
  {
    PositiveProduct(d, Pow2(sh));
    PositiveProduct(d * Pow2(sh), Pow2(j));
    assert d * Pow2(sh + j) == d * Pow2(sh) * Pow2(j) by {
      Pow2Add(sh, j);
      MulAssoc(d, Pow2(sh), Pow2(j));
    }
    StandsCoarser(f, n, d, j, sh + j);
    StickyQuotient(f, sh, j);
  }

  lemma StickyQuotient(f: nat, sh: nat, j: nat)
    requires j >= 1
    ensures Sticky(f, sh) / Pow2(j) == f / Pow2(sh + j)
    ensures Sticky(f, sh) % Pow2(j) == 0 <==> f % Pow2(sh + j) == 0
  {
    var s, p := Pow2(sh), Pow2(j);
    Pow2Add(sh, j);
    DivDiv(f, s, p);
    ZeroSum((f / s) % p, s, f % s);
    StickyBit(f / s, j);
  }

  /** Setting the lowest bit changes no quotient by 2^j, j >= 1, and makes the remainder nonzero. */
  lemma StickyBit(q: nat, j: nat)
    requires j >= 1
    ensures q % 2 == 0 ==> (q + 1) / Pow2(j) == q / Pow2(j) && (q + 1) % Pow2(j) == q % Pow2(j) + 1
    ensures q % 2 == 1 ==> q % Pow2(j) != 0
  {
    LowBit(q, Pow2(j - 1));
  }

  lemma LowBit(q: nat, h: nat)
    requires h > 0
    ensures q % 2 == 0 ==> (q + 1) / (2 * h) == q / (2 * h) && (q + 1) % (2 * h) == q % (2 * h) + 1
    ensures q % 2 == 1 ==> q % (2 * h) != 0
  {
    DivDiv(q, 2, h);
    DivDiv(q + 1, 2, h);
  }

  lemma StickyZero(n: nat, sh: nat)
    ensures Sticky(n, sh) == 0 <==> n == 0
  {
    DivMod(n, Pow2(sh));
  }

  /** Adding or subtracting a stickily shifted word is the sticky shift of the exact result, the
      other operand being even. */
  lemma StickyAdd(a: nat, b: nat, sh: nat)
    requires a % 2 == 0
    ensures a + Sticky(b, sh) == Sticky(Scaled(a, sh) + b, sh)
  {
    AddQuotient(a, b, Pow2(sh), Scaled(a, sh));
    hide Pow2, Quo, Rem, Scaled;
    Parity(a, Quo(b, Pow2(sh)));
  }

  lemma Parity(a: nat, q: nat)
    requires a % 2 == 0
    ensures (a + q) % 2 == q % 2
    ensures q < a ==> (a - q - 1) % 2 == 1 - q % 2
  {
    DivMod(a, 2);
    DivMod(q, 2);
    DivUnique(a + q, 2, a / 2 + q / 2, q % 2);
    DivUnique(a - q - 1, 2, a / 2 - q / 2 - 1, 1 - q % 2);
  }

  lemma AddQuotient(a: nat, b: nat, p: nat, ap: nat)
    requires p > 0 && ap == a * p
    ensures Quo(ap + b, p) == a + Quo(b, p) && Rem(ap + b, p) == Rem(b, p)
  {
    DivMod(b, p);
    var q := b / p;
    assert a * p + b == (a + q) * p + b % p;
    DivUnique(a * p + b, p, a + q, b % p);
  }

  lemma StickySub(a: nat, b: nat, sh: nat)
    requires a % 2 == 0 && b <= Scaled(a, sh)
    ensures Sticky(b, sh) <= a
    ensures a - Sticky(b, sh) == Sticky(Scaled(a, sh) - b, sh)
  {
    var n := Scaled(a, sh);
    SubQuotient(a, b, Pow2(sh), n);
    hide Pow2, Quo, Rem, Scaled;
    Parity(a, Quo(b, Pow2(sh)));
  }

  lemma SubQuotient(a: nat, b: nat, p: nat, ap: nat)
    requires p > 0 && ap == a * p && b <= ap
    ensures Quo(b, p) <= a
    ensures Rem(b, p) == 0 ==> Quo(ap - b, p) == a - Quo(b, p) && Rem(ap - b, p) == 0
    ensures Rem(b, p) != 0 ==> Quo(b, p) < a && Quo(ap - b, p) == a - Quo(b, p) - 1 && Rem(ap - b, p) != 0
  {
    DivMod(b, p);
    var q, r := b / p, b % p;
    QuotientAtMost(b, p, a);
    if r == 0 {
      assert a * p - b == (a - q) * p;
      DivUnique(a * p - b, p, a - q, 0);
    } else {
      assert a * p - b == (a - q - 1) * p + (p - r);
      DivUnique(a * p - b, p, a - q - 1, p - r);
    }
  }

  lemma QuotientAtMost(b: nat, p: nat, a: nat)
    requires p > 0 && b <= a * p
    ensures b / p <= a
  {
    DivMod(b, p);
    if b / p > a { MulMono(a + 1, b / p, p); }
  }

  /** Doubling a word that stands for a fraction costs one place. */
  lemma StandsDouble(f: nat, n: nat, d: nat, j: nat)
    requires d > 0 && Stands(f, n, d, j)
    ensures Stands(2 * f, 2 * n, d, j + 1)
  {
    var p := Pow2(j);
    DivScale(f, p, 2);
    DivScale(n, d * p, 2);
    assert d * Pow2(j + 1) == (d * p) * 2;
  }

  /** An exact word stands for its fraction at every place. */
  lemma StandsExact(f: nat, d: nat, j: nat)
    requires d > 0
    ensures Stands(f, f * d, d, j)
  {
    PositiveProduct(d, Pow2(j));
    DivScale(f, Pow2(j), d);
    assert Pow2(j) * d == d * Pow2(j);
    MulCancelLess(0, f % Pow2(j), d);
  }

  lemma StandsNormal(f: nat, n: nat, d: nat, j: nat)
    requires d > 0 && j <= 2 && Stands(f, n, d, j) && TOP <= f < WORD
    ensures Normal(n, d)
  {
    var p := Pow2(j);
    assert p == 1 || p == 2 || p == 4;
    var t := TOP / p;
    assert t * p == TOP && t <= f / p < 2 * t;
    QuotientWithin(n, d * p, t, 2 * t);
    MulAssoc(t, p, d);
    MulAssoc(2 * t, p, d);
  }

  lemma QuotientWithin(n: nat, u: nat, lo: nat, hi: nat)
    requires u > 0 && lo <= n / u < hi
    ensures lo * u <= n < hi * u
  {
    DivMod(n, u);
    MulMono(lo, n / u, u);
    MulMono(n / u + 1, hi, u);
  }

  // ---- The formats -----------------------------------------------------------------------------

  /** A format by the guard bits below its last place in a 64-bit fraction, and the least and
      greatest biased exponents, T's bias for both (S values sit in a register in T's layout). */
  datatype Format = SFloat | TFloat {
    const guard: nat := if SFloat? then 40 else 11
    const expMin: int := if SFloat? then 1023 - 127 else 0
    const expMax: int := if SFloat? then 1023 - 127 + 255 - 1 else 2047 - 1
  }

  datatype Flags = Flags(inexact: bool, overflow: bool, underflow: bool)

  /** A rounded result. A finite number is significand * 2^(exp - 1023 - (63 - guard)). */
  datatype Value =
    | Zero(neg: bool)
    | Finite(neg: bool, exp: int, significand: nat)
    | Largest(neg: bool)
    | Infinite(neg: bool)

  datatype Outcome = Outcome(value: Value, flags: Flags)

  ghost predicate Normal(n: nat, d: nat) {
    d > 0 && TOP * d <= n < WORD * d
  }

  /** The exact value n / d * 2^e, n / d in [2^63, 2^64), in the unit 2^-(1023 + 63), rounded to the
      format: at full precision when its exponent is in range, and on the grid of the least exponent
      below it; an overflow and an underflow as the architecture delivers them (the largest finite
      number when the mode rounds toward zero, a true zero). */
  ghost function RoundNormal(neg: bool, n: nat, d: nat, e: int, mode: Mode, fmt: Format): Outcome
    requires Normal(n, d)
  {
    var hidden := Pow2(63 - fmt.guard);
    if e > fmt.expMin then
      var ulp := d * Pow2(fmt.guard);
      PositiveProduct(d, Pow2(fmt.guard));
      var m := RoundDiv(n, ulp, mode, neg);
      var (e', m') := if m == 2 * hidden then (e + 1, hidden) else (e, m);
      if e' > fmt.expMax then
        Outcome(if mode == Nearest || Away(mode, neg) then Infinite(neg) else Largest(neg), Flags(true, true, false))
      else
        Outcome(Finite(neg, e', m'), Flags(n % ulp != 0, false, false))
    else
      var ulp := d * Pow2(fmt.expMin + 1 - e + fmt.guard);
      PositiveProduct(d, Pow2(fmt.expMin + 1 - e + fmt.guard));
      var m := RoundDiv(n, ulp, mode, neg);
      if m >= hidden then Outcome(Finite(neg, fmt.expMin + 1, hidden), Flags(n % ulp != 0, false, false))
      else Outcome(Zero(false), Flags(true, false, true))
  }

  lemma PositiveProduct(a: nat, b: nat)
    requires a > 0 && b > 0
    ensures a * b > 0
  {
    MulMono(1, b, a);
  }

  /** Only the ratio n / d matters. */
  lemma RoundNormalRatio(neg: bool, n: nat, d: nat, n': nat, d': nat, e: int, mode: Mode, fmt: Format)
    requires Normal(n, d) && Normal(n', d') && n * d' == n' * d
    ensures RoundNormal(neg, n, d, e, mode, fmt) == RoundNormal(neg, n', d', e, mode, fmt)
  {
    var k := if e > fmt.expMin then fmt.guard else fmt.expMin + 1 - e + fmt.guard;
    ScaledRatio(n, d, n', d', Pow2(k), mode, neg);
  }

  lemma ScaledRatio(n: nat, d: nat, n': nat, d': nat, p: nat, mode: Mode, neg: bool)
    requires d > 0 && d' > 0 && p > 0 && n * d' == n' * d
    ensures d * p > 0 && d' * p > 0
    ensures RoundDiv(n, d * p, mode, neg) == RoundDiv(n', d' * p, mode, neg)
    ensures n % (d * p) == 0 <==> n' % (d' * p) == 0
  {
    PositiveProduct(d, p);
    PositiveProduct(d', p);
    MulAssoc(n, d', p);
    MulAssoc(n', d, p);
    RoundRatio(n, d * p, n', d' * p, mode, neg);
  }

  /** A word that stands for n / d is rounded as n / d is. */
  lemma RoundNormalStands(neg: bool, f: nat, n: nat, d: nat, j: nat, e: int, mode: Mode, fmt: Format)
    requires Normal(n, d) && TOP <= f < WORD
    requires j < fmt.guard && Stands(f, n, d, j)
    ensures RoundNormal(neg, f, 1, e, mode, fmt) == RoundNormal(neg, n, d, e, mode, fmt)
  {
    var k := if e > fmt.expMin then fmt.guard else fmt.expMin + 1 - e + fmt.guard;
    StandsRounds(f, n, d, j, k, mode, neg);
  }

  /** The reference: the exact value s (a positive multiple of the unit 2^-(1023 + 63)) rounded. */
  ghost function Round(neg: bool, s: nat, mode: Mode, fmt: Format): Outcome
    requires s > 0
  {
    var len := BitLen(s);
    var (n, d) := Normalized(s);
    RoundNormal(neg, n, d, len - 64, mode, fmt)
  }

  ghost function Normalized(s: nat): (r: (nat, nat))
    requires s > 0
    ensures Normal(r.0, r.1)
  {
    var len := BitLen(s);
    LengthNormal(s, len);
    if len >= 64 then (s, Pow2(len - 64)) else (s * Pow2(64 - len), 1)
  }

  lemma LengthNormal(s: nat, len: nat)
    requires len > 0 && Pow2(len - 1) <= s < Pow2(len)
    ensures if len >= 64 then Normal(s, Pow2(len - 64)) else Normal(s * Pow2(64 - len), 1)
  {
    hide Pow2;
    Pow2Values();
    if len >= 64 {
      Pow2Add(63, len - 64);
      Pow2Add(64, len - 64);
    } else {
      Pow2Add(len - 1, 64 - len);
      Pow2Add(len, 64 - len);
      MulMono(Pow2(len - 1), s, Pow2(64 - len));
      MulMonoStrict(s, Pow2(len), Pow2(64 - len));
    }
  }

  /** n / d * 2^e is s. */
  ghost predicate Denotes(n: nat, d: nat, e: int, s: nat) {
    if e >= 0 then n * Pow2(e) == s * d else n == s * d * Pow2(-e)
  }

  /** The reference of s is the rounding of any normalized fraction that denotes it. */
  lemma RoundDenotes(neg: bool, n: nat, d: nat, e: int, s: nat, mode: Mode, fmt: Format)
    requires Normal(n, d) && s > 0 && e >= -63 && Denotes(n, d, e, s)
    ensures Round(neg, s, mode, fmt) == RoundNormal(neg, n, d, e, mode, fmt)
  {
    DenotesLength(n, d, e, s);
    var (n', d') := Normalized(s);
    if e < 0 { MulAssoc(s, d, Pow2(-e)); }
    RoundNormalRatio(neg, n, d, n', d', e, mode, fmt);
  }

  lemma DenotesLength(n: nat, d: nat, e: int, s: nat)
    requires Normal(n, d) && s > 0 && e >= -63 && Denotes(n, d, e, s)
    ensures BitLen(s) == 64 + e
  {
    hide Pow2, Normal, BitLen;
    if e >= 0 {
      Between(n, d, s, Pow2(e));
      Pow2Add(63, e);
      Pow2Add(64, e);
      BitLenUnique(s, 64 + e);
    } else {
      MulAssoc(s, d, Pow2(-e));
      Between(n, d, s * Pow2(-e), 1);
      ShorterLength(s, -e);
    }
  }

  lemma ShorterLength(s: nat, k: nat)
    requires k <= 63 && Pow2(63) <= s * Pow2(k) < Pow2(64)
    ensures BitLen(s) == 64 - k
  {
    hide Pow2, BitLen;
    Pow2Add(63 - k, k);
    Pow2Add(64 - k, k);
    MulCancelLess(Pow2(63 - k), s, Pow2(k));
    MulCancelLess(s, Pow2(64 - k), Pow2(k));
    BitLenUnique(s, 64 - k);
  }

  lemma Between(n: nat, d: nat, s: nat, p: nat)
    requires Normal(n, d) && p > 0 && n * p == s * d
    ensures TOP * p <= s < WORD * p && Pow2(63) * p <= s < Pow2(64) * p
  {
    hide Pow2;
    Pow2Values();
    MulMono(TOP * d, n, p);
    MulMonoStrict(n, WORD * d, p);
    MulAssoc(TOP, d, p);
    MulAssoc(WORD, d, p);
    MulCancelLess(TOP * p, s, d);
    MulCancelLess(s, WORD * p, d);
  }

  lemma DenotesScaled(n: nat, d: nat, e: int, s: nat, k: nat)
    requires Denotes(n, d, e, s)
    ensures Denotes(n, d, e + k, s * Pow2(k))
  {
    if e >= 0 {
      Pow2Add(e, k);
      Regroup(n, s, d, Pow2(e), Pow2(k));
    } else if e + k >= 0 {
      Pow2Add(e + k, -e);
      Regroup(n, s, d, Pow2(-e), Pow2(e + k));
    } else {
      Pow2Add(k, -e - k);
      Regroup(n, s, d, Pow2(-e - k), Pow2(k));
    }
  }

  lemma Regroup(n: nat, s: nat, d: nat, p: nat, q: nat)
    ensures n * p == s * d ==> n * (p * q) == (s * q) * d
    ensures n == s * d * p ==> n * q == (s * (q * p)) * d
    ensures n == s * d * (q * p) ==> n == (s * q) * d * p
  {
    MulAssoc(n, p, q);
    MulAssoc(s, d, q);
    MulAssoc(s * d, p, q);
    MulAssoc(s * d, q, p);
    MulAssoc(s, d, q * p);
  }
}
