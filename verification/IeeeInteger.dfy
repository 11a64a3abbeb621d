/** ieee_cvtif (src/cpu/AlphaCPU_ieeefloat.cpp): a quadword to a floating number, and its round trip
    through ieee_cvtfi_n. */
module IeeeInteger {
  import opened Bits
  import opened Rounding
  import opened Ieee
  import opened IeeeAdd
  import opened IeeeConvert

  /** A quadword's sign and magnitude. */
  predicate Negative(val: Word) { val >= TOP }

  function AbsOf(val: Word): (m: nat)
    ensures m <= TOP && (m == 0 <==> val == 0)
  {
    if Negative(val) then WORD - val else val
  }

  /** Its value in the unit 2^-(1023 + 63). */
  ghost function Units(val: Word): (s: nat)
    ensures s > 0 <==> val != 0
  {
    if val == 0 then 0 else PositiveProduct(AbsOf(val), Pow2(ONE_EXP)); AbsOf(val) * Pow2(ONE_EXP)
  }

  /** For every quadword, mode and format: the integer correctly rounded; zero is +0, exactly. */
  method FromInteger(val: Word, mode: Mode, fmt: Format) returns (res: Word, flags: Flags)
    ensures val == 0 ==> res == 0 && flags == Flags(false, false, false)
    ensures val != 0 ==> Delivers(res, flags, Round(Negative(val), Units(val), mode, fmt), fmt)
  {
    hide Round, RoundNormal, Delivers, Pow2;
    if val == 0 {
      return 0, Flags(false, false, false);
    }
    var n := Norm(Ufp(Negative(val), 63 + 1023, AbsOf(val)));
    Regrouped(AbsOf(val), 1086 - n.exp, n.exp);
    RoundDenotes(n.sign, n.frac, 1, n.exp, Units(val), mode, fmt);
    res, flags := RoundAndPack(n, mode, fmt);
  }

  lemma Regrouped(m: nat, a: nat, b: nat)
    ensures (m * Pow2(a)) * Pow2(b) == m * Pow2(a + b)
  {
    Pow2Add(a, b);
    MulAssoc(m, Pow2(a), Pow2(b));
  }

  // ---- There and back --------------------------------------------------------------------------

  /** The integer's fraction with its leading one at bit 63, and the exponent that goes with it. */
  ghost function Fraction(val: Word): (f: nat)
    requires val != 0
    ensures TOP <= f < WORD
  {
    var len := BitLen(AbsOf(val));
    LenAtMost(AbsOf(val));
    Pow2Values();
    Pow2Add(len - 1, 64 - len);
    Pow2Add(len, 64 - len);
    MulMono(Pow2(len - 1), AbsOf(val), Pow2(64 - len));
    MulMonoStrict(AbsOf(val), Pow2(len), Pow2(64 - len));
    AbsOf(val) * Pow2(64 - len)
  }

  lemma LenAtMost(m: nat)
    requires 0 < m <= TOP
    ensures 0 < BitLen(m) <= 64
  {
    Pow2Values();
    if BitLen(m) > 64 { Pow2Mono(64, BitLen(m) - 1); }
  }

  ghost function Exponent(val: Word): int { 1022 + BitLen(AbsOf(val)) }

  /** A conversion to T is inexact exactly when the integer has more than 53 significant bits. */
  lemma ExactWhen(val: Word, mode: Mode)
    requires val != 0
    ensures var o := Round(Negative(val), Units(val), mode, TFloat);
            && (o.flags.inexact <==> Fraction(val) % 0x800 != 0)
            && (!o.flags.inexact ==> o.value == Finite(Negative(val), Exponent(val), Fraction(val) / 0x800))
  {
    hide RoundNormal, Round;
    var f, e, len := Fraction(val), Exponent(val), BitLen(AbsOf(val));
    LenAtMost(AbsOf(val));
    Regrouped(AbsOf(val), 64 - len, e);
    RoundDenotes(Negative(val), f, 1, e, Units(val), mode, TFloat);
    AtFullPrecision(Negative(val), f, e, mode);
  }

  lemma AtFullPrecision(neg: bool, f: nat, e: int, mode: Mode)
    requires TOP <= f < WORD && 0 < e <= 1086
    ensures var o := RoundNormal(neg, f, 1, e, mode, TFloat);
            && (o.flags.inexact <==> f % 0x800 != 0)
            && (!o.flags.inexact ==> o.value == Finite(neg, e, f / 0x800))
  {
    hide RoundDiv, Pow2, Away;
    Pow2Values();
    if f % 0x800 == 0 { ExactQuotient(f, 0x800, mode, neg); }
  }

  lemma ExactQuotient(n: nat, d: nat, mode: Mode, neg: bool)
    requires d > 0 && n % d == 0
    ensures RoundDiv(n, d, mode, neg) == n / d
  {
  }

  lemma Fields(neg: bool, e: int, q: nat)
    requires 0 < e < 2047 && FRAC <= q < 2 * FRAC
    ensures var res := Encode(Finite(neg, e, q), TFloat);
            SignOf(res) == neg && ExpOf(res) == e && FracOf(res) == q - FRAC
  {
    var low := e * FRAC + (q - FRAC);
    DivUnique(low, FRAC, e, q - FRAC);
    if neg {
      DivUnique(TOP + low, FRAC, 2048 + e, q - FRAC);
    }
  }

  /** An exact conversion denotes the integer. */
  lemma Denoted(val: Word, mode: Mode, res: Word, flags: Flags, flush: bool)
    requires val != 0 && Delivers(res, flags, Round(Negative(val), Units(val), mode, TFloat), TFloat) && !flags.inexact
    ensures IsNumber(res, flush) && SignOf(res) == Negative(val) && Magnitude(res, flush) == Units(val)
  {
    hide Round, Encode, SignOf, ExpOf, FracOf, Pow2;
    ExactWhen(val, mode);
    var q, e := Fraction(val) / 0x800, Exponent(val);
    LenAtMost(AbsOf(val));
    assert FRAC <= q < 2 * FRAC;
    Fields(Negative(val), e, q);
    assert q * 0x800 == Fraction(val);
    Regrouped(AbsOf(val), 64 - BitLen(AbsOf(val)), e);
  }

  lemma WholeUnits(m: nat, p: nat, mode: Mode, neg: bool)
    requires p > 0
    ensures (m * p) % p == 0 && RoundDiv(m * p, p, mode, neg) == m
  {
    DivUnique(m * p, p, m, 0);
    ExactQuotient(m * p, p, mode, neg);
  }

  /** The round trip: an integer that converted to T exactly converts back to itself in every mode,
      with no overflow and nothing inexact. */
  lemma RoundTrip(val: Word, mode: Mode, res: Word, flags: Flags, back: Mode, flush: bool)
    requires val != 0 && Delivers(res, flags, Round(Negative(val), Units(val), mode, TFloat), TFloat) && !flags.inexact
    ensures IsNumber(res, flush)
    ensures LowWord(SignOf(res), IntegerOf(res, back, flush)) == val
    ensures !OutOfRange(SignOf(res), IntegerOf(res, back, flush), false)
    ensures Magnitude(res, flush) % Pow2(ONE_EXP) == 0
  {
    hide Delivers, Round, RoundDiv, Pow2, Magnitude, KindOf, AbsOf, LowWord, OutOfRange, SignOf, Negative;
    Denoted(val, mode, res, flags, flush);
    WholeUnits(AbsOf(val), Pow2(ONE_EXP), back, SignOf(res));
    SignAndMagnitude(val);
  }

  lemma SignAndMagnitude(val: Word)
    ensures LowWord(Negative(val), AbsOf(val)) == val && !OutOfRange(Negative(val), AbsOf(val), false)
  {
  }

  /** Every integer of at most 53 bits does. */
  lemma SmallExact(val: Word, mode: Mode)
    requires val != 0 && AbsOf(val) <= 0x20_0000_0000_0000
    ensures !Round(Negative(val), Units(val), mode, TFloat).flags.inexact
  {
    hide Round, Fraction;
    ExactWhen(val, mode);
    TrailingZeros(val);
  }

  lemma Factor(m: nat, p: nat, q: nat, c: nat)
    requires c > 0 && p == c * q
    ensures (m * p) % c == 0
  {
    MulAssoc(m, q, c);
    assert m * p == (m * q) * c;
    DivUnique(m * p, c, m * q, 0);
  }

  lemma TrailingZeros(val: Word)
    requires val != 0 && AbsOf(val) <= 0x20_0000_0000_0000
    ensures Fraction(val) % 0x800 == 0
  {
    var m, len := AbsOf(val), BitLen(AbsOf(val));
    hide Pow2;
    Pow2Values();
    LenAtMost(m);
    if len > 53 { PowerLength(m, len); }
    ZerosBelow(m, len);
  }

  lemma ZerosBelow(m: nat, len: nat)
    requires len <= 64 && (len <= 53 || m == Pow2(53))
    ensures (m * Pow2(64 - len)) % Pow2(11) == 0
  {
    hide Pow2;
    var p := Pow2(64 - len);
    if len <= 53 {
      Pow2Add(11, 53 - len);
      Factor(m, p, Pow2(53 - len), Pow2(11));
    } else {
      Pow2Add(11, 42);
      Factor(p, m, Pow2(42), Pow2(11));
      assert m * p == p * m;
    }
  }

  lemma PowerLength(m: nat, len: nat)
    requires 0 < m <= Pow2(53) && len == BitLen(m) && len > 53
    ensures m == Pow2(53) && len == 54
  {
    Pow2Mono(53, len - 1);
    if len > 54 { Pow2Mono(54, len - 1); }
  }
}
