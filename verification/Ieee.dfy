/** The IEEE add, subtract, normalize, round-and-pack and convert-to-integer routines
    (src/cpu/AlphaCPU_ieeefloat.cpp), against correct rounding of the exact result. */
module Ieee {
  import opened Bits
  import opened Rounding

  // ---- Registers -------------------------------------------------------------------------------

  const QNAN: nat := 0x0008_0000_0000_0000
  const CANONICAL_NAN: Word := 0xFFF8_0000_0000_0000
  const PLUS_INF: Word := 0x7FF0_0000_0000_0000
  const FRAC: nat := 0x10_0000_0000_0000 // 2^52: the fraction field's size, and the hidden bit
  const S_LOW: nat := 0x2000_0000 // 2^29: S results have these low fraction bits clear

  function SignBit(neg: bool): nat { if neg then TOP else 0 }

  predicate SignOf(op: Word) { op >= TOP }
  function ExpOf(op: Word): (e: nat) ensures e < 2048 { (op / FRAC) % 2048 }
  function FracOf(op: Word): (f: nat) ensures f < FRAC { op % FRAC }

  datatype Kind = UZero | UFinite | UDenormal | UInfinite | UNaN

  /** flush: FPCR<DNZ> set and the instruction has /S. */
  function KindOf(op: Word, flush: bool): Kind {
    if ExpOf(op) == 0 then (if FracOf(op) == 0 || flush then UZero else UDenormal)
    else if ExpOf(op) == 2047 then (if FracOf(op) == 0 then UInfinite else UNaN)
    else UFinite
  }

  /** A zero or normal operand's value in the unit 2^-(1023 + 63). */
  ghost function Magnitude(op: Word, flush: bool): nat {
    if KindOf(op, flush) == UFinite then (FRAC + FracOf(op)) * 0x800 * Pow2(ExpOf(op)) else 0
  }

  ghost function Signed(op: Word, flush: bool): int {
    if SignOf(op) then -(Magnitude(op, flush) as int) else Magnitude(op, flush)
  }

  /** A result as it sits in a register. */
  function Encode(v: Value, fmt: Format): Word
    requires v.Finite? ==> fmt.expMin < v.exp <= fmt.expMax
    requires v.Finite? ==> fmt.TFloat? ==> FRAC <= v.significand < 2 * FRAC
    requires v.Finite? ==> fmt.SFloat? ==> 0x80_0000 <= v.significand < 0x100_0000
  {
    match v
    case Zero(neg) => SignBit(neg)
    case Infinite(neg) => SignBit(neg) + PLUS_INF
    case Largest(neg) => SignBit(neg) + (if fmt.SFloat? then 0x47EF_FFFF_E000_0000 else 0x7FEF_FFFF_FFFF_FFFF)
    case Finite(neg, exp, m) =>
      SignBit(neg) + exp * FRAC + (if fmt.SFloat? then (m - 0x80_0000) * S_LOW else m - FRAC)
  }

  lemma QuotientRange(n: nat, u: nat, lo: nat, hi: nat)
    requires u > 0 && lo * u <= n < hi * u
    ensures lo <= n / u < hi
  {
    DivMod(n, u);
    if n / u < lo { MulMono(n / u + 1, lo, u); }
    if n / u >= hi { MulMono(hi, n / u, u); }
  }

  lemma EncodingExists(fmt: Format)
    ensures fmt.TFloat? ==> Pow2(63 - fmt.guard) == FRAC
    ensures fmt.SFloat? ==> Pow2(63 - fmt.guard) == 0x80_0000
  {
    Pow2Values();
  }

  ghost predicate Delivers(res: Word, flags: Flags, o: Outcome, fmt: Format) {
    && flags == o.flags
    && (o.value.Finite? ==>
          && fmt.expMin < o.value.exp <= fmt.expMax
          && Pow2(63 - fmt.guard) <= o.value.significand < 2 * Pow2(63 - fmt.guard))
    && (EncodingExists(fmt); res == Encode(o.value, fmt))
  }

  // ---- ieee_norm -------------------------------------------------------------------------------

  datatype Ufp = Ufp(sign: bool, exp: int, frac: nat)

  /** The shifts of the table, and the bound each mask tests: mask i is nonzero exactly when the
      fraction reaches 2^(64 - 2^(i + 1)). */
  const NORM_SHIFT: seq<nat> := [1, 2, 4, 8, 16, 32]
  const NORM_BOUND: seq<nat> := [0x4000_0000_0000_0000, 0x1000_0000_0000_0000, 0x100_0000_0000_0000,
                                 0x1_0000_0000_0000, 0x1_0000_0000]

  /** ieee_norm: the same value with its leading one at bit 63; zero becomes the zero with exponent 0. */
  method Norm(r: Ufp) returns (n: Ufp)
    requires r.frac < WORD
    ensures n.sign == r.sign
    ensures r.frac == 0 ==> n.frac == 0 && n.exp == 0
    ensures r.frac != 0 ==> TOP <= n.frac < WORD && r.exp - 63 <= n.exp <= r.exp
    ensures r.frac != 0 ==> n.frac == r.frac * Pow2(r.exp - n.exp)
  {
    if r.frac == 0 {
      return Ufp(r.sign, 0, 0);
    }
    var frac, exp := r.frac, r.exp;
    while frac < TOP
      invariant 0 < frac < WORD && exp <= r.exp
      invariant frac == r.frac * Pow2(r.exp - exp)
      decreases WORD - frac
    {
      var i := 0;
      while i < 5 && frac < NORM_BOUND[i]
        invariant 0 <= i <= 5
        invariant i > 0 ==> frac < NORM_BOUND[i - 1]
      {
        i := i + 1;
      }
      var s := NORM_SHIFT[i];
      ShiftFits(frac, i);
      ShiftAgain(r.frac, r.exp - exp, frac, s);
      frac, exp := frac * Pow2(s) % WORD, exp - s;
    }
    ShiftBound(r.frac, r.exp - exp, frac);
    n := Ufp(r.sign, exp, frac);
  }

  lemma ShiftFits(frac: nat, i: nat)
    requires i <= 5 && frac < TOP && (i > 0 ==> frac < NORM_BOUND[i - 1])
    ensures frac * Pow2(NORM_SHIFT[i]) < WORD
    ensures Pow2(NORM_SHIFT[i]) >= 2
  {
    Pow2Values();
    assert Pow2(8) == 0x100;
    assert Pow2(16) == 0x1_0000 by { Pow2Add(8, 8); }
    assert Pow2(4) == 16;
  }

  lemma ShiftAgain(f0: nat, k: nat, f: nat, s: nat)
    requires f > 0 && f == f0 * Pow2(k) && f * Pow2(s) < WORD && Pow2(s) >= 2
    ensures f * Pow2(s) % WORD == f0 * Pow2(k + s)
    ensures f < f0 * Pow2(k + s) < WORD
  {
    Pow2Add(k, s);
    MulAssoc(f0, Pow2(k), Pow2(s));
    MulMono(2, Pow2(s), f);
    DivUnique(f * Pow2(s), WORD, 0, f * Pow2(s));
  }

  lemma ShiftBound(f: nat, k: nat, n: nat)
    requires 0 < f && n == f * Pow2(k) && n < WORD
    ensures k <= 63
  {
    Pow2Values();
    if k >= 64 {
      Pow2Mono(64, k);
      MulMono(1, f, Pow2(k));
    }
  }

  // ---- ieee_rpack ------------------------------------------------------------------------------

  /** Adding half a unit, or a unit less one, and dropping the low bits: the rounded quotient, but
      for a tie, where the lowest bit is still to be cleared. */
  lemma RoundByAdding(f: nat, h: nat, mode: Mode, neg: bool)
    requires h > 0
    ensures var u := h * 2;
            var add := if mode == Nearest then h else if Away(mode, neg) then u - 1 else 0;
            var m := (f + add) / u;
            RoundDiv(f, u, mode, neg) == if mode == Nearest && f % u == h && m % 2 == 1 then m - 1 else m
    ensures f % (h * 2) == h && mode == Nearest ==> (f + h) / (h * 2) > 0
  {
    var u := h * 2;
    var add := if mode == Nearest then h else if Away(mode, neg) then u - 1 else 0;
    var q, r := f / u, f % u;
    DivMod(f, u);
    if r + add < u {
      DivUnique(f + add, u, q, r + add);
    } else {
      assert (q + 1) * u == q * u + u;
      DivUnique(f + add, u, q + 1, r + add - u);
    }
  }

  function Unit(fmt: Format): nat { if fmt.SFloat? then 0x100_0000_0000 else 0x800 }

  function Even(m: int, tie: bool): int { if tie && m % 2 == 1 then m - 1 else m }

  /** The register word of the code's last steps: the exponent and the fraction's upper bits, the last
      place cleared after a tie, and an S result's low bits cleared. */
  function PackWord(neg: bool, exp: int, frac: nat, tie: bool, fmt: Format): nat
    requires TOP <= frac < WORD && 0 < exp < 2047
  {
    var res := SignBit(neg) + exp * FRAC + (frac / 0x800) % FRAC;
    if fmt.SFloat? then
      var even := if tie && (res / S_LOW) % 2 == 1 then res - S_LOW else res;
      even - even % S_LOW
    else if tie && res % 2 == 1 then res - 1
    else res
  }

  lemma PackWordT(neg: bool, exp: int, frac: nat, tie: bool)
    requires TOP <= frac < WORD && 0 < exp < 2047
    ensures FRAC <= Even(frac / 0x800, tie) < 2 * FRAC
    ensures PackWord(neg, exp, frac, tie, TFloat) == Encode(Finite(neg, exp, Even(frac / 0x800, tie)), TFloat)
  {
    var up := frac / 0x800;
    assert up % FRAC == up - FRAC;
    var high := (if neg then TOP / 2 else 0) + exp * (FRAC / 2) - FRAC / 2;
    LowestBit(high, up, tie);
  }

  lemma LowestBit(high: nat, up: nat, tie: bool)
    ensures var res := 2 * high + up;
            (if tie && res % 2 == 1 then res - 1 else res) == 2 * high + Even(up, tie)
  {
  }

  lemma PackWordS(neg: bool, exp: int, frac: nat, tie: bool)
    requires TOP <= frac < WORD && SFloat.expMin < exp <= SFloat.expMax
    ensures 0x80_0000 <= Even(frac / 0x100_0000_0000, tie) < 0x100_0000
    ensures PackWord(neg, exp, frac, tie, SFloat) == Encode(Finite(neg, exp, Even(frac / 0x100_0000_0000, tie)), SFloat)
  {
    var up := frac / 0x800;
    assert up % FRAC == up - FRAC;
    var m, low := up / S_LOW, up % S_LOW;
    assert frac / 0x100_0000_0000 == m;
    var high := (if neg then 0x4_0000_0000 else 0) + exp * 0x80_0000 + m - 0x80_0000;
    assert SignBit(neg) + exp * FRAC + up % FRAC == high * S_LOW + low;
    assert high % 2 == m % 2;
    LastPlace(high, low, tie);
  }

  lemma LastPlace(high: nat, low: nat, tie: bool)
    requires high > 0 && low < S_LOW
    ensures var res := high * S_LOW + low;
            var even := if tie && (res / S_LOW) % 2 == 1 then res - S_LOW else res;
            even - even % S_LOW == Even(high, tie) * S_LOW
  {
  }

  /** The fraction as it is rounded: one below the least exponent is shifted to it, stickily. */
  function Aligned(r: Ufp, fmt: Format): nat {
    if r.exp > fmt.expMin then r.frac
    else if fmt.expMin + 1 - r.exp > 63 then 1
    else Sticky(r.frac, fmt.expMin + 1 - r.exp)
  }

  lemma AlignedRounds(r: Ufp, mode: Mode, fmt: Format)
    requires TOP <= r.frac < WORD
    ensures var k := if r.exp > fmt.expMin then fmt.guard else fmt.expMin + 1 - r.exp + fmt.guard;
            && RoundDiv(Aligned(r, fmt), Unit(fmt), mode, r.sign) == RoundDiv(r.frac, 1 * Pow2(k), mode, r.sign)
            && (Aligned(r, fmt) % Unit(fmt) == 0 <==> r.frac % (1 * Pow2(k)) == 0)
    ensures r.exp <= fmt.expMin ==> 0 < Aligned(r, fmt) < TOP
    ensures Unit(fmt) == Pow2(fmt.guard)
  {
    hide Sticky, Stands, RoundDiv;
    assert Unit(fmt) == Pow2(fmt.guard) by { Pow2Values(); }
    if r.exp <= fmt.expMin {
      var sh := fmt.expMin + 1 - r.exp;
      StickyWord(r.frac, sh);
      assert Stands(r.frac, r.frac, 1, 1) by { StandsExact(r.frac, 1, 1); }
      StickyStands(r.frac, r.frac, 1, 1, sh);
      StandsRounds(Sticky(r.frac, sh), r.frac, 1 * Pow2(sh), 1, fmt.guard, mode, r.sign);
      Pow2Add(sh, fmt.guard);
    }
  }

  lemma StickyWord(f: nat, sh: nat)
    requires TOP <= f < WORD && sh >= 1
    ensures 0 < Sticky(f, sh) < TOP
    ensures sh > 63 ==> Sticky(f, sh) == 1
  {
    var s := Pow2(sh);
    DivMod(f, s);
    Pow2Mono(1, sh);
    HalfOrLess(f, s, TOP);
    if sh > 63 {
      assert s >= WORD by { Pow2Values(); Pow2Mono(64, sh); }
      DivUnique(f, s, 0, f);
    }
  }

  lemma HalfOrLess(f: nat, s: nat, top: nat)
    requires s >= 2 && f < 2 * top
    ensures 0 <= f / s < top
  {
    MulMono(2, s, top);
    QuotientRange(f, s, 0, top);
  }

  /** The fraction after the addition and its carry: u the unit, top = hidden * u the leading bit. */
  lemma Carry(f: nat, add: nat, u: nat, hidden: nat, top: nat)
    requires u > 0 && hidden > 0 && top == hidden * u && f < 2 * top && add < u
    ensures var (m, w) := ((f + add) / u, (f + add) % (2 * top));
            && (f < top ==> m <= hidden && (w < top <==> m < hidden) && w / u == m)
            && (f >= top && w >= top ==> hidden <= m < 2 * hidden && w / u == m)
            && (f >= top && w < top ==> m == 2 * hidden && w / 2 + top < 2 * top && (w / 2 + top) / u == hidden)
  {
    var a := f + add;
    assert (hidden + 1) * u == top + u && (2 * hidden) * u == 2 * top;
    MulMono(1, hidden, u);
    if a < 2 * top {
      DivUnique(a, 2 * top, 0, a);
      if a < top { QuotientRange(a, u, 0, hidden); }
      else { QuotientRange(a, u, hidden, 2 * hidden); }
      if f < top && top <= a { QuotientRange(a, u, hidden, hidden + 1); }
    } else {
      DivUnique(a, 2 * top, 1, a - 2 * top);
      DivUnique(a, u, 2 * hidden, a - 2 * top);
      DivUnique((a - 2 * top) / 2 + top, u, hidden, (a - 2 * top) / 2);
    }
  }

  function Addend(mode: Mode, neg: bool, fmt: Format): nat {
    if mode == Nearest then Unit(fmt) / 2 else if Away(mode, neg) then Unit(fmt) - 1 else 0
  }

  /** The rounded quotient in the code's terms: the aligned fraction, the addition, the carry and the
      tie. */
  lemma QuotientBySteps(f: nat, mode: Mode, neg: bool, h: nat, hidden: nat, top: nat)
    requires h > 0 && hidden > 0 && hidden % 2 == 0 && top > 0 && top == hidden * (h * 2) && f < 2 * top
    ensures var u := h * 2;
            var w := (f + if mode == Nearest then h else if Away(mode, neg) then u - 1 else 0) % (2 * top);
            var tie := mode == Nearest && f % u == h;
            var m := RoundDiv(f, u, mode, neg);
            && (f < top ==> (w < top <==> m < hidden) && (w >= top ==> hidden == Even(w / u, tie)))
            && (f >= top && w >= top ==> m < 2 * hidden && m == Even(w / u, tie))
            && (f >= top && w < top ==>
                  m == 2 * hidden && w / 2 + top < 2 * top && hidden == Even((w / 2 + top) / u, tie))
  {
    Carry(f, if mode == Nearest then h else if Away(mode, neg) then h * 2 - 1 else 0, h * 2, hidden, top);
    RoundByAdding(f, h, mode, neg);
  }

  /** PackWord's word is the encoding. */
  function PackedWord(neg: bool, exp: int, frac: nat, tie: bool, fmt: Format): (res: Word)
    requires TOP <= frac < WORD && fmt.expMin < exp <= fmt.expMax
    ensures var m := Even(frac / Unit(fmt), tie);
            && (if fmt.SFloat? then 0x80_0000 <= m < 0x100_0000 else FRAC <= m < 2 * FRAC)
            && res == Encode(Finite(neg, exp, m), fmt)
  {
    if fmt.SFloat? then PackWordS(neg, exp, frac, tie); PackWord(neg, exp, frac, tie, fmt)
    else PackWordT(neg, exp, frac, tie); PackWord(neg, exp, frac, tie, fmt)
  }

  lemma TinyBySteps(r: Ufp, mode: Mode, fmt: Format, o: Outcome)
    requires TOP <= r.frac < WORD && r.exp <= fmt.expMin
    requires o == RoundNormal(r.sign, r.frac, 1, r.exp, mode, fmt)
    ensures 0 < Aligned(r, fmt) < TOP
    ensures var f := Aligned(r, fmt);
            var w := (f + Addend(mode, r.sign, fmt)) % WORD;
            var tie := mode == Nearest && f % Unit(fmt) == Unit(fmt) / 2;
            if w < TOP then o == Outcome(Zero(false), Flags(true, false, true))
            else o == Outcome(Finite(r.sign, fmt.expMin + 1, Even(w / Unit(fmt), tie)),
                              Flags(f % Unit(fmt) != 0, false, false))
  {
    hide Pow2, RoundDiv, Even, Aligned, Sticky, Away;
    AlignedRounds(r, mode, fmt);
    EncodingExists(fmt);
    QuotientBySteps(Aligned(r, fmt), mode, r.sign, Unit(fmt) / 2, Pow2(63 - fmt.guard), TOP);
  }

  lemma NormalBySteps(r: Ufp, mode: Mode, fmt: Format, o: Outcome)
    requires TOP <= r.frac < WORD && r.exp > fmt.expMin
    requires o == RoundNormal(r.sign, r.frac, 1, r.exp, mode, fmt)
    ensures var w := (r.frac + Addend(mode, r.sign, fmt)) % WORD;
            var tie := mode == Nearest && r.frac % Unit(fmt) == Unit(fmt) / 2;
            var (w', e') := if w < TOP then (w / 2 + TOP, r.exp + 1) else (w, r.exp);
            && w' < WORD
            && o == if e' > fmt.expMax then
                 Outcome(if Addend(mode, r.sign, fmt) != 0 then Infinite(r.sign) else Largest(r.sign),
                         Flags(true, true, false))
               else Outcome(Finite(r.sign, e', Even(w' / Unit(fmt), tie)), Flags(r.frac % Unit(fmt) != 0, false, false))
  {
    hide Pow2, RoundDiv, Even, Aligned, Sticky, Away;
    AlignedRounds(r, mode, fmt);
    EncodingExists(fmt);
    QuotientBySteps(r.frac, mode, r.sign, Unit(fmt) / 2, Pow2(63 - fmt.guard), TOP);
  }

  /** ieee_rpack: a normalized fraction is rounded correctly in every mode and both formats, with
      the carry into the exponent, overflow, underflow and the inexact flag as the reference has
      them; zero keeps its sign. */
  method RoundAndPack(r: Ufp, mode: Mode, fmt: Format) returns (res: Word, flags: Flags)
    requires r.frac == 0 || TOP <= r.frac < WORD
    ensures r.frac == 0 ==> res == SignBit(r.sign) && flags == Flags(false, false, false)
    ensures r.frac != 0 ==> Delivers(res, flags, RoundNormal(r.sign, r.frac, 1, r.exp, mode, fmt), fmt)
  {
    hide RoundNormal, Sticky, Encode, Even, Addend;
    if r.frac == 0 {
      return SignBit(r.sign), Flags(false, false, false);
    }
    ghost var o := RoundNormal(r.sign, r.frac, 1, r.exp, mode, fmt);
    if r.exp <= fmt.expMin { TinyBySteps(r, mode, fmt, o); } else { NormalBySteps(r, mode, fmt, o); }
    var unit := Unit(fmt);
    var frac, exp := r.frac, r.exp;
    var tiny := exp <= fmt.expMin;
    if tiny {
      var sh := fmt.expMin + 1 - exp;
      frac := if sh > 63 then 1 else Sticky(frac, sh);
      exp := fmt.expMin + 1;
    }
    var rndbits := frac % unit;
    var rndadd := Addend(mode, r.sign, fmt);
    frac := (frac + rndadd) % WORD;
    if tiny {
      tiny := frac < TOP;
    } else if frac < TOP {
      frac, exp := frac / 2 + TOP, exp + 1;
    }
    EncodingExists(fmt);
    if exp > fmt.expMax {
      flags := Flags(true, true, false);
      res := Encode(if rndadd != 0 then Infinite(r.sign) else Largest(r.sign), fmt);
    } else if tiny {
      flags := Flags(true, false, true);
      res := Encode(Zero(false), fmt);
    } else {
      flags := Flags(rndbits != 0, false, false);
      res := PackedWord(r.sign, exp, frac, mode == Nearest && rndbits == unit / 2, fmt);
    }
  }
}
