/** Correct rounding against the numbers themselves: which words are S and T numbers, by their bits, and
    that the routines' results are the best of them (section 4.3 of IEEE 754-2008). */
module Representable {
  import opened Bits
  import opened Rounding
  import opened Ieee
  import opened IeeeAdd
  import IeeeConvert
  import IeeeInteger

  /** The words that hold a normal number of the format: in a register an S number has S's exponents,
      rebiased, and its low 29 fraction bits clear. */
  predicate Number(x: Word, fmt: Format) {
    if fmt.SFloat? then 897 <= ExpOf(x) <= 1150 && x % 0x2000_0000 == 0 else 1 <= ExpOf(x) <= 2046
  }

  /** A number's significand: 24 bits, or 53. */
  function Hidden(fmt: Format): nat { if fmt.SFloat? then 0x80_0000 else 0x10_0000_0000_0000 }

  /** The places below it in the unit, at exponent 0. */
  function Places(fmt: Format): nat { if fmt.SFloat? then 40 else 11 }

  function Unit2(fmt: Format, e: nat): (u: nat)
    ensures u > 0
  {
    Pow2(e + Places(fmt))
  }

  lemma FormatIs(fmt: Format)
    ensures Places(fmt) == fmt.guard && Hidden(fmt) == Pow2(63 - fmt.guard)
    ensures fmt.SFloat? ==> fmt.expMin + 1 == 897 && fmt.expMax == 1150
    ensures fmt.TFloat? ==> fmt.expMin + 1 == 1 && fmt.expMax == 2046
  {
    Pow2Values();
  }

  // ---- Encodings -------------------------------------------------------------------------------

  lemma EncodeFields(neg: bool, e: int, q: nat, fmt: Format)
    requires fmt.expMin < e <= fmt.expMax && Hidden(fmt) <= q < 2 * Hidden(fmt)
    ensures var x := Encode(Finite(neg, e, q), fmt);
            && SignOf(x) == neg && ExpOf(x) == e && Number(x, fmt)
            && FRAC + FracOf(x) == if fmt.SFloat? then q * S_LOW else q
  {
    FormatIs(fmt);
    var frac := if fmt.SFloat? then (q - 0x80_0000) * S_LOW else q - FRAC;
    var low := e * FRAC + frac;
    DivUnique(low, FRAC, e, frac);
    if neg { DivUnique(TOP + low, FRAC, 2048 + e, frac); }
    if fmt.SFloat? {
      var k := (if neg then 0x4_0000_0000 else 0) + e * 0x80_0000 + (q - 0x80_0000);
      DivUnique(Encode(Finite(neg, e, q), fmt), S_LOW, k, 0);
    }
  }

  /** An encoded number's value. */
  lemma EncodeMagnitude(neg: bool, e: int, q: nat, fmt: Format)
    requires fmt.expMin < e <= fmt.expMax && Hidden(fmt) <= q < 2 * Hidden(fmt)
    ensures Magnitude(Encode(Finite(neg, e, q), fmt), false) == q * Unit2(fmt, e)
  {
    EncodeFields(neg, e, q, fmt);
    FormatIs(fmt);
    hide Encode, ExpOf, FracOf, SignOf;
    SignificandUnits(q, e, fmt);
  }

  lemma SignificandUnits(q: nat, e: nat, fmt: Format)
    ensures (if fmt.SFloat? then q * S_LOW else q) * 0x800 * Pow2(e) == q * Unit2(fmt, e)
  {
    Pow2Values();
    hide Pow2;
    if fmt.SFloat? {
      Pow2Add(e, 40);
      MulAssoc(q, 0x100_0000_0000, Pow2(e));
    } else {
      Pow2Add(e, 11);
      MulAssoc(q, 0x800, Pow2(e));
    }
  }

  /** Every number of the format is the encoding of its exponent and significand. */
  lemma NumberEncodes(x: Word, fmt: Format) returns (q: nat)
    requires Number(x, fmt)
    ensures Hidden(fmt) <= q < 2 * Hidden(fmt) && fmt.expMin < ExpOf(x) <= fmt.expMax
    ensures x == Encode(Finite(SignOf(x), ExpOf(x), q), fmt) && Magnitude(x, false) == q * Unit2(fmt, ExpOf(x))
  {
    FormatIs(fmt);
    WordSplits(x);
    if fmt.SFloat? {
      LowBitsClear(x);
      q := 0x80_0000 + FracOf(x) / S_LOW;
    } else {
      q := FRAC + FracOf(x);
    }
    hide ExpOf, FracOf, SignOf;
    EncodeMagnitude(SignOf(x), ExpOf(x), q, fmt);
  }

  lemma WordSplits(x: Word)
    ensures x == SignBit(SignOf(x)) + ExpOf(x) * FRAC + FracOf(x)
  {
    DivMod(x, FRAC);
    DivMod(x / FRAC, 2048);
  }

  lemma LowBitsClear(x: Word)
    requires x % 0x2000_0000 == 0
    ensures FracOf(x) == FracOf(x) / S_LOW * S_LOW && FracOf(x) / S_LOW < 0x80_0000
  {
    DivMod(x, S_LOW);
    DivDiv(x, S_LOW, 0x80_0000);
    DivMod(FracOf(x), S_LOW);
    DivUnique(FracOf(x), S_LOW, x / S_LOW % 0x80_0000, 0);
  }

  // ---- Rounding on a grid ----------------------------------------------------------------------

  /** A value at exponent e or above, rounded to the format's unit there. */
  lemma RoundAt(neg: bool, s: nat, e: int, mode: Mode, fmt: Format)
    requires e > fmt.expMin && TOP * Pow2(e) <= s < WORD * Pow2(e)
    ensures var m := RoundDiv(s, Unit2(fmt, e), mode, neg);
            var (e', m') := if m == 2 * Hidden(fmt) then (e + 1, Hidden(fmt)) else (e, m);
            Round(neg, s, mode, fmt) ==
              if e' > fmt.expMax then
                Outcome(if mode == Nearest || Away(mode, neg) then Infinite(neg) else Largest(neg),
                        Flags(true, true, false))
              else Outcome(Finite(neg, e', m'), Flags(s % Unit2(fmt, e) != 0, false, false))
  {
    FormatIs(fmt);
    hide RoundDiv, Pow2, Round;
    Pow2Add(e, fmt.guard);
    assert Denotes(s, Pow2(e), e, s);
    RoundDenotes(neg, s, Pow2(e), e, s, mode, fmt);
  }

  /** y is not strictly between s and a multiple of u next to it. */
  ghost predicate Beside(s: nat, u: nat, y: nat)
    requires u > 0
  {
    && (y <= s ==> y <= s / u * u)
    && (s <= y && s % u != 0 ==> (s / u + 1) * u <= y)
  }

  /** The numbers of a format at exponent e are multiples of its unit there, and all below are less
      than the least of them: so between a value and its neighbouring multiples there is no number. */
  lemma NoNumberBetween(s: nat, e: nat, fmt: Format, q: nat, f: nat)
    requires TOP * Pow2(e) <= s && Hidden(fmt) <= q < 2 * Hidden(fmt)
    ensures Beside(s, Unit2(fmt, e), q * Unit2(fmt, f))
  {
    hide Unit2, Pow2, Hidden, Beside;
    if f >= e {
      HigherUnit(q, e, f, fmt);
      MultipleNeighbours(s, Unit2(fmt, e), q * Pow2(f - e));
    } else {
      LeastNumber(e, fmt);
      LowerUnit(e, f, fmt);
      SmallerNumber(s, Unit2(fmt, e), Unit2(fmt, f), q, Hidden(fmt));
    }
  }

  lemma HigherUnit(q: nat, e: nat, f: nat, fmt: Format)
    requires e <= f
    ensures q * Unit2(fmt, f) == (q * Pow2(f - e)) * Unit2(fmt, e)
  {
    hide Pow2;
    Pow2Add(f - e, e + Places(fmt));
    MulAssoc(q, Pow2(f - e), Pow2(e + Places(fmt)));
  }

  lemma LowerUnit(e: nat, f: nat, fmt: Format)
    requires f < e
    ensures 2 * Unit2(fmt, f) <= Unit2(fmt, e)
  {
    Pow2Mono(f + 1 + Places(fmt), e + Places(fmt));
  }

  lemma MultipleNeighbours(s: nat, u: nat, k: nat)
    requires u > 0
    ensures Beside(s, u, k * u)
  {
    DivMod(s, u);
    var p := s / u;
    if k <= p { MulMono(k, p, u); } else { MulMono(p + 1, k, u); }
  }

  lemma SmallerNumber(s: nat, u: nat, a: nat, q: nat, h: nat)
    requires a > 0 && 2 * a <= u && q < 2 * h && h * u <= s
    ensures Beside(s, u, q * a)
  {
    MulMonoStrict(q, 2 * h, a);
    MulAssoc(2, h, a);
    MulAssoc(h, 2, a);
    MulMono(2 * a, u, h);
    MultipleNeighbours(s, u, h);
  }

  lemma LeastNumber(e: nat, fmt: Format)
    ensures Hidden(fmt) * Unit2(fmt, e) == TOP * Pow2(e)
  {
    Pow2Values();
    hide Pow2;
    Pow2Add(e, Places(fmt));
    MulAssoc(Hidden(fmt), Pow2(Places(fmt)), Pow2(e));
  }

  // ---- The results are the best numbers --------------------------------------------------------

  /** r is what the mode asks for of the exact magnitude s with this sign, among the magnitudes y:
      toward zero or an infinity the nearest on that side, else one that none is nearer than. */
  ghost predicate Best(r: nat, s: nat, mode: Mode, neg: bool, y: nat) {
    match mode
    case Chopped => r <= s && (y <= s ==> y <= r)
    case MinusInf => if neg then s <= r && (s <= y ==> r <= y) else r <= s && (y <= s ==> y <= r)
    case PlusInf => if neg then r <= s && (y <= s ==> y <= r) else s <= r && (s <= y ==> r <= y)
    case Nearest => (r - s <= y - s || r - s <= s - y) && (s - r <= y - s || s - r <= s - y)
  }

  /** Where s lies on e's binade, its exponent. */
  ghost function ExponentOf(s: nat): int
    requires s > 0
  {
    BitLen(s) - 64
  }

  lemma ExponentIs(s: nat)
    requires s >= TOP
    ensures s > 0 && ExponentOf(s) >= 0 && TOP * Pow2(ExponentOf(s)) <= s < WORD * Pow2(ExponentOf(s))
  {
    hide Pow2;
    Pow2Values();
    var len := BitLen(s);
    if len < 64 { Pow2Mono(len, 63); }
    Pow2Add(63, len - 64);
    Pow2Add(64, len - 64);
  }

  /** Rounding to nearest, y is another magnitude as near to s as r is. */
  predicate Tie(r: nat, s: nat, mode: Mode, y: nat) { mode == Nearest && y != r && y + r == 2 * s }

  lemma BestOnGrid(s: nat, u: nat, mode: Mode, neg: bool, y: nat)
    requires u > 0 && Beside(s, u, y)
    ensures Best(RoundDiv(s, u, mode, neg) * u, s, mode, neg, y)
    ensures Tie(RoundDiv(s, u, mode, neg) * u, s, mode, y) ==> RoundDiv(s, u, mode, neg) % 2 == 0
  {
    DivMod(s, u);
    var q, r := s / u, s % u;
    assert (q + 1) * u == q * u + u;
    if mode == Nearest { RoundDivCorrect(s, u, mode, neg); }
  }

  /** The least and the largest number of a format, by their bits. */
  function Least(fmt: Format): Word { if fmt.SFloat? then 0x3810_0000_0000_0000 else 0x10_0000_0000_0000 }

  function LargestNumber(fmt: Format): Word {
    if fmt.SFloat? then 0x47EF_FFFF_E000_0000 else 0x7FEF_FFFF_FFFF_FFFF
  }

  function LowExp(fmt: Format): nat { if fmt.SFloat? then 897 else 1 }

  function HighExp(fmt: Format): nat { if fmt.SFloat? then 1150 else 2046 }

  /** They are the first and the last of the numbers, and what an overflow delivers is the last. */
  lemma EndsAre(fmt: Format, neg: bool)
    ensures Number(Least(fmt), fmt) && Number(LargestNumber(fmt), fmt)
    ensures Magnitude(Least(fmt), false) == Hidden(fmt) * Unit2(fmt, LowExp(fmt))
    ensures Magnitude(LargestNumber(fmt), false) == (2 * Hidden(fmt) - 1) * Unit2(fmt, HighExp(fmt))
    ensures Encode(Largest(neg), fmt) == SignBit(neg) + LargestNumber(fmt)
    ensures fmt.expMin < HighExp(fmt) == fmt.expMax && fmt.expMin + 1 == LowExp(fmt)
    ensures Encode(Finite(neg, HighExp(fmt), 2 * Hidden(fmt) - 1), fmt) == Encode(Largest(neg), fmt)
  {
    FormatIs(fmt);
    EncodeMagnitude(false, LowExp(fmt), Hidden(fmt), fmt);
    EncodeMagnitude(false, HighExp(fmt), 2 * Hidden(fmt) - 1, fmt);
    EncodeFields(false, LowExp(fmt), Hidden(fmt), fmt);
    EncodeFields(false, HighExp(fmt), 2 * Hidden(fmt) - 1, fmt);
    hide Magnitude, Unit2, Pow2, ExpOf, FracOf, SignOf;
    assert Encode(Finite(false, LowExp(fmt), Hidden(fmt)), fmt) == Least(fmt);
    assert Encode(Finite(false, HighExp(fmt), 2 * Hidden(fmt) - 1), fmt) == LargestNumber(fmt);
  }

  lemma BinadeAtLeast(s: nat, e: nat, lo: nat)
    requires TOP * Pow2(lo) <= s < WORD * Pow2(e)
    ensures lo <= e
  {
    if e < lo { Pow2Mono(e + 1, lo); }
  }

  lemma BinadeAtMost(s: nat, e: nat, hi: nat)
    requires TOP * Pow2(e) <= s < WORD * Pow2(hi)
    ensures e <= hi
  {
    if hi < e { Pow2Mono(hi + 1, e); }
  }

  /** The quotient of a value in a binade, and when rounding carries it out of the binade. */
  lemma QuotientInBinade(s: nat, u: nat, h: nat, mode: Mode, neg: bool)
    requires u > 0 && h * u <= s < (2 * h) * u
    ensures h <= RoundDiv(s, u, mode, neg) <= 2 * h
    ensures s <= (2 * h - 1) * u ==> RoundDiv(s, u, mode, neg) < 2 * h
    ensures RoundDiv(s, u, mode, neg) * u == s <==> s % u == 0
  {
    QuotientRange(s, u, h, 2 * h);
    DivMod(s, u);
    var q, r := s / u, s % u;
    RoundDivCorrect(s, u, mode, neg);
    if s <= (2 * h - 1) * u && q == 2 * h - 1 { assert r == 0; }
  }

  /** The outcome is a number with the value's sign, as good as y, even where y is as near, and flagged
      inexact unless it is the value. */
  ghost predicate BestResult(o: Outcome, neg: bool, s: nat, mode: Mode, fmt: Format, y: nat) {
    && o.value.Finite? && fmt.expMin < o.value.exp <= fmt.expMax
    && Hidden(fmt) <= o.value.significand < 2 * Hidden(fmt)
    && (EncodingExists(fmt);
        var res := Encode(o.value, fmt);
        && Number(res, fmt) && SignOf(res) == neg
        && Best(Magnitude(res, false), s, mode, neg, y)
        && (Tie(Magnitude(res, false), s, mode, y) ==> o.value.significand % 2 == 0)
        && o.flags == Flags(Magnitude(res, false) != s, false, false))
  }

  lemma BestFinite(neg: bool, e: int, m: nat, s: nat, mode: Mode, fmt: Format, y: nat)
    requires fmt.expMin < e <= fmt.expMax && Hidden(fmt) <= m < 2 * Hidden(fmt)
    requires Best(m * Unit2(fmt, e), s, mode, neg, y) && (Tie(m * Unit2(fmt, e), s, mode, y) ==> m % 2 == 0)
    ensures BestResult(Outcome(Finite(neg, e, m), Flags(m * Unit2(fmt, e) != s, false, false)), neg, s, mode, fmt, y)
  {
    EncodeFields(neg, e, m, fmt);
    EncodeMagnitude(neg, e, m, fmt);
    hide Encode, Magnitude, Number, SignOf, ExpOf, FracOf, Best, Unit2;
  }

  /** From the least number to the largest an exact value rounds to a number, the best of all the
      format's numbers, with nothing but the inexact flag, raised unless the value is that number. */
  lemma RoundsToBest(neg: bool, s: nat, mode: Mode, fmt: Format, x: Word)
    requires Magnitude(Least(fmt), false) <= s <= Magnitude(LargestNumber(fmt), false) && Number(x, fmt)
    ensures s > 0
    ensures BestResult(Round(neg, s, mode, fmt), neg, s, mode, fmt, Magnitude(x, false))
  {
    EndsAre(fmt, neg);
    LeastNumber(LowExp(fmt), fmt);
    LeastNumber(HighExp(fmt), fmt);
    var q := NumberEncodes(x, fmt);
    hide Magnitude, Encode, ExpOf, FracOf, SignOf, Number;
    LeastAtLeastTop(LowExp(fmt), fmt);
    RoundsToBestAt(neg, s, mode, fmt, q, ExpOf(x), Magnitude(x, false));
  }

  ghost predicate FromLeastToLargest(s: nat, fmt: Format) {
    Hidden(fmt) * Unit2(fmt, LowExp(fmt)) <= s <= (2 * Hidden(fmt) - 1) * Unit2(fmt, HighExp(fmt))
  }

  lemma RoundsToBestAt(neg: bool, s: nat, mode: Mode, fmt: Format, q: nat, f: nat, y: nat)
    requires s > 0 && Hidden(fmt) <= q < 2 * Hidden(fmt) && FromLeastToLargest(s, fmt) && y == q * Unit2(fmt, f)
    ensures BestResult(Round(neg, s, mode, fmt), neg, s, mode, fmt, y)
  {
    hide Pow2, Unit2, Hidden, Beside, BestResult, Round, FromLeastToLargest;
    var e := BinadeFor(s, fmt);
    NoNumberBetween(s, e, fmt, q, f);
    BestInBinade(neg, s, e, mode, fmt, y);
  }

  lemma BinadeFor(s: nat, fmt: Format) returns (e: nat)
    requires FromLeastToLargest(s, fmt)
    ensures s > 0 && TOP * Pow2(e) <= s < WORD * Pow2(e) && LowExp(fmt) <= e <= HighExp(fmt)
    ensures e == HighExp(fmt) ==> s <= (2 * Hidden(fmt) - 1) * Unit2(fmt, e)
  {
    hide Pow2, Unit2;
    LeastAtLeastTop(LowExp(fmt), fmt);
    ExponentIs(s);
    e := ExponentOf(s);
    hide ExponentOf, Hidden;
    BinadeOf(s, e, fmt);
  }

  lemma BestInBinade(neg: bool, s: nat, e: nat, mode: Mode, fmt: Format, y: nat)
    requires s > 0 && TOP * Pow2(e) <= s < WORD * Pow2(e) && LowExp(fmt) <= e <= HighExp(fmt)
    requires e == HighExp(fmt) ==> s <= (2 * Hidden(fmt) - 1) * Unit2(fmt, e)
    requires Beside(s, Unit2(fmt, e), y)
    ensures BestResult(Round(neg, s, mode, fmt), neg, s, mode, fmt, y)
  {
    FormatIs(fmt);
    LeastNumber(e, fmt);
    var u, h := Unit2(fmt, e), Hidden(fmt);
    assert h * u <= s < (2 * h) * u by { MulAssoc(2, h, u); }
    assert h % 2 == 0;
    hide Pow2, Unit2, Hidden, Beside, BestResult, Round, Best, RoundDiv, Tie;
    RoundAt(neg, s, e, mode, fmt);
    BestOnGrid(s, u, mode, neg, y);
    QuotientInBinade(s, u, h, mode, neg);
    if RoundDiv(s, u, mode, neg) == 2 * h {
      NextBinade(e, fmt);
      BestFinite(neg, e + 1, h, s, mode, fmt, y);
    } else {
      BestFinite(neg, e, RoundDiv(s, u, mode, neg), s, mode, fmt, y);
    }
  }

  lemma LeastAtLeastTop(e: nat, fmt: Format)
    ensures Hidden(fmt) * Unit2(fmt, e) >= TOP
  {
    LeastNumber(e, fmt);
    hide Pow2, Unit2;
    MulMono(1, Pow2(e), TOP);
  }

  lemma NextBinade(e: nat, fmt: Format)
    ensures Hidden(fmt) * Unit2(fmt, e + 1) == (2 * Hidden(fmt)) * Unit2(fmt, e)
  {
    MulAssoc(Hidden(fmt), 2, Unit2(fmt, e));
  }

  /** A value from the least number to the largest is in one of their binades, and in the last one at
      most the largest number. */
  lemma BinadeOf(s: nat, e: nat, fmt: Format)
    requires Hidden(fmt) * Unit2(fmt, LowExp(fmt)) <= s <= (2 * Hidden(fmt) - 1) * Unit2(fmt, HighExp(fmt))
    requires TOP * Pow2(e) <= s < WORD * Pow2(e)
    ensures LowExp(fmt) <= e <= HighExp(fmt)
    ensures e == HighExp(fmt) ==> s <= (2 * Hidden(fmt) - 1) * Unit2(fmt, e)
  {
    LeastNumber(LowExp(fmt), fmt);
    LeastNumber(HighExp(fmt), fmt);
    BinadeAtLeast(s, e, LowExp(fmt));
    MulMonoStrict(2 * Hidden(fmt) - 1, 2 * Hidden(fmt), Unit2(fmt, HighExp(fmt)));
    hide Pow2, Unit2;
    MulAssoc(2, Hidden(fmt), Unit2(fmt, HighExp(fmt)));
    BinadeAtMost(s, e, HighExp(fmt));
  }

  /** A number of the format is its own rounding: kept, in every mode, with no flag. */
  lemma NumbersAreKept(x: Word, mode: Mode, fmt: Format)
    requires Number(x, fmt)
    ensures Magnitude(x, false) > 0
    ensures Delivers(x, Flags(false, false, false), Round(SignOf(x), Magnitude(x, false), mode, fmt), fmt)
  {
    var q := NumberEncodes(x, fmt);
    FormatIs(fmt);
    var e, u, h := ExpOf(x), Unit2(fmt, ExpOf(x)), Hidden(fmt);
    LeastNumber(e, fmt);
    MulMono(h, q, u);
    MulMonoStrict(q, 2 * h, u);
    LeastAtLeastTop(e, fmt);
    hide Encode, ExpOf, FracOf, SignOf, Magnitude, Pow2, Unit2, Round, RoundDiv, Number;
    MulAssoc(2, h, u);
    RoundAt(SignOf(x), q * u, e, mode, fmt);
    ExactMultiple(q, u, mode, SignOf(x));
  }

  lemma ExactMultiple(q: nat, u: nat, mode: Mode, neg: bool)
    requires u > 0
    ensures RoundDiv(q * u, u, mode, neg) == q && (q * u) % u == 0
  {
    DivUnique(q * u, u, q, 0);
  }

  // ---- Beyond the numbers ----------------------------------------------------------------------

  /** What an overflow delivers, by mode and sign. */
  function Overflowed(mode: Mode, neg: bool): Value {
    match mode
    case Chopped => Largest(neg)
    case Nearest => Infinite(neg)
    case PlusInf => if neg then Largest(neg) else Infinite(neg)
    case MinusInf => if neg then Infinite(neg) else Largest(neg)
  }

  /** Above the largest number: an overflow exactly when the value, rounded to the last binade's unit,
      leaves the binade; else the largest number, inexact. */
  lemma AboveLargest(neg: bool, s: nat, mode: Mode, fmt: Format)
    requires s > Magnitude(LargestNumber(fmt), false)
    ensures Round(neg, s, mode, fmt) ==
            if RoundDiv(s, Unit2(fmt, HighExp(fmt)), mode, neg) >= 2 * Hidden(fmt) then
              Outcome(Overflowed(mode, neg), Flags(true, true, false))
            else Outcome(Finite(neg, HighExp(fmt), 2 * Hidden(fmt) - 1), Flags(true, false, false))
  {
    EndsAre(fmt, neg);
    hide Magnitude, Encode, Pow2, Round, RoundDiv, Number;
    var hi, h := HighExp(fmt), Hidden(fmt);
    var u := Unit2(fmt, hi);
    LeastAtLeastTop(hi, fmt);
    LeastNumber(hi, fmt);
    assert s >= h * u && s >= TOP by { MulMono(h, 2 * h - 1, u); }
    ExponentIs(s);
    var e := ExponentOf(s);
    hide Unit2, Hidden, ExponentOf;
    BinadeAtLeast(s, e, hi);
    RoundAt(neg, s, e, mode, fmt);
    if e == hi {
      LastBinade(s, u, h, mode, neg);
    } else {
      FarAbove(s, e, mode, neg, fmt);
    }
  }

  lemma LastBinade(s: nat, u: nat, h: nat, mode: Mode, neg: bool)
    requires u > 0 && h > 0 && (2 * h - 1) * u < s < (2 * h) * u
    ensures 2 * h - 1 <= RoundDiv(s, u, mode, neg) <= 2 * h && s % u != 0
  {
    assert (2 * h) * u == (2 * h - 1) * u + u;
    DivUnique(s, u, 2 * h - 1, s - (2 * h - 1) * u);
  }

  lemma FarAbove(s: nat, e: nat, mode: Mode, neg: bool, fmt: Format)
    requires e > HighExp(fmt) && TOP * Pow2(e) <= s
    ensures RoundDiv(s, Unit2(fmt, HighExp(fmt)), mode, neg) >= 2 * Hidden(fmt)
  {
    var hi := HighExp(fmt);
    LeastNumber(hi + 1, fmt);
    NextBinade(hi, fmt);
    Pow2Mono(hi + 1, e);
    MulMono(Pow2(hi + 1), Pow2(e), TOP);
    hide Pow2, Unit2, Hidden;
    AtLeastQuotient(s, Unit2(fmt, hi), 2 * Hidden(fmt), mode, neg);
  }

  lemma AtLeastQuotient(s: nat, u: nat, k: nat, mode: Mode, neg: bool)
    requires u > 0 && k * u <= s
    ensures RoundDiv(s, u, mode, neg) >= k
  {
    DivMod(s, u);
    if s / u < k { MulMono(s / u + 1, k, u); }
  }

  /** Below the least number: kept, as the least one, when rounding to its unit reaches it, else a true
      zero and an underflow. */
  lemma BelowLeast(neg: bool, s: nat, mode: Mode, fmt: Format)
    requires 0 < s < Magnitude(Least(fmt), false)
    ensures Round(neg, s, mode, fmt) ==
            if RoundDiv(s, Unit2(fmt, LowExp(fmt)), mode, neg) >= Hidden(fmt) then
              Outcome(Finite(neg, LowExp(fmt), Hidden(fmt)), Flags(true, false, false))
            else Outcome(Zero(false), Flags(true, false, true))
  {
    EndsAre(fmt, neg);
    var lo, h := LowExp(fmt), Hidden(fmt);
    LeastNumber(lo, fmt);
    hide Magnitude, Encode, Number, RoundDiv, Pow2, Round;
    BelowBinade(s, lo);
    RoundTiny(neg, s, mode, fmt);
    var u := Unit2(fmt, lo);
    hide Unit2, Hidden;
    BelowQuotient(s, u, h, mode, neg);
  }

  lemma RoundTiny(neg: bool, s: nat, mode: Mode, fmt: Format)
    requires s > 0 && BitLen(s) - 64 < LowExp(fmt)
    ensures var u := Unit2(fmt, LowExp(fmt));
            Round(neg, s, mode, fmt) ==
              if RoundDiv(s, u, mode, neg) >= Hidden(fmt) then
                Outcome(Finite(neg, LowExp(fmt), Hidden(fmt)), Flags(s % u != 0, false, false))
              else Outcome(Zero(false), Flags(true, false, true))
  {
    FormatIs(fmt);
    hide RoundDiv, Pow2, Normalized, Hidden, Unit2;
    TinyUnit(s, BitLen(s) - 64, LowExp(fmt), mode, neg, fmt);
  }

  lemma BelowQuotient(s: nat, u: nat, h: nat, mode: Mode, neg: bool)
    requires u > 0 && s < h * u
    ensures s % u != 0 || RoundDiv(s, u, mode, neg) < h
  {
    DivMod(s, u);
    if s % u == 0 && s / u >= h { MulMono(h, s / u, u); }
  }

  lemma BelowBinade(s: nat, lo: nat)
    requires 0 < s < TOP * Pow2(lo)
    ensures BitLen(s) - 64 < lo
  {
    hide Pow2;
    Pow2Values();
    Pow2Add(63, lo);
    if BitLen(s) >= 64 + lo { Pow2Mono(63 + lo, BitLen(s) - 1); }
  }

  /** A tiny value's rounding is to the least number's unit, whatever its own exponent. */
  lemma TinyUnit(s: nat, e: int, lo: nat, mode: Mode, neg: bool, fmt: Format)
    requires s > 0 && e == BitLen(s) - 64 < lo
    ensures var (n, d) := Normalized(s);
            var ulp := d * Pow2(lo - e + Places(fmt));
            ulp > 0 && RoundDiv(n, ulp, mode, neg) == RoundDiv(s, Unit2(fmt, lo), mode, neg)
            && (n % ulp == 0 <==> s % Unit2(fmt, lo) == 0)
  {
    hide RoundDiv, Pow2, Normal;
    var k := lo + Places(fmt);
    if e >= 0 {
      Pow2Add(e, k - e);
    } else {
      Pow2Add(k, -e);
      RoundScale(s, Pow2(k), Pow2(-e), mode, neg);
    }
  }

  // ---- For the instructions --------------------------------------------------------------------

  /** An addition or subtraction of any two numbers or zeros whose exact result is from the least number
      to the largest delivers the best number there is. */
  lemma SumIsBest(s1: Word, s2: Word, sub: bool, mode: Mode, fmt: Format, flush: bool, res: Word, flags: Flags, x: Word)
    requires IsNumber(s1, flush) && IsNumber(s2, flush) && Number(x, fmt)
    requires CorrectSum(res, flags, Exact(s1, s2, sub, flush), ZeroSign(s1, s2, sub, mode, flush), mode, fmt)
    requires Magnitude(Least(fmt), false) <= Abs(Exact(s1, s2, sub, flush)) <= Magnitude(LargestNumber(fmt), false)
    ensures var t := Exact(s1, s2, sub, flush);
            && Number(res, fmt) && SignOf(res) == (t < 0)
            && Best(Magnitude(res, false), Abs(t), mode, t < 0, Magnitude(x, false))
            && flags == Flags(Magnitude(res, false) != Abs(t), false, false)
  {
    hide Round, Encode, Magnitude, Best, Number, Exact, SignOf, Tie, Hidden;
    var t := Exact(s1, s2, sub, flush);
    RoundsToBest(t < 0, Abs(t), mode, fmt, x);
  }

  /** A number plus or minus a zero is that number. */
  lemma PlusZero(x: Word, zero: Word, sub: bool, mode: Mode, fmt: Format, res: Word, flags: Flags)
    requires Number(x, fmt) && (zero == 0 || zero == TOP)
    requires CorrectSum(res, flags, Exact(x, zero, sub, false), ZeroSign(x, zero, sub, mode, false), mode, fmt)
    ensures res == x && flags == Flags(false, false, false)
  {
    NumbersAreKept(x, mode, fmt);
    ZeroIsZero(zero);
    hide Round, Encode, Number, Pow2;
    assert Signed(zero, false) == 0;
    assert Abs(Exact(x, zero, sub, false)) == Magnitude(x, false);
  }

  lemma ZeroIsZero(zero: Word)
    requires zero == 0 || zero == TOP
    ensures Magnitude(zero, false) == 0
  {
    hide Pow2;
    DivUnique(zero, FRAC, zero / FRAC, 0);
    assert zero / FRAC % 2048 == 0;
  }

  /** An operand with its sign changed. */
  function Negated(x: Word): Word { if x >= TOP then x - TOP else x + TOP }

  /** A sum does not depend on the order of its operands, and a difference is the sum with the second one
      negated, down to the sign of a zero. */
  lemma SumLaws(s1: Word, s2: Word, mode: Mode, flush: bool)
    ensures Exact(s1, s2, false, flush) == Exact(s2, s1, false, flush)
    ensures ZeroSign(s1, s2, false, mode, flush) == ZeroSign(s2, s1, false, mode, flush)
    ensures Exact(s1, s2, true, flush) == Exact(s1, Negated(s2), false, flush)
    ensures ZeroSign(s1, s2, true, mode, flush) == ZeroSign(s1, Negated(s2), false, mode, flush)
  {
    NegatedFields(s2);
    hide ExpOf, FracOf, Pow2, Negated;
  }

  lemma NegatedFields(x: Word)
    ensures SignOf(Negated(x)) != SignOf(x) && ExpOf(Negated(x)) == ExpOf(x) && FracOf(Negated(x)) == FracOf(x)
  {
    var y := if x >= TOP then x - TOP else x;
    DivMod(y, FRAC);
    DivUnique(y + TOP, FRAC, y / FRAC + 2048, y % FRAC);
  }

  /** A number less itself is +0, or -0 rounding toward minus infinity; a sum of zeros alike is that
      zero, of opposite zeros as the number's. */
  lemma ZeroSums(x: Word, mode: Mode, fmt: Format, res: Word, flags: Flags)
    requires Number(x, fmt) || x == 0 || x == TOP
    ensures CorrectSum(res, flags, Exact(x, x, true, false), ZeroSign(x, x, true, mode, false), mode, fmt) ==>
              res == (if mode == MinusInf then 0x8000_0000_0000_0000 else 0) && flags == Flags(false, false, false)
    ensures x == 0 || x == TOP ==>
              (CorrectSum(res, flags, Exact(x, x, false, false), ZeroSign(x, x, false, mode, false), mode, fmt) ==>
                 res == x && flags == Flags(false, false, false))
  {
    hide Round, Encode, Number, Delivers, Pow2;
    assert Exact(x, x, true, false) == 0;
    if x == 0 || x == TOP {
      ZeroIsZero(x);
      assert Signed(x, false) == 0;
    }
  }

  /** The scale of the conversions: 1 is 0x3FF0000000000000, both ways, in every mode and format. */
  lemma OneConverts(mode: Mode, fmt: Format)
    ensures Delivers(0x3FF0_0000_0000_0000, Flags(false, false, false),
                     Round(false, IeeeInteger.Units(1), mode, fmt), fmt)
    ensures IeeeConvert.IntegerOf(0x3FF0_0000_0000_0000, mode, false) == 1
  {
    var one: Word := 0x3FF0_0000_0000_0000;
    assert ExpOf(one) == 1023 && FracOf(one) == 0 && Number(one, fmt) && !SignOf(one);
    OneUnits(one, 1023);
    NumbersAreKept(one, mode, fmt);
    hide Pow2, Magnitude, Round, Delivers, Number;
    ExactMultiple(1, Pow2(IeeeConvert.ONE_EXP), mode, false);
  }

  lemma OneUnits(one: Word, e: nat)
    requires ExpOf(one) == e == 1023 && FracOf(one) == 0
    ensures Magnitude(one, false) == Pow2(IeeeConvert.ONE_EXP) == IeeeInteger.Units(1)
  {
    PowerAt(e);
    hide Pow2, ExpOf, FracOf;
  }

  lemma PowerAt(e: nat)
    ensures FRAC * 0x800 * Pow2(e) == Pow2(63 + e)
  {
    Pow2Values();
    hide Pow2;
    Pow2Add(63, e);
  }

  /** The words the routines return for what is no number, by their fields. */
  lemma SpecialWords(neg: bool, flush: bool, fmt: Format)
    ensures KindOf(CANONICAL_NAN, flush) == UNaN && FracOf(CANONICAL_NAN) >= QNAN && SignOf(CANONICAL_NAN)
    ensures KindOf(Encode(Infinite(neg), fmt), flush) == UInfinite && SignOf(Encode(Infinite(neg), fmt)) == neg
    ensures KindOf(Encode(Zero(neg), fmt), flush) == UZero && SignOf(Encode(Zero(neg), fmt)) == neg
  {
  }

  /** A quieted NaN is a quiet NaN of the same sign and payload. */
  lemma QuietIs(op: Word, fmt: Format, flush: bool)
    requires KindOf(op, flush) == UNaN && (fmt.SFloat? ==> op % 0x2000_0000 == 0)
    ensures var q := Quiet(op, fmt);
            && KindOf(q, flush) == UNaN && FracOf(q) >= 0x8_0000_0000_0000 && SignOf(q) == SignOf(op)
            && FracOf(q) % 0x8_0000_0000_0000 == FracOf(op) % 0x8_0000_0000_0000
            && (FracOf(op) >= 0x8_0000_0000_0000 ==> q == op)
  {
    QuietWord(op, fmt);
    hide Quiet;
    WordSplits(op);
    var f := FracOf(op);
    if f < QNAN { QuietFields(op); }
  }

  /** With no low bits to clear, quieting only sets the quiet bit. */
  lemma QuietWord(op: Word, fmt: Format)
    requires fmt.SFloat? ==> op % 0x2000_0000 == 0
    ensures Quiet(op, fmt) == if FracOf(op) < QNAN then op + QNAN else op
  {
    hide FracOf;
    if fmt.SFloat? {
      DivMod(op, S_LOW);
      DivUnique(op + QNAN, S_LOW, op / S_LOW + 0x40_0000, 0);
    }
  }

  lemma QuietFields(op: Word)
    requires FracOf(op) < QNAN
    ensures op + QNAN < WORD
    ensures var q: Word := op + QNAN;
            && SignOf(q) == SignOf(op) && ExpOf(q) == ExpOf(op) && FracOf(q) == FracOf(op) + QNAN
            && FracOf(q) % QNAN == FracOf(op) % QNAN
  {
    WordSplits(op);
    var f := FracOf(op);
    DivMod(op, FRAC);
    DivUnique(op + QNAN, FRAC, op / FRAC, f + QNAN);
    DivUnique(f + QNAN, QNAN, 1, f);
    DivUnique(f, QNAN, 0, f);
    SignsAlike(op, op + QNAN);
  }

  lemma SignsAlike(a: Word, b: Word)
    requires a / FRAC == b / FRAC
    ensures SignOf(a) == SignOf(b)
  {
  }
}
