/** ieee_unpack and ieee_fadd (src/cpu/AlphaCPU_ieeefloat.cpp): the sum and the difference of two
    zero or normal operands are the exact ones, correctly rounded. */
module IeeeAdd {
  import opened Bits
  import opened Rounding
  import opened Ieee

  /** A quiet NaN result: an S one has its low fraction bits clear. */
  function Quiet(op: Word, fmt: Format): Word {
    var q := if FracOf(op) < QNAN then op + QNAN else op;
    if fmt.SFloat? then q - q % S_LOW else q
  }

  /** ieee_unpack. invalid: it raised an invalid operation, for a denormal operand or a signalling
      NaN. A normal fraction carries the hidden bit at the top and eleven zero guard bits. */
  method Unpack(op: Word, flush: bool) returns (kind: Kind, r: Ufp, invalid: bool)
    ensures kind == KindOf(op, flush) && r.sign == SignOf(op)
    ensures kind == UZero ==> r.exp == 0 && r.frac == 0
    ensures kind == UFinite ==> r.exp == ExpOf(op) && r.frac == (FRAC + FracOf(op)) * 0x800
    ensures kind == UFinite || kind == UDenormal ==> TOP <= r.frac < WORD && r.frac % 0x800 == 0
    ensures invalid <==> kind == UDenormal || (kind == UNaN && FracOf(op) < QNAN)
  {
    invalid := false;
    r := Ufp(SignOf(op), ExpOf(op), FracOf(op));
    kind := KindOf(op, flush);
    if r.exp == 0 {
      if kind == UZero {
        r := r.(frac := 0);
      } else {
        var given := Ufp(r.sign, 1, r.frac * 0x800);
        r := Norm(given);
        MultipleOf(FracOf(op) * 0x800, Pow2(1 - r.exp), FracOf(op));
        invalid := true;
      }
    } else if r.exp == 2047 {
      invalid := kind == UNaN && r.frac < QNAN;
    } else {
      r := r.(frac := (r.frac + FRAC) * 0x800);
    }
  }

  lemma MultipleOf(f: nat, p: nat, c: nat)
    requires f == c * 0x800
    ensures (f * p) % 0x800 == 0
  {
    assert f * p == (c * p) * 0x800;
  }

  /** The exact sum at the smaller exponent. */
  ghost function SumAt(a: Ufp, b: Ufp): int {
    var e := if a.exp <= b.exp then a.exp else b.exp;
    Weighted(a, e) + Weighted(b, e)
  }

  ghost function Weighted(a: Ufp, e: int): int
    requires e <= a.exp
  {
    var m: int := Scaled(a.frac, a.exp - e);
    if a.sign then -m else m
  }

  /** Eleven zero guard bits. */
  predicate Guarded(f: nat) { f % 0x800 == 0 }

  lemma GuardedEven(f: nat)
    requires Guarded(f)
    ensures f % 2 == 0
  {
    DivMod(f, 0x800);
    DivUnique(f, 2, f / 0x800 * 0x400, 0);
  }

  ghost predicate Operand(a: Ufp) {
    TOP <= a.frac < WORD && Guarded(a.frac)
  }

  function Abs(x: int): nat { if x < 0 then -x else x }

  /** The larger magnitude first. */
  ghost predicate Ordered(a: Ufp, b: Ufp) {
    a.exp > b.exp || (a.exp == b.exp && a.frac >= b.frac)
  }

  /** The normalized r stands for an exact fraction whose value at r's exponent is s * 2^e. */
  ghost predicate Represents(r: Ufp, s: nat, e: int) {
    && TOP <= r.frac < WORD && e - 63 <= r.exp
    && exists n, d: nat :: RepresentsBy(r, s, e, n, d)
  }

  ghost predicate RepresentsBy(r: Ufp, s: nat, e: int, n: nat, d: nat) {
    d > 0 && Stands(r.frac, n, d, 2) && Normal(n, d) && Denotes(n, d, r.exp - e, s)
  }

  /** The magnitude of the sum, the larger operand's sign with it. */
  lemma ExactSum(a: Ufp, b: Ufp)
    requires Operand(a) && Operand(b) && Ordered(a, b)
    ensures var n := Scaled(a.frac, a.exp - b.exp);
            && b.frac <= n
            && Abs(SumAt(a, b)) == (if a.sign == b.sign then n + b.frac else n - b.frac)
            && (SumAt(a, b) != 0 ==> (SumAt(a, b) < 0 <==> a.sign))
  {
    ScaledAtLeast(a.frac, a.exp - b.exp);
    ScaledAtLeast(b.frac, 0);
    hide Scaled;
  }

  lemma ScaledAtLeast(f: nat, k: nat)
    ensures if k == 0 then Scaled(f, k) == f else Scaled(f, k) >= 2 * f
  {
    if k > 0 {
      Pow2Mono(1, k);
      MulMono(2, Pow2(k), f);
    }
  }

  /** Shifting the smaller fraction right, what falls off kept as a sticky bit. */
  method Align(b: nat, ediff: nat) returns (f: nat)
    requires TOP <= b < WORD
    ensures f == Sticky(b, ediff) && f < WORD
  {
    if ediff > 63 {
      f := 1;
      StickyWord(b, ediff);
    } else if ediff > 0 {
      f := Sticky(b, ediff);
      StickyWord(b, ediff);
    } else {
      f := b;
    }
  }

  /** The effective addition of fractions, with the carry shifted in and the sticky bit retained. */
  method AddFractions(a: Ufp, b: Ufp) returns (r: Ufp)
    requires Operand(a) && Operand(b) && Ordered(a, b) && a.sign == b.sign
    ensures r.sign == a.sign
    ensures Represents(r, Abs(SumAt(a, b)), b.exp)
  {
    hide Sticky, Represents, SumAt;
    var small := Align(b.frac, a.exp - b.exp);
    SumRepresents(a, b);
    var frac, exp := (a.frac + small) % WORD, a.exp;
    if frac < small {
      frac, exp := TOP + frac / 2 + (if frac % 2 == 1 && (frac / 2) % 2 == 0 then 1 else 0), exp + 1;
    }
    r := Ufp(a.sign, exp, frac);
  }

  lemma SumRepresents(a: Ufp, b: Ufp)
    requires Operand(a) && Operand(b) && Ordered(a, b) && a.sign == b.sign
    ensures var sum := a.frac + Sticky(b.frac, a.exp - b.exp);
            var w := sum - WORD;
            if sum < WORD then Represents(a.(frac := sum), Abs(SumAt(a, b)), b.exp)
            else
              var odd := if w % 2 == 1 && (w / 2) % 2 == 0 then 1 else 0;
              Represents(Ufp(a.sign, a.exp + 1, TOP + w / 2 + odd), Abs(SumAt(a, b)), b.exp)
  {
    GuardedEven(a.frac);
    hide Sticky, Represents, SumAt, Pow2, Scaled, Guarded;
    var k := a.exp - b.exp;
    var n := Scaled(a.frac, k) + b.frac;
    var sum := a.frac + Sticky(b.frac, k);
    assert Abs(SumAt(a, b)) == n by { ExactSum(a, b); }
    assert sum == Sticky(n, k) by { StickyAdd(a.frac, b.frac, k); }
    if sum < WORD {
      WholeRepresents(a, b.exp, n, sum);
    } else {
      assert sum < 2 * WORD by { StickySmall(b.frac, k); }
      CarryShift(sum, sum - WORD);
      CarryRepresents(a, b.exp, n, sum);
    }
  }

  lemma WholeRepresents(a: Ufp, e: int, n: nat, sum: nat)
    requires e <= a.exp && sum == Sticky(n, a.exp - e) && TOP <= sum < WORD
    ensures Represents(a.(frac := sum), n, e)
  {
    hide Sticky, Stands, Normal;
    var p := Pow2(a.exp - e);
    SumStands(n, a.exp - e);
    StandsCoarser(sum, n, p, 1, 2);
    StandsNormal(sum, n, p, 2);
    assert RepresentsBy(a.(frac := sum), n, e, n, p);
  }

  lemma CarryRepresents(a: Ufp, e: int, n: nat, sum: nat)
    requires e <= a.exp && sum == Sticky(n, a.exp - e) && TOP <= Sticky(sum, 1) < WORD
    ensures Represents(Ufp(a.sign, a.exp + 1, Sticky(sum, 1)), n, e)
  {
    hide Sticky, Stands, Normal;
    var p := Pow2(a.exp - e);
    SumStands(n, a.exp - e);
    assert Pow2(1) == 2;
    StickyStands(sum, n, p, 1, 1);
    StandsCoarser(Sticky(sum, 1), n, p * 2, 1, 2);
    StandsNormal(Sticky(sum, 1), n, p * 2, 2);
    assert RepresentsBy(Ufp(a.sign, a.exp + 1, Sticky(sum, 1)), n, e, n, p * 2);
  }

  lemma StickySmall(b: nat, k: nat)
    requires TOP <= b < WORD
    ensures Sticky(b, k) < WORD
  {
    if k >= 1 { StickyWord(b, k); }
  }

  lemma SumStands(n: nat, k: nat)
    ensures Stands(Sticky(n, k), n, Pow2(k), 1)
  {
    StickyStands(n, n, 1, 1, k);
  }

  lemma CarryShift(s: nat, w: nat)
    requires WORD <= s < 2 * WORD && w == s - WORD
    ensures Sticky(s, 1) == TOP + w / 2 + (if w % 2 == 1 && (w / 2) % 2 == 0 then 1 else 0)
    ensures TOP <= Sticky(s, 1) < WORD
  {
    assert Pow2(1) == 2;
  }

  /** The effective subtraction; exact cancellation is a zero whose sign is the mode's. */
  method SubtractFractions(a: Ufp, b: Ufp, mode: Mode) returns (r: Ufp)
    requires Operand(a) && Operand(b) && Ordered(a, b) && a.sign != b.sign
    ensures SumAt(a, b) == 0 ==> r == Ufp(mode == MinusInf, 0, 0)
    ensures SumAt(a, b) != 0 ==> r.sign == a.sign && Represents(r, Abs(SumAt(a, b)), b.exp)
  {
    hide Sticky, Represents, SumAt, Pow2;
    var small := Align(b.frac, a.exp - b.exp);
    DifferenceSmall(a, b);
    var diff := a.frac - small;
    r := Norm(a.(frac := diff));
    if r.frac == 0 {
      r := r.(sign := mode == MinusInf);
    } else {
      DifferenceRepresents(a, b, diff, r);
    }
  }

  lemma DifferenceSmall(a: Ufp, b: Ufp)
    requires Operand(a) && Operand(b) && Ordered(a, b) && a.sign != b.sign
    ensures Sticky(b.frac, a.exp - b.exp) <= a.frac
    ensures a.frac == Sticky(b.frac, a.exp - b.exp) <==> SumAt(a, b) == 0
  {
    GuardedEven(a.frac);
    hide Sticky, SumAt, Pow2, Scaled, Guarded;
    var k := a.exp - b.exp;
    ExactSum(a, b);
    StickySub(a.frac, b.frac, k);
    StickyZero(Scaled(a.frac, k) - b.frac, k);
  }

  lemma DifferenceRepresents(a: Ufp, b: Ufp, diff: nat, r: Ufp)
    requires Operand(a) && Operand(b) && Ordered(a, b) && a.sign != b.sign
    requires Sticky(b.frac, a.exp - b.exp) <= a.frac && diff == a.frac - Sticky(b.frac, a.exp - b.exp)
    requires TOP <= r.frac < WORD && a.exp - 63 <= r.exp <= a.exp && r.frac == Scaled(diff, a.exp - r.exp)
    ensures Represents(r, Abs(SumAt(a, b)), b.exp)
  {
    GuardedEven(a.frac);
    hide Sticky, Stands, Represents, SumAt, Pow2, Scaled, Guarded;
    var k, m := a.exp - b.exp, a.exp - r.exp;
    ExactSum(a, b);
    StickySub(a.frac, b.frac, k);
    Renormalized(a.frac, b.frac, k, m, diff, r.frac);
    ShiftedRepresents(r, b.exp, Scaled(a.frac, k) - b.frac, k, m);
  }

  lemma ShiftedRepresents(r: Ufp, e: int, exact: nat, k: nat, m: nat)
    requires TOP <= r.frac < WORD && m <= 63 && r.exp == e + k - m
    requires Stands(r.frac, Scaled(exact, m), Pow2(k), 2)
    ensures Represents(r, exact, e)
  {
    hide Stands, Normal, Denotes, Pow2, Scaled;
    StandsNormal(r.frac, Scaled(exact, m), Pow2(k), 2);
    ShiftedDenotes(exact, k, m);
    assert RepresentsBy(r, exact, e, Scaled(exact, m), Pow2(k));
  }

  lemma ShiftedDenotes(x: nat, k: nat, m: nat)
    ensures Denotes(Scaled(x, m), Pow2(k), k - m, x)
  {
    if k >= m {
      Pow2Add(m, k - m);
      MulAssoc(x, Pow2(m), Pow2(k - m));
    } else {
      Pow2Add(k, m - k);
      MulAssoc(x, Pow2(k), Pow2(m - k));
    }
  }

  /** A difference shifted left by two or more had nothing shifted off: no sticky bit is lost. */
  lemma Renormalized(a: nat, b: nat, k: nat, m: nat, diff: nat, f: nat)
    requires TOP <= a < WORD && TOP <= b < WORD && Guarded(b) && b <= Scaled(a, k)
    requires Sticky(b, k) <= a && diff == a - Sticky(b, k) == Sticky(Scaled(a, k) - b, k)
    requires f == Scaled(diff, m) && TOP <= f < WORD
    ensures Stands(f, Scaled(Scaled(a, k) - b, m), Pow2(k), 2)
  {
    var exact := Scaled(a, k) - b;
    SumStands(exact, k);
    if m == 0 {
      assert Scaled(diff, 0) == diff && Scaled(exact, 0) == exact;
      hide Sticky, Stands, Scaled, Pow2;
      StandsCoarser(diff, exact, Pow2(k), 1, 2);
    } else if m == 1 {
      assert Scaled(diff, 1) == 2 * diff && Scaled(exact, 1) == 2 * exact by { assert Pow2(1) == 2; }
      hide Sticky, Stands, Scaled, Pow2;
      StandsDouble(diff, exact, Pow2(k), 1);
    } else {
      assert diff < 0x4000_0000_0000_0000 by { QuarterScaled(diff, m); }
      hide Sticky, Stands, Scaled, Pow2;
      CloseExponents(a, b, k, diff);
      ScaledTwice(diff, k, m);
      StandsExact(f, Pow2(k), 2);
    }
  }

  lemma QuarterScaled(diff: nat, m: nat)
    requires m >= 2 && Scaled(diff, m) < WORD
    ensures diff < 0x4000_0000_0000_0000
  {
    Pow2Mono(2, m);
    MulMono(4, Pow2(m), diff);
  }

  lemma ScaledTwice(x: nat, k: nat, m: nat)
    ensures Scaled(Scaled(x, k), m) == Scaled(x, m) * Pow2(k)
  {
    MulAssoc(x, Pow2(k), Pow2(m));
  }

  lemma CloseExponents(a: nat, b: nat, k: nat, diff: nat)
    requires TOP <= a < WORD && b < WORD && Guarded(b)
    requires Sticky(b, k) <= a && diff == a - Sticky(b, k) < 0x4000_0000_0000_0000
    ensures Scaled(a, k) - b == Scaled(diff, k)
  {
    if k >= 2 {
      Pow2Mono(2, k);
      QuarterSticky(b, k);
    } else if k == 1 {
      assert Pow2(1) == 2;
      assert b % 2 == 0;
    }
  }

  lemma QuarterSticky(b: nat, k: nat)
    requires k >= 2 && b < WORD && Pow2(k) >= 4
    ensures Sticky(b, k) <= 0x4000_0000_0000_0000
  {
    MulMono(4, Pow2(k), 0x4000_0000_0000_0000);
    QuotientRange(b, Pow2(k), 0, 0x4000_0000_0000_0000);
  }

  // ---- ieee_fadd -------------------------------------------------------------------------------

  predicate IsNumber(op: Word, flush: bool) { KindOf(op, flush) in {UZero, UFinite} }

  /** The exact result of the instruction, in the unit 2^-(1023 + 63). */
  ghost function Exact(s1: Word, s2: Word, sub: bool, flush: bool): int {
    Signed(s1, flush) + (if sub then -Signed(s2, flush) else Signed(s2, flush))
  }

  /** The sign of an exact zero: that of two zeros alike, else plus, but minus when rounding toward
      minus infinity (section 6.3 of IEEE 754). */
  predicate ZeroSign(s1: Word, s2: Word, sub: bool, mode: Mode, flush: bool) {
    var neg2 := SignOf(s2) != sub;
    if KindOf(s1, flush) == UZero && KindOf(s2, flush) == UZero && SignOf(s1) == neg2 then neg2 else mode == MinusInf
  }

  ghost predicate CorrectSum(res: Word, flags: Flags, exact: int, zeroNeg: bool, mode: Mode, fmt: Format) {
    if exact == 0 then res == SignBit(zeroNeg) && flags == Flags(false, false, false)
    else Delivers(res, flags, Round(exact < 0, Abs(exact), mode, fmt), fmt)
  }

  /** An operand ieee_unpack raises an invalid operation for: a denormal, or a signalling NaN. */
  predicate Signals(op: Word, flush: bool) {
    KindOf(op, flush) == UDenormal || (KindOf(op, flush) == UNaN && FracOf(op) < QNAN)
  }

  /** Infinities whose sum or difference is none. */
  predicate Opposed(s1: Word, s2: Word, sub: bool, flush: bool) {
    KindOf(s1, flush) == UInfinite && KindOf(s2, flush) == UInfinite && (SignOf(s1) == SignOf(s2)) == sub
  }

  /** ieee_fadd: for zero and normal operands, both formats and all modes, the exact sum or
      difference correctly rounded, with its overflow, underflow and inexact flags; infinities and
      NaNs by the IEEE rules. Denormal operands only raise the invalid operation. */
  method AddSub(s1: Word, s2: Word, sub: bool, mode: Mode, fmt: Format, flush: bool)
    returns (res: Word, flags: Flags, invalid: bool)
    ensures IsNumber(s1, flush) && IsNumber(s2, flush) ==>
              !invalid && CorrectSum(res, flags, Exact(s1, s2, sub, flush),
                                     ZeroSign(s1, s2, sub, mode, flush), mode, fmt)
    ensures invalid <==> Signals(s1, flush) || Signals(s2, flush) || Opposed(s1, s2, sub, flush)
    ensures KindOf(s1, flush) in {UNaN, UInfinite} || KindOf(s2, flush) in {UNaN, UInfinite} ==>
              flags == Flags(false, false, false)
    ensures KindOf(s2, flush) == UNaN ==> res == Quiet(s2, fmt)
    ensures KindOf(s2, flush) != UNaN && KindOf(s1, flush) == UNaN ==> res == Quiet(s1, fmt)
    ensures Opposed(s1, s2, sub, flush) ==> res == CANONICAL_NAN
    ensures KindOf(s1, flush) == UInfinite && KindOf(s2, flush) != UNaN && !Opposed(s1, s2, sub, flush) ==> res == s1
    ensures KindOf(s2, flush) == UInfinite && KindOf(s1, flush) != UNaN && !Opposed(s1, s2, sub, flush) ==>
              res == SignBit(SignOf(s2) != sub) + PLUS_INF
  {
    hide CorrectSum, Delivers, Pow2, Exact, ZeroSign, Quiet, FracOf, ExpOf, SignOf;
    var ka, a, ia := Unpack(s1, flush);
    var kb, b, ib := Unpack(s2, flush);
    if ka == UNaN || kb == UNaN || ka == UInfinite || kb == UInfinite {
      var opposed;
      res, opposed := Special(s1, s2, sub, fmt, flush);
      return res, Flags(false, false, false), ia || ib || opposed;
    }
    invalid := ia || ib;
    res, flags := AddFinite(a, if sub then b.(sign := !b.sign) else b, ka == UZero, kb == UZero, mode, fmt);
    if IsNumber(s1, flush) && IsNumber(s2, flush) {
      NumbersSum(s1, s2, sub, mode, flush, a, b);
    }
  }

  /** The exact sum of two numbers, and a zero one's sign, from their fields. */
  lemma NumbersSum(s1: Word, s2: Word, sub: bool, mode: Mode, flush: bool, a: Ufp, b: Ufp)
    requires IsNumber(s1, flush) && IsNumber(s2, flush) && a.sign == SignOf(s1) && b.sign == SignOf(s2)
    requires KindOf(s1, flush) == UZero ==> a.exp == 0 && a.frac == 0
    requires KindOf(s1, flush) == UFinite ==> a.exp == ExpOf(s1) && a.frac == (FRAC + FracOf(s1)) * 0x800
    requires KindOf(s2, flush) == UZero ==> b.exp == 0 && b.frac == 0
    requires KindOf(s2, flush) == UFinite ==> b.exp == ExpOf(s2) && b.frac == (FRAC + FracOf(s2)) * 0x800
    ensures var c := if sub then b.(sign := !b.sign) else b;
            && a.exp >= 0 && c.exp >= 0 && Exact(s1, s2, sub, flush) == Total(a) + Total(c)
            && ZeroSign(s1, s2, sub, mode, flush) ==
               if KindOf(s1, flush) == UZero && KindOf(s2, flush) == UZero && a.sign == c.sign
               then a.sign else mode == MinusInf
  {
    SignedIs(s1, flush, a);
    SignedIs(s2, flush, b);
    hide Signed, SignOf, ExpOf, FracOf, Scaled;
  }

  /** A NaN is quieted, the second operand's first; an infinity is the result, unless it is opposed. */
  method Special(s1: Word, s2: Word, sub: bool, fmt: Format, flush: bool) returns (res: Word, opposed: bool)
    requires KindOf(s1, flush) in {UNaN, UInfinite} || KindOf(s2, flush) in {UNaN, UInfinite}
    ensures opposed <==> Opposed(s1, s2, sub, flush)
    ensures KindOf(s2, flush) == UNaN ==> res == Quiet(s2, fmt)
    ensures KindOf(s2, flush) != UNaN && KindOf(s1, flush) == UNaN ==> res == Quiet(s1, fmt)
    ensures opposed ==> res == CANONICAL_NAN
    ensures KindOf(s1, flush) == UInfinite && KindOf(s2, flush) != UNaN && !opposed ==> res == s1
    ensures KindOf(s2, flush) == UInfinite && KindOf(s1, flush) != UNaN && !opposed ==>
              res == SignBit(SignOf(s2) != sub) + PLUS_INF
  {
    opposed := false;
    if KindOf(s2, flush) == UNaN {
      return Quiet(s2, fmt), false;
    }
    if KindOf(s1, flush) == UNaN {
      return Quiet(s1, fmt), false;
    }
    if KindOf(s2, flush) == UInfinite {
      InfinityWord(s2);
      if KindOf(s1, flush) == UInfinite {
        InfinityWord(s1);
        if SignOf(s1) != (SignOf(s2) != sub) {
          return CANONICAL_NAN, true;
        }
      }
      return if !sub then s2 else if SignOf(s2) then s2 - TOP else s2 + TOP, false;
    }
    res := s1;
  }

  lemma InfinityWord(op: Word)
    requires ExpOf(op) == 2047 && FracOf(op) == 0
    ensures op == SignBit(SignOf(op)) + PLUS_INF
  {
  }

  ghost predicate Unpacked(a: Ufp, zero: bool) {
    if zero then a.exp == 0 && a.frac == 0 else Operand(a)
  }

  ghost function Total(a: Ufp): int
    requires a.exp >= 0
  {
    Weighted(a, 0)
  }

  lemma SignedIs(op: Word, flush: bool, a: Ufp)
    requires IsNumber(op, flush) && a.sign == SignOf(op)
    requires KindOf(op, flush) == UZero ==> a.exp == 0 && a.frac == 0
    requires KindOf(op, flush) == UFinite ==> a.exp == ExpOf(op) && a.frac == (FRAC + FracOf(op)) * 0x800
    ensures a.exp >= 0 && Signed(op, flush) == Total(a)
  {
  }

  /** Rounding what represents s * 2^e is rounding s * 2^e. */
  lemma RepresentedRounds(r: Ufp, s: nat, e: nat, mode: Mode, fmt: Format)
    requires s > 0 && Represents(r, s, e)
    ensures s * Pow2(e) > 0
    ensures Round(r.sign, s * Pow2(e), mode, fmt) == RoundNormal(r.sign, r.frac, 1, r.exp, mode, fmt)
  {
    hide RoundNormal, Round, Stands, Denotes, Normal;
    var n, d :| RepresentsBy(r, s, e, n, d);
    PositiveProduct(s, Pow2(e));
    RoundNormalStands(r.sign, r.frac, n, d, 2, r.exp, mode, fmt);
    DenotesScaled(n, d, r.exp - e, s, e);
    RoundDenotes(r.sign, n, d, r.exp, s * Pow2(e), mode, fmt);
  }

  lemma Alone(a: Ufp, mode: Mode, fmt: Format)
    requires Operand(a) && a.exp >= 0
    ensures Total(a) != 0 && (Total(a) < 0 <==> a.sign)
    ensures Round(a.sign, Abs(Total(a)), mode, fmt) == RoundNormal(a.sign, a.frac, 1, a.exp, mode, fmt)
  {
    hide RoundNormal, Round;
    PositiveProduct(a.frac, Pow2(a.exp));
    StandsExact(a.frac, 1, 2);
    assert RepresentsBy(a, a.frac, a.exp, a.frac, 1);
    RepresentedRounds(a, a.frac, a.exp, mode, fmt);
  }

  lemma WeightedScale(a: Ufp, e: nat)
    requires e <= a.exp
    ensures Total(a) == Weighted(a, e) * Pow2(e)
  {
    Pow2Add(a.exp - e, e);
    MulAssoc(a.frac, Pow2(a.exp - e), Pow2(e));
    SignedProduct(Weighted(a, e), Pow2(e));
  }

  lemma TotalIsSum(a: Ufp, b: Ufp)
    requires Operand(a) && Operand(b) && Ordered(a, b) && b.exp >= 0
    ensures Total(a) + Total(b) == SumAt(a, b) * Pow2(b.exp)
  {
    hide Weighted, Pow2;
    WeightedScale(a, b.exp);
    WeightedScale(b, b.exp);
    Distribute(Weighted(a, b.exp), Weighted(b, b.exp), Pow2(b.exp));
  }

  lemma Distribute(x: int, y: int, p: int)
    ensures (x + y) * p == x * p + y * p
  {
  }

  lemma SumSign(a: Ufp, b: Ufp)
    requires Operand(a) && Operand(b) && Ordered(a, b) && SumAt(a, b) != 0
    ensures SumAt(a, b) < 0 <==> a.sign
  {
    ExactSum(a, b);
  }

  lemma Together(a: Ufp, b: Ufp, r: Ufp, mode: Mode, fmt: Format)
    requires Operand(a) && Operand(b) && Ordered(a, b) && b.exp >= 0
    requires SumAt(a, b) != 0 && r.sign == a.sign && Represents(r, Abs(SumAt(a, b)), b.exp)
    ensures var t := Total(a) + Total(b);
            && t != 0 && (t < 0 <==> a.sign)
            && Round(a.sign, Abs(t), mode, fmt) == RoundNormal(r.sign, r.frac, 1, r.exp, mode, fmt)
  {
    hide RoundNormal, Round, SumAt, Represents;
    TotalIsSum(a, b);
    SumSign(a, b);
    var s, p := SumAt(a, b), Pow2(b.exp);
    RepresentedRounds(r, Abs(s), b.exp, mode, fmt);
    SignedProduct(s, p);
  }

  lemma SignedProduct(s: int, p: nat)
    requires p > 0
    ensures Abs(s * p) == Abs(s) * p && (s * p < 0 <==> s < 0) && (s * p == 0 <==> s == 0)
  {
    MulCancelLess(s, 0, p);
    MulCancelLess(0, s, p);
  }

  /** Two nonzero operands, the larger taken first. */
  method AddNonzero(a0: Ufp, b0: Ufp, mode: Mode, ghost fmt: Format) returns (r: Ufp)
    requires Operand(a0) && Operand(b0)
    ensures r.frac == 0 || TOP <= r.frac < WORD
    ensures a0.exp >= 0 && b0.exp >= 0 ==> Sums(r, Total(a0) + Total(b0), mode, fmt)
  {
    hide RoundNormal, Round, SumAt, Pow2, Scaled, Guarded, Total, Sums, Represents;
    var a, b := a0, b0;
    if a.exp < b.exp || (a.exp == b.exp && a.frac < b.frac) {
      a, b := b, a;
    }
    if a.sign != b.sign {
      r := SubtractFractions(a, b, mode);
    } else {
      SameSignSum(a, b);
      r := AddFractions(a, b);
    }
    if SumAt(a, b) != 0 { RepresentsRange(r, Abs(SumAt(a, b)), b.exp); }
    if b.exp >= 0 { SumsUp(a, b, r, mode, fmt); }
  }

  /** The unpacked r rounds as the exact value t: correctly, a zero with the mode's sign. */
  ghost predicate Sums(r: Ufp, t: int, mode: Mode, fmt: Format) {
    if t == 0 then r == Ufp(mode == MinusInf, 0, 0)
    else TOP <= r.frac < WORD && Round(t < 0, Abs(t), mode, fmt) == RoundNormal(r.sign, r.frac, 1, r.exp, mode, fmt)
  }

  lemma RepresentsRange(r: Ufp, s: nat, e: int)
    requires Represents(r, s, e)
    ensures TOP <= r.frac < WORD
  {
  }

  lemma SameSignSum(a: Ufp, b: Ufp)
    requires Operand(a) && Operand(b) && Ordered(a, b) && a.sign == b.sign
    ensures SumAt(a, b) != 0
  {
    hide SumAt, Scaled;
    ExactSum(a, b);
  }

  lemma SumsUp(a: Ufp, b: Ufp, r: Ufp, mode: Mode, fmt: Format)
    requires Operand(a) && Operand(b) && Ordered(a, b) && b.exp >= 0
    requires SumAt(a, b) == 0 ==> r == Ufp(mode == MinusInf, 0, 0)
    requires SumAt(a, b) != 0 ==> r.sign == a.sign && Represents(r, Abs(SumAt(a, b)), b.exp)
    ensures a.exp >= 0 && Sums(r, Total(a) + Total(b), mode, fmt)
  {
    hide RoundNormal, Round, SumAt, Represents, Total, Operand, Pow2;
    TotalIsSum(a, b);
    if SumAt(a, b) != 0 {
      Together(a, b, r, mode, fmt);
      RepresentsRange(r, Abs(SumAt(a, b)), b.exp);
    }
  }

  method AddFinite(a0: Ufp, b0: Ufp, za: bool, zb: bool, mode: Mode, fmt: Format) returns (res: Word, flags: Flags)
    requires Unpacked(a0, za) && Unpacked(b0, zb)
    ensures a0.exp >= 0 && b0.exp >= 0 ==>
              CorrectSum(res, flags, Total(a0) + Total(b0),
                         if za && zb && a0.sign == b0.sign then a0.sign else mode == MinusInf,
                         mode, fmt)
  {
    hide RoundNormal, Round, SumAt, Delivers, Pow2, Guarded;
    var a := a0;
    if za {
      if zb && a0.sign != b0.sign {
        a := Ufp(mode == MinusInf, 0, 0);
      } else {
        a := b0;
      }
      if !zb && b0.exp >= 0 { Alone(b0, mode, fmt); }
    } else if !zb {
      a := AddNonzero(a0, b0, mode, fmt);
    } else if a0.exp >= 0 {
      Alone(a0, mode, fmt);
    }
    res, flags := RoundAndPack(a, mode, fmt);
  }
}
