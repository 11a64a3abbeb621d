/** ieee_cvtfi_n (src/cpu/AlphaCPU_ieeefloat.cpp): a floating number to a quadword or a longword. */
module IeeeConvert {
  import opened Bits
  import opened Rounding
  import opened Ieee
  import opened IeeeAdd

  /** 1.0 in the operands' unit 2^-(1023 + 63). */
  const ONE_EXP := 1086

  /** The operand's magnitude rounded to an integer: the reference. */
  ghost function IntegerOf(op: Word, mode: Mode, flush: bool): nat {
    RoundDiv(Magnitude(op, flush), Pow2(ONE_EXP), mode, SignOf(op))
  }

  /** The low 64 bits of the signed integer, in two's complement. */
  function LowWord(neg: bool, m: nat): Word {
    if neg then (WORD - m % WORD) % WORD else m % WORD
  }

  function Limit(l32: bool): nat { if l32 then 0x8000_0000 else TOP }

  predicate OutOfRange(neg: bool, m: nat, l32: bool) {
    if neg then m > Limit(l32) else m > Limit(l32) - 1
  }

  /** The bits shifted off, at the top of a word. */
  ghost predicate ShiftedOff(sticky: nat, frac: nat, sh: nat) {
    var r, p := frac % Pow2(sh), Pow2(sh);
    && (sticky == 0 <==> r == 0)
    && (sticky >= TOP <==> 2 * r >= p)
    && (sticky == TOP <==> 2 * r == p)
  }

  lemma ShiftOut(frac: nat, sh: nat, u: nat)
    requires sh >= 1 && Pow2(sh) * u == WORD && TOP <= frac < WORD
    ensures ShiftedOff(frac * u % WORD, frac, sh)
    ensures frac / Pow2(sh) < TOP
  {
    var p := Pow2(sh);
    var r := frac % p;
    DivScale(frac, p, u);
    MulCancelLess(2 * r, p, u);
    MulCancelLess(p, 2 * r, u);
    MulCancelLess(0, r, u);
    MulAssoc(2, r, u);
    Pow2Mono(1, sh);
    HalfOrLess(frac, p, TOP);
  }

  lemma AllShiftedOut(frac: nat, sh: nat)
    requires TOP <= frac < WORD && sh >= 64
    ensures frac / Pow2(sh) == 0
    ensures ShiftedOff(if sh == 64 then frac else 1, frac, sh)
  {
    assert Pow2(64) == WORD by { Pow2Values(); }
    Pow2Mono(64, sh);
    if sh > 64 { Pow2Mono(65, sh); }
    DivUnique(frac, Pow2(sh), 0, frac);
  }

  /** The rounding step on the quotient and the bits shifted off. */
  lemma RoundUp(frac: nat, sh: nat, sticky: nat, mode: Mode, neg: bool)
    requires ShiftedOff(sticky, frac, sh)
    ensures RoundDiv(frac, Pow2(sh), mode, neg) == Adjusted(frac / Pow2(sh), sticky, mode, neg)
  {
    var q := frac / Pow2(sh);
    if q % 2 == 0 { assert (q + 1) % 2 == 1; } else { assert (q + 1) % 2 == 0; }
  }

  lemma AtScale(op: Word, mode: Mode, flush: bool, frac: nat)
    requires KindOf(op, flush) == UFinite && frac == (FRAC + FracOf(op)) * 0x800
    ensures var sh := ONE_EXP - ExpOf(op);
            if sh >= 0 then
              && IntegerOf(op, mode, flush) == RoundDiv(frac, Pow2(sh), mode, SignOf(op))
              && (Magnitude(op, flush) % Pow2(ONE_EXP) == 0 <==> frac % Pow2(sh) == 0)
            else
              && IntegerOf(op, mode, flush) == frac * Pow2(-sh)
              && Magnitude(op, flush) % Pow2(ONE_EXP) == 0
  {
    hide Pow2;
    var e := ExpOf(op);
    var m, d := frac * Pow2(e), Pow2(ONE_EXP);
    assert Magnitude(op, flush) == m;
    if e <= ONE_EXP {
      var p := Pow2(ONE_EXP - e);
      assert m * p == frac * d by { Pow2Add(e, ONE_EXP - e); MulAssoc(frac, Pow2(e), p); }
      RoundRatio(m, d, frac, p, mode, SignOf(op));
    } else {
      var p := Pow2(e - ONE_EXP);
      assert m == (frac * p) * d by { Pow2Add(e - ONE_EXP, ONE_EXP); MulAssoc(frac, p, d); }
      DivUnique(m, d, frac * p, 0);
    }
  }

  /** The integer part and the bits shifted off. */
  method Split(frac: nat, ubexp: int) returns (q: nat, sticky: nat, ovf: bool)
    requires TOP <= frac < WORD
    ensures ubexp <= 63 ==> q == frac / Pow2(63 - ubexp) && ShiftedOff(sticky, frac, 63 - ubexp) && !ovf
    ensures ubexp <= 63 ==> q < WORD && (sticky != 0 ==> q < TOP)
    ensures ubexp > 63 ==> q == frac * Pow2(ubexp - 63) % WORD && frac * Pow2(ubexp - 63) >= WORD && sticky == 0 && ovf
  {
    hide ShiftedOff, Pow2;
    q, sticky, ovf := frac, 0, false;
    if ubexp < 0 {
      AllShiftedOut(frac, 63 - ubexp);
      sticky := if ubexp == -1 then frac else 1;
      q := 0;
    } else if ubexp <= 63 {
      var sh := 63 - ubexp;
      if sh == 0 {
        NothingShifted(frac);
      } else {
        assert Pow2(sh) * Pow2(64 - sh) == WORD by { Pow2Add(sh, 64 - sh); Pow2Values(); }
        ShiftOut(frac, sh, Pow2(64 - sh));
        sticky := frac * Pow2(64 - sh) % WORD;
        q := frac / Pow2(sh);
      }
    } else {
      TooLarge(frac, ubexp - 63);
      q := if ubexp - 63 > 63 then 0 else frac * Pow2(ubexp - 63) % WORD;
      ovf := true;
    }
  }

  function Increments(sticky: nat, mode: Mode, neg: bool): bool {
    (mode == Nearest && sticky >= TOP) || (Away(mode, neg) && sticky != 0)
  }

  function Adjusted(q: nat, sticky: nat, mode: Mode, neg: bool): nat {
    if !Increments(sticky, mode, neg) then q
    else if mode == Nearest && sticky == TOP then q + 1 - (q + 1) % 2
    else q + 1
  }

  lemma AdjustedWord(q: nat, sticky: nat, mode: Mode, neg: bool)
    requires q < WORD && (sticky != 0 ==> q < TOP)
    ensures Adjusted(q, sticky, mode, neg) < WORD
    ensures Increments(sticky, mode, neg) ==>
              Adjusted(q, sticky, mode, neg) == if mode == Nearest && sticky == TOP then q + 1 - (q + 1) % 2 else q + 1
  {
  }

  /** The rounding increment and the range checks: m is the exact integer. */
  method Finish(q: nat, sticky: nat, over: bool, mode: Mode, neg: bool, l32: bool, ghost m: nat)
    returns (res: Word, overflow: bool)
    requires q < WORD
    requires over ==> sticky == 0 && m >= WORD && q == m % WORD
    requires !over ==> m == Adjusted(q, sticky, mode, neg) && (sticky != 0 ==> q < TOP)
    ensures res == LowWord(neg, m) && (overflow <==> OutOfRange(neg, m, l32))
  {
    hide Away;
    var frac := q;
    overflow := over;
    if (mode == Nearest && sticky >= TOP) || (Away(mode, neg) && sticky != 0) {
      frac := (frac + 1) % WORD;
      if frac == 0 {
        overflow := true;
      }
      if mode == Nearest && sticky == TOP {
        frac := frac - frac % 2;
      }
    }
    assert frac == m % WORD && (overflow <==> m >= WORD) by { AdjustedWord(q, sticky, mode, neg); }
    hide Adjusted, Increments;
    if frac > (if neg then Limit(l32) else Limit(l32) - 1) {
      overflow := true;
    }
    res := if neg then (WORD - frac) % WORD else frac;
  }

  /** ieee_cvtfi_n: for every zero or normal operand the correctly rounded integer's low 64 bits;
      integer overflow exactly when it is out of the target's range, inexact exactly when the operand
      is not integral. Infinities and NaNs give 0 and an invalid operation. */
  method Convert(op: Word, mode: Mode, l32: bool, flush: bool)
    returns (res: Word, overflow: bool, inexact: bool, invalid: bool)
    ensures IsNumber(op, flush) ==>
              && res == LowWord(SignOf(op), IntegerOf(op, mode, flush))
              && (overflow <==> OutOfRange(SignOf(op), IntegerOf(op, mode, flush), l32))
              && (inexact <==> Magnitude(op, flush) % Pow2(ONE_EXP) != 0)
              && !invalid
    ensures !IsNumber(op, flush) ==> res == 0 && !overflow && !inexact && invalid
  {
    hide RoundDiv, Pow2, ShiftedOff, IntegerOf, Magnitude, FracOf, SignOf, ExpOf, Adjusted, LowWord, OutOfRange;
    var kind, a, inv := Unpack(op, flush);
    invalid := inv;
    if kind == UDenormal {
      return 0, false, false, invalid;
    }
    if kind == UInfinite || kind == UNaN {
      return 0, false, false, true;
    }
    if kind == UZero {
      ZeroConverts(op, mode, flush, l32);
      return 0, false, false, invalid;
    }
    var ubexp := a.exp - 1023;
    var frac, sticky, ovf := Split(a.frac, ubexp);
    AtScale(op, mode, flush, a.frac);
    if ubexp <= 63 {
      RoundUp(a.frac, 63 - ubexp, sticky, mode, a.sign);
      StickyMeans(a.frac, 63 - ubexp, sticky);
    }
    res, overflow := Finish(frac, sticky, ovf, mode, a.sign, l32, IntegerOf(op, mode, flush));
    inexact := sticky != 0;
  }

  lemma StickyMeans(frac: nat, sh: nat, sticky: nat)
    requires ShiftedOff(sticky, frac, sh)
    ensures sticky == 0 <==> frac % Pow2(sh) == 0
  {
  }

  lemma NothingShifted(frac: nat)
    ensures ShiftedOff(0, frac, 0) && frac / Pow2(0) == frac
  {
  }

  lemma ZeroConverts(op: Word, mode: Mode, flush: bool, l32: bool)
    requires KindOf(op, flush) == UZero
    ensures IntegerOf(op, mode, flush) == 0 && Magnitude(op, flush) % Pow2(ONE_EXP) == 0
    ensures LowWord(SignOf(op), 0) == 0 && !OutOfRange(SignOf(op), 0, l32)
  {
    hide Pow2;
    DivUnique(0, Pow2(ONE_EXP), 0, 0);
  }

  lemma TooLarge(frac: nat, k: nat)
    requires TOP <= frac < WORD && k >= 1
    ensures frac * Pow2(k) >= WORD
    ensures k > 63 ==> (frac * Pow2(k)) % WORD == 0
  {
    hide Pow2;
    assert Pow2(k) >= 2 by { PowerAtLeastTwo(k); }
    AtLeastDouble(frac, Pow2(k));
    if k > 63 {
      var c := Pow2(k - 64);
      assert Pow2(k) == c * WORD by { Pow2Add(k - 64, 64); Pow2Values(); }
      Multiple(frac, c, WORD);
    }
  }

  lemma PowerAtLeastTwo(k: nat)
    requires k >= 1
    ensures Pow2(k) >= 2
  {
  }

  lemma AtLeastDouble(f: nat, p: nat)
    requires TOP <= f && p >= 2
    ensures f * p >= WORD
  {
    MulMono(2, p, f);
  }

  lemma Multiple(f: nat, c: nat, w: nat)
    requires w > 0
    ensures (f * (c * w)) % w == 0
  {
    MulAssoc(f, c, w);
    DivUnique(f * (c * w), w, f * c, 0);
  }

  /** The target's range, and two's complement: what Convert's result and overflow say of the signed
      integer. */
  lemma TargetIs(neg: bool, m: nat, l32: bool)
    ensures var v: int := if neg then -(m as int) else m;
            && (!OutOfRange(neg, m, l32) <==>
                  if l32 then -0x8000_0000 <= v <= 0x7FFF_FFFF
                  else -0x8000_0000_0000_0000 <= v <= 0x7FFF_FFFF_FFFF_FFFF)
            && (v - LowWord(neg, m)) % 0x1_0000_0000_0000_0000 == 0
  {
    DivMod(m, WORD);
    var k: int, q: int, r: int := m, m / WORD, m % WORD;
    if !neg {
      DivUnique(k - r, WORD, q, 0);
    } else if r == 0 {
      DivUnique(-k, WORD, -q, 0);
    } else {
      DivUnique(-k - (WORD - r), WORD, -q - 1, 0);
    }
  }
}
