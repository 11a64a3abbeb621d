/** Vector loads, stores, gathers and scatters with their restart (src/cpu/AlphaCPU_vector.cpp:
    tarantula_mem; src/cpu/Tarantula.hpp: Restart): every element checked before any is accessed, and
    the translations made kept across a fault. */
module Vector {
  import opened Bits

  const ELEMS: nat := 128
  const REGS: nat := 32

  datatype Option = None | Some(value: Word)

  /** The decoded instruction; word tells one instruction from another. */
  datatype Instr = Instr(gather: bool, store: bool, masked: bool, vt: nat, vx: nat, word: nat)

  datatype Kept = Kept(va: Word, pa: Word)

  // What an instruction kept, by element, and what the TB answers for each element in one attempt.
  type Translations = map<nat, Kept>
  type TbAnswers = seq<Option>

  /** Restart: the translations of the instruction that faulted, and where and when it did. */
  datatype Restart = Restart(valid: bool, pc: Word, word: nat, cm: nat, asn: nat, gen: nat, kept: Translations)

  datatype Outcome = Done | Unaligned(elem: nat, va: Word) | Missed(elem: nat)

  // ---- What the check decides ------------------------------------------------------------------

  /** The elements of one execution: which are active, and their addresses. */
  datatype Plan = Plan(active: seq<bool>, ea: seq<Word>)

  /** Element i at Rb + i * vs, or at Vx[i] + Rb, wrapping. */
  function Address(ins: Instr, base: Word, vs: Word, index: seq<Word>, i: nat): Word
    requires i < |index|
  {
    if ins.gather then (index[i] + base) % WORD else (base + i * vs) % WORD
  }

  /** The elements of an instruction, from the registers it reads; index is Vx. */
  function Elements(ins: Instr, base: Word, vl: nat, vs: Word, vm: seq<bool>, index: seq<Word>): (p: Plan)
    requires vl <= |vm| == |index|
    ensures |p.ea| == |p.active| == vl
    ensures forall i :: 0 <= i < vl ==>
              p.active[i] == (!ins.masked || vm[i]) && p.ea[i] == Address(ins, base, vs, index, i)
  {
    Plan(seq(vl, i requires 0 <= i < vl => !ins.masked || vm[i]),
         seq(vl, i requires 0 <= i < vl => Address(ins, base, vs, index, i)))
  }

  /** A strided access starts at Rb and steps by vs, modulo 2^64; a gather's address less Rb is its
      index. */
  lemma AddressSteps(ins: Instr, base: Word, vs: Word, index: seq<Word>, i: nat)
    requires i < |index|
    ensures !ins.gather && i == 0 ==> Address(ins, base, vs, index, i) == base
    ensures !ins.gather && i > 0 ==>
              Address(ins, base, vs, index, i) == (Address(ins, base, vs, index, i - 1) + vs) % WORD
    ensures ins.gather ==> (Address(ins, base, vs, index, i) + (WORD - base)) % WORD == index[i]
  {
    if ins.gather {
      Gathered(index[i], base, WORD);
    } else if i > 0 {
      Times(i, vs);
      Strided(base, (i - 1) * vs, vs, i * vs, WORD);
    } else {
      DivUnique(base, WORD, 0, base);
    }
  }

  lemma Gathered(x: nat, base: nat, m: nat)
    requires x < m && base < m
    ensures ((x + base) % m + (m - base)) % m == x
  {
    ModAdds(x + base, m - base, m);
    DivUnique(x + m, m, 1, x);
  }

  lemma Strided(base: nat, steps: nat, vs: nat, next: nat, m: nat)
    requires m > 0 && next == steps + vs
    ensures (base + next) % m == ((base + steps) % m + vs) % m
  {
    ModAdds(base + steps, vs, m);
    assert base + next == base + steps + vs;
  }

  lemma Times(i: nat, vs: nat)
    requires i > 0
    ensures i * vs == (i - 1) * vs + vs && (i - 1) * vs >= 0
  {
  }

  lemma ModAdds(a: nat, b: nat, m: nat)
    requires m > 0
    ensures (a % m + b) % m == (a + b) % m
  {
    DivMod(a, m);
    DivMod(a % m + b, m);
    DivUnique(a + b, m, a / m + (a % m + b) / m, (a % m + b) % m);
  }

  predicate PlanOk(p: Plan) { |p.active| == |p.ea| <= ELEMS }

  /** A kept translation serves the element. */
  predicate Serves(kept: Translations, i: nat, ea: Word) { i in kept && kept[i].va == ea }

  /** The element faults: unaligned, or neither kept nor translated. xl is what the TB answers for each
      element in this attempt. */
  predicate Fails(p: Plan, kept: Translations, xl: TbAnswers, i: nat)
    requires PlanOk(p) && |xl| == ELEMS && i < |p.ea|
  {
    p.ea[i] % 8 != 0 || (!Serves(kept, i, p.ea[i]) && xl[i].None?)
  }

  /** The physical address of an element that does not fault. */
  function PaOf(p: Plan, kept: Translations, xl: TbAnswers, i: nat): Word
    requires PlanOk(p) && |xl| == ELEMS && i < |p.ea|
  {
    if Serves(kept, i, p.ea[i]) then kept[i].pa else if xl[i].Some? then xl[i].value else 0
  }

  /** No active element below n faults. */
  predicate CleanBelow(p: Plan, kept: Translations, xl: TbAnswers, n: nat)
    requires PlanOk(p) && |xl| == ELEMS && n <= |p.ea|
  {
    forall i :: 0 <= i < n && p.active[i] ==> !Fails(p, kept, xl, i)
  }

  /** What the check keeps having passed the elements below n: their translations and what there was. */
  ghost predicate KeptBelow(p: Plan, kept: Translations, xl: TbAnswers, n: nat, now: Translations)
    requires PlanOk(p) && |xl| == ELEMS && n <= |p.ea|
  {
    && (forall i :: 0 <= i < n && p.active[i] ==> i in now && now[i] == Kept(p.ea[i], PaOf(p, kept, xl, i)))
    && (forall i :: !(0 <= i < n && i < |p.active| && p.active[i]) ==>
          (i in now <==> i in kept) && (i in kept ==> now[i] == kept[i]))
  }

  /** The check's whole verdict: the lowest active element that faults, of its kind, or none. */
  ghost predicate Verdict(p: Plan, kept: Translations, xl: TbAnswers, r: Outcome)
    requires PlanOk(p) && |xl| == ELEMS
  {
    match r
    case Done => CleanBelow(p, kept, xl, |p.ea|)
    case Unaligned(i, va) => i < |p.ea| && p.active[i] && CleanBelow(p, kept, xl, i) && va == p.ea[i] && va % 8 != 0
    case Missed(i) =>
      i < |p.ea| && p.active[i] && CleanBelow(p, kept, xl, i) && Fails(p, kept, xl, i) && p.ea[i] % 8 == 0
  }

  /** There is exactly one verdict. */
  lemma VerdictUnique(p: Plan, kept: Translations, xl: TbAnswers, r: Outcome, s: Outcome)
    requires PlanOk(p) && |xl| == ELEMS && Verdict(p, kept, xl, r) && Verdict(p, kept, xl, s)
    ensures r == s
  {
  }

  /** An instruction that goes through has every active element on a quadword boundary, and each one kept
      or translated. */
  lemma DoneIs(p: Plan, kept: Translations, xl: TbAnswers)
    requires PlanOk(p) && |xl| == ELEMS
    ensures Verdict(p, kept, xl, Done) <==>
              forall i :: 0 <= i < |p.ea| && p.active[i] ==>
                && (exists q :: p.ea[i] == 8 * q)
                && ((i in kept && kept[i].va == p.ea[i]) || xl[i] != None)
  {
    forall i | 0 <= i < |p.ea| && (exists q :: p.ea[i] == 8 * q)
      ensures p.ea[i] % 8 == 0
    {
    }
    forall i | 0 <= i < |p.ea| && p.ea[i] % 8 == 0
      ensures exists q :: p.ea[i] == 8 * q
    {
      assert p.ea[i] == 8 * (p.ea[i] / 8);
    }
  }

  /** The active elements below n in order, and their physical addresses. */
  ghost predicate Listed(p: Plan, kept: Translations, xl: TbAnswers, n: nat, act: seq<nat>, pas: seq<Word>)
    requires PlanOk(p) && |xl| == ELEMS && n <= |p.active|
  {
    && |act| == |pas|
    && (forall k :: 0 <= k < |act| ==> act[k] < n && p.active[act[k]] && pas[k] == PaOf(p, kept, xl, act[k]))
    && (forall j, k :: 0 <= j < k < |act| ==> act[j] < act[k])
    && (forall i :: 0 <= i < n && p.active[i] ==> i in act)
  }

  /** The check so far: the elements below n clean, kept in now and listed. */
  ghost predicate Passed(p: Plan, kept: Translations, xl: TbAnswers, n: nat,
                         now: Translations, act: seq<nat>, pas: seq<Word>)
    requires PlanOk(p) && |xl| == ELEMS && n <= |p.active|
  {
    CleanBelow(p, kept, xl, n) && KeptBelow(p, kept, xl, n, now) && Listed(p, kept, xl, n, act, pas)
  }

  lemma NonePassed(p: Plan, kept: Translations, xl: TbAnswers)
    requires PlanOk(p) && |xl| == ELEMS
    ensures Passed(p, kept, xl, 0, kept, [], [])
  {
  }

  lemma OneSkipped(p: Plan, kept: Translations, xl: TbAnswers, i: nat, now: Translations, act: seq<nat>, pas: seq<Word>)
    requires PlanOk(p) && |xl| == ELEMS && i < |p.ea| && !p.active[i] && Passed(p, kept, xl, i, now, act, pas)
    ensures Passed(p, kept, xl, i + 1, now, act, pas)
  {
  }

  /** An element not reached yet is kept as it was; with it the check stops, or goes on. */
  lemma KeptHere(p: Plan, kept: Translations, xl: TbAnswers, i: nat, now: Translations, act: seq<nat>, pas: seq<Word>)
    requires PlanOk(p) && |xl| == ELEMS && i < |p.ea| && p.active[i] && Passed(p, kept, xl, i, now, act, pas)
    ensures Serves(now, i, p.ea[i]) <==> Serves(kept, i, p.ea[i])
    ensures Serves(now, i, p.ea[i]) ==> now[i].pa == PaOf(p, kept, xl, i)
    ensures !Serves(now, i, p.ea[i]) && xl[i].Some? ==> xl[i].value == PaOf(p, kept, xl, i)
    ensures p.ea[i] % 8 != 0 ==> Verdict(p, kept, xl, Unaligned(i, p.ea[i]))
    ensures p.ea[i] % 8 == 0 && Fails(p, kept, xl, i) ==>
              Verdict(p, kept, xl, Missed(i)) && KeptBelow(p, kept, xl, i, now)
  {
  }

  lemma OneKept(p: Plan, kept: Translations, xl: TbAnswers, i: nat, now: Translations)
    requires PlanOk(p) && |xl| == ELEMS && i < |p.ea| && p.active[i] && KeptBelow(p, kept, xl, i, now)
    ensures KeptBelow(p, kept, xl, i + 1,
                      if Serves(kept, i, p.ea[i]) then now else now[i := Kept(p.ea[i], PaOf(p, kept, xl, i))])
  {
  }

  lemma OneListed(p: Plan, kept: Translations, xl: TbAnswers, i: nat, act: seq<nat>, pas: seq<Word>)
    requires PlanOk(p) && |xl| == ELEMS && i < |p.ea| && p.active[i] && Listed(p, kept, xl, i, act, pas)
    ensures Listed(p, kept, xl, i + 1, act + [i], pas + [PaOf(p, kept, xl, i)])
  {
    hide PaOf;
    assert forall j :: 0 <= j < i && p.active[j] ==> j in act + [i];
  }

  lemma OnePassed(p: Plan, kept: Translations, xl: TbAnswers, i: nat, now: Translations, act: seq<nat>, pas: seq<Word>)
    requires PlanOk(p) && |xl| == ELEMS && i < |p.ea| && p.active[i]
             && !Fails(p, kept, xl, i) && Passed(p, kept, xl, i, now, act, pas)
    ensures Passed(p, kept, xl, i + 1,
                   if Serves(kept, i, p.ea[i]) then now else now[i := Kept(p.ea[i], PaOf(p, kept, xl, i))],
                   act + [i], pas + [PaOf(p, kept, xl, i)])
  {
    hide KeptBelow, Listed, PaOf, Fails;
    OneKept(p, kept, xl, i, now);
    OneListed(p, kept, xl, i, act, pas);
  }

  lemma AllPassed(p: Plan, kept: Translations, xl: TbAnswers, now: Translations, act: seq<nat>, pas: seq<Word>)
    requires PlanOk(p) && |xl| == ELEMS && Passed(p, kept, xl, |p.ea|, now, act, pas)
    ensures Verdict(p, kept, xl, Done) && Listed(p, kept, xl, |p.ea|, act, pas)
  {
  }

  // ---- Memory ----------------------------------------------------------------------------------

  type Memory = map<Word, Word>

  function Load(m: Memory, a: Word): Word { if a in m then m[a] else 0 }

  /** The active elements below n stored in element order. */
  function Stores(p: Plan, kept: Translations, xl: TbAnswers, data: seq<Word>, m: Memory, n: nat): Memory
    requires PlanOk(p) && |xl| == ELEMS && n <= |p.ea| <= |data|
  {
    if n == 0 then m
    else
      var s := Stores(p, kept, xl, data, m, n - 1);
      if p.active[n - 1] then s[PaOf(p, kept, xl, n - 1) := data[n - 1]] else s
  }

  /** An active element that writes address a. */
  predicate Writes(p: Plan, kept: Translations, xl: TbAnswers, i: nat, a: Word)
    requires PlanOk(p) && |xl| == ELEMS && i < |p.ea|
  {
    p.active[i] && PaOf(p, kept, xl, i) == a
  }

  /** The highest active element below n that writes address a, or -1. */
  function Highest(p: Plan, kept: Translations, xl: TbAnswers, a: Word, n: nat): (r: int)
    requires PlanOk(p) && |xl| == ELEMS && n <= |p.ea|
    ensures -1 <= r < n && (r >= 0 ==> Writes(p, kept, xl, r, a))
    ensures forall i :: r < i < n ==> !Writes(p, kept, xl, i, a)
  {
    if n == 0 then -1 else if Writes(p, kept, xl, n - 1, a) then n - 1 else Highest(p, kept, xl, a, n - 1)
  }

  /** So at each address the highest element that writes it wins, and elsewhere nothing changes. */
  lemma {:induction false} HigherElementWins(p: Plan, kept: Translations, xl: TbAnswers, data: seq<Word>, m: Memory,
                                             n: nat, a: Word)
    requires PlanOk(p) && |xl| == ELEMS && n <= |p.ea| <= |data|
    ensures var h := Highest(p, kept, xl, a, n);
            Load(Stores(p, kept, xl, data, m, n), a) == if h == -1 then Load(m, a) else data[h]
  {
    hide PaOf;
    if n > 0 {
      HigherElementWins(p, kept, xl, data, m, n - 1, a);
    }
  }

  lemma {:induction false} StoresSkip(p: Plan, kept: Translations, xl: TbAnswers,
                                      data: seq<Word>, m: Memory, n: nat, k: nat)
    requires PlanOk(p) && |xl| == ELEMS && n <= k <= |p.ea| <= |data| && forall i :: n <= i < k ==> !p.active[i]
    ensures Stores(p, kept, xl, data, m, k) == Stores(p, kept, xl, data, m, n)
    decreases k - n
  {
    if n < k {
      StoresSkip(p, kept, xl, data, m, n, k - 1);
    }
  }

  /** The element after the k-th listed, from which the next one is looked for. */
  ghost function After(act: seq<nat>, k: nat): nat
    requires k <= |act|
  {
    if k == 0 then 0 else act[k - 1] + 1
  }

  /** Nothing active is between two listed elements, nor after the last. */
  lemma ListedGap(p: Plan, kept: Translations, xl: TbAnswers, act: seq<nat>, pas: seq<Word>, k: nat)
    requires PlanOk(p) && |xl| == ELEMS && Listed(p, kept, xl, |p.ea|, act, pas) && k <= |act|
    ensures var end := if k < |act| then act[k] else |p.ea|;
            After(act, k) <= end <= |p.ea| && forall i :: After(act, k) <= i < end ==> !p.active[i]
  {
    hide PaOf;
    var end := if k < |act| then act[k] else |p.ea|;
    forall i | After(act, k) <= i < end
      ensures !p.active[i]
    {
      forall j | 0 <= j < |act|
        ensures act[j] != i
      {
        if j < k - 1 { assert act[j] < act[k - 1]; } else if k < j { assert act[k] < act[j]; }
      }
    }
  }

  /** A load's destination: the active elements loaded, the others unchanged. */
  ghost predicate Loaded(p: Plan, kept: Translations, xl: TbAnswers, m: Memory, was: seq<Word>, now: seq<Word>)
    requires PlanOk(p) && |xl| == ELEMS
  {
    && |now| == |was|
    && forall i :: 0 <= i < |was| ==>
      now[i] == if i < |p.ea| && p.active[i] then Load(m, PaOf(p, kept, xl, i)) else was[i]
  }

  // ---- The instruction -------------------------------------------------------------------------

  class Unit {
    const vr: array<seq<Word>>
    var vl: nat
    var vs: Word
    var vm: seq<bool>
    var mem: Memory
    var rs: Restart
    // The processor's: where it is, its mode and address space, and how often translations died.
    var pc: Word
    var cm: nat
    var asn: nat
    var gen: nat

    predicate Valid()
      reads `vl, `vm, vr
    {
      vr.Length == REGS && (forall r :: 0 <= r < REGS ==> |vr[r]| == ELEMS) && vl <= ELEMS && |vm| == ELEMS
    }

    function PlanOf(ins: Instr, base: Word): (p: Plan)
      requires Valid() && ins.vx < REGS
      reads `vl, `vm, `vs, vr
      ensures |p.ea| == |p.active| == vl
    {
      Elements(ins, base, vl, vs, vm, vr[ins.vx])
    }

    /** The kept translations that serve this attempt. */
    function Usable(ins: Instr): Translations
      reads `rs, `pc, `cm, `asn, `gen
    {
      if rs.valid && rs.pc == pc && rs.word == ins.word && rs.cm == cm && rs.asn == asn && rs.gen == gen
      then rs.kept else map[]
    }

    /** The check phase: nothing but the restart record changes. act and pas are the active elements
        and their physical addresses. */
    method CheckElements(ins: Instr, base: Word, xl: TbAnswers) returns (r: Outcome, act: seq<nat>, pas: seq<Word>)
      requires Valid() && ins.vx < REGS && |xl| == ELEMS
      modifies `rs
      ensures Verdict(PlanOf(ins, base), old(Usable(ins)), xl, r)
      ensures r.Missed? ==> KeptBelow(PlanOf(ins, base), old(Usable(ins)), xl, r.elem, rs.kept)
                            && rs == Restart(true, pc, ins.word, cm, asn, gen, rs.kept)
      ensures !r.Missed? ==> !rs.valid
      ensures r.Done? ==> Listed(PlanOf(ins, base), old(Usable(ins)), xl, vl, act, pas)
    {
      hide Address, Passed, Verdict, KeptBelow, Listed, PaOf, Elements;
      ghost var p, kept := PlanOf(ins, base), Usable(ins);
      var index := vr[ins.vx];
      act, pas := [], [];
      if !(rs.valid && rs.pc == pc && rs.word == ins.word && rs.cm == cm && rs.asn == asn && rs.gen == gen) {
        rs := rs.(valid := false, kept := map[]);
      }
      rs := rs.(valid := false);
      NonePassed(p, kept, xl);
      var i := 0;
      while i < vl
        invariant 0 <= i <= vl && !rs.valid && Passed(p, kept, xl, i, rs.kept, act, pas)
      {
        ghost var now := rs.kept;
        if ins.masked && !vm[i] {
          OneSkipped(p, kept, xl, i, now, act, pas);
          i := i + 1;
          continue;
        }
        KeptHere(p, kept, xl, i, now, act, pas);
        var ea := Address(ins, base, vs, index, i);
        if ea % 8 != 0 {
          r := Unaligned(i, ea);
          return;
        }
        ghost var before := pas;
        if i in rs.kept && rs.kept[i].va == ea {
          pas := pas + [rs.kept[i].pa];
        } else {
          if xl[i].None? {
            rs := Restart(true, pc, ins.word, cm, asn, gen, rs.kept);
            r := Missed(i);
            return;
          }
          rs := rs.(kept := rs.kept[i := Kept(ea, xl[i].value)]);
          pas := pas + [xl[i].value];
        }
        OnePassed(p, kept, xl, i, now, act, before);
        act := act + [i];
        i := i + 1;
      }
      r := Done;
      AllPassed(p, kept, xl, rs.kept, act, pas);
    }

    /** A store's or scatter's accesses. */
    method StoreElements(data: seq<Word>, act: seq<nat>, pas: seq<Word>,
                         ghost p: Plan, ghost kept: Translations, ghost xl: TbAnswers)
      requires PlanOk(p) && |xl| == ELEMS && |p.ea| <= |data| && Listed(p, kept, xl, |p.ea|, act, pas)
      modifies `mem
      ensures mem == Stores(p, kept, xl, data, old(mem), |p.ea|)
    {
      hide PaOf;
      ListedGap(p, kept, xl, act, pas, 0);
      var k := 0;
      while k < |act|
        invariant 0 <= k <= |act| && After(act, k) <= |p.ea|
                  && mem == Stores(p, kept, xl, data, old(mem), After(act, k))
      {
        ListedGap(p, kept, xl, act, pas, k);
        StoresSkip(p, kept, xl, data, old(mem), After(act, k), act[k]);
        mem := mem[pas[k] := data[act[k]]];
        k := k + 1;
      }
      ListedGap(p, kept, xl, act, pas, k);
      StoresSkip(p, kept, xl, data, old(mem), After(act, k), |p.ea|);
    }

    /** A load's or gather's accesses. */
    method LoadElements(vt: nat, act: seq<nat>, pas: seq<Word>,
                        ghost p: Plan, ghost kept: Translations, ghost xl: TbAnswers)
      requires Valid() && vt < REGS && PlanOk(p) && |xl| == ELEMS && Listed(p, kept, xl, |p.ea|, act, pas)
      modifies vr
      ensures Valid() && Loaded(p, kept, xl, mem, old(vr[vt]), vr[vt])
      ensures forall r :: 0 <= r < REGS && r != vt ==> vr[r] == old(vr[r])
    {
      hide PaOf, Load;
      ghost var was := vr[vt];
      var k := 0;
      while k < |act|
        invariant 0 <= k <= |act| && Valid()
        invariant forall r :: 0 <= r < REGS && r != vt ==> vr[r] == old(vr[r])
        invariant forall j :: 0 <= j < k ==> vr[vt][act[j]] == Load(mem, pas[j])
        invariant forall i :: 0 <= i < ELEMS && i !in act[..k] ==> vr[vt][i] == was[i]
      {
        vr[vt] := vr[vt][act[k] := Load(mem, pas[k])];
        k := k + 1;
      }
      assert act[..k] == act;
    }

    /** The instruction is all or nothing. With the plan the registers gave and the translations kept:
        on a fault, which is the lowest active faulting element's, neither memory nor a register
        changes; otherwise every active element is accessed in element order, at addresses all computed
        before. A load into register 31 does nothing. */
    method Execute(ins: Instr, base: Word, xl: TbAnswers) returns (r: Outcome)
      requires Valid() && ins.vx < REGS && ins.vt < REGS && |xl| == ELEMS
      modifies `rs, `mem, vr
      ensures Valid()
      ensures var p, kept := old(PlanOf(ins, base)), old(Usable(ins));
              if !ins.store && ins.vt == 31 then r == Done && rs == old(rs) && mem == old(mem) && vr[..] == old(vr[..])
              else
                && Verdict(p, kept, xl, r)
                && (ins.store || !r.Done? ==> vr[..] == old(vr[..]))
                && (!ins.store || !r.Done? ==> mem == old(mem))
                && (r.Missed? ==>
                      && rs == Restart(true, pc, ins.word, cm, asn, gen, rs.kept)
                      && KeptBelow(p, kept, xl, r.elem, rs.kept))
                && (!r.Missed? ==> !rs.valid)
                && (ins.store && r.Done? ==>
                      mem == Stores(p, kept, xl, if ins.vt == 31 then seq(ELEMS, _ => 0) else old(vr[ins.vt]),
                                    old(mem), |p.ea|))
                && (!ins.store && r.Done? ==>
                      && Loaded(p, kept, xl, old(mem), old(vr[ins.vt]), vr[ins.vt])
                      && forall q :: 0 <= q < REGS && q != ins.vt ==> vr[q] == old(vr[q]))
    {
      hide Elements, Verdict, KeptBelow, Stores, Listed, PaOf;
      if !ins.store && ins.vt == 31 {
        return Done;
      }
      ghost var p, kept := PlanOf(ins, base), Usable(ins);
      var act, pas;
      r, act, pas := CheckElements(ins, base, xl);
      if !r.Done? {
        return;
      }
      if act != [] {
        rs := rs.(valid := false, kept := map[]);
      }
      if ins.store {
        var data := if ins.vt == 31 then seq(ELEMS, _ => 0) else vr[ins.vt];
        StoreElements(data, act, pas, p, kept, xl);
      } else {
        LoadElements(ins.vt, act, pas, p, kept, xl);
      }
    }

    /** The instruction with its restarts: tb(k, f) is what the TB answers in attempt k after element f
        missed, f being ELEMS at first; the handler has made that element translate, and what else it
        answered it may have forgotten. The instruction ends within one attempt more than it has active
        elements, and until then only the restart record has changed; and each element is then accessed
        where the TB put it in one of the attempts, or where the record had it at first. */
    method ExecuteToEnd(ins: Instr, base: Word, tb: (nat, nat) -> TbAnswers) returns (r: Outcome, attempts: nat)
      requires Valid() && ins.vx < REGS && ins.vt < REGS
      requires forall k: nat, f: nat :: |tb(k, f)| == ELEMS && (f < ELEMS ==> tb(k, f)[f].Some?)
      modifies `rs, `mem, vr
      ensures Valid() && !r.Missed?
      ensures attempts <= |Actives(old(PlanOf(ins, base)))| + 1 <= old(vl) + 1
      ensures r.Unaligned? ==> mem == old(mem) && vr[..] == old(vr[..])
      ensures r.Done? && (ins.store || ins.vt != 31) ==>
                Ends(old(PlanOf(ins, base)), old(Usable(ins)), tb, ins, old(mem), old(vr[..]), mem, vr[..])
    {
      hide Elements, Verdict, KeptBelow, Stores, Loaded, Actives, KeptSourced, AllSourced, Ends;
      ghost var p, first := PlanOf(ins, base), Usable(ins);
      NothingNew(p, first, tb);
      ghost var xls, keeps, faults := [], [Usable(ins)], [];
      var f := ELEMS;
      attempts := 0;
      NoAttempts(p, Usable(ins));
      while true
        invariant Valid() && mem == old(mem) && vr[..] == old(vr[..]) && PlanOf(ins, base) == p
        invariant Attempts(p, xls, keeps, faults) && attempts == |faults| && KeptSourced(p, first, tb, Usable(ins))
        invariant keeps[|faults|] == Usable(ins) && f == (if faults == [] then ELEMS else faults[|faults| - 1])
        decreases |p.ea| + 1 - |faults|
      {
        ghost var kept, xl := Usable(ins), tb(attempts, f);
        ForwardProgress(p, xls, keeps, faults);
        r := Execute(ins, base, tb(attempts, f));
        attempts := attempts + 1;
        if !r.Missed? {
          if r.Done? && (ins.store || ins.vt != 31) {
            assert Completes(p, kept, xl, ins, old(mem), old(vr[..]), mem, vr[..]);
            DoneSourced(p, first, tb, kept, attempts - 1, f);
            EndsWith(p, first, tb, kept, xl, ins, old(mem), old(vr[..]), mem, vr[..]);
          }
          return;
        }
        MissedInRange(p, kept, xl, r.elem);
        MissSourced(p, first, tb, kept, attempts - 1, f, r.elem, rs.kept);
        OneMore(p, xls, keeps, faults, xl, r.elem, rs.kept);
        xls, keeps, faults := xls + [xl], keeps + [rs.kept], faults + [r.elem];
        ForwardProgress(p, xls, keeps, faults);
        f := r.elem;
      }
    }
  }

  /** The whole effect of an instruction that was not a prefetch: every element passed the check and
      was accessed, at the addresses kept or answered. */
  ghost predicate Completes(p: Plan, kept: Translations, xl: TbAnswers, ins: Instr, m: Memory, v: seq<seq<Word>>,
                            m': Memory, v': seq<seq<Word>>) {
    && PlanOk(p) && |xl| == ELEMS && ins.vt < REGS == |v| == |v'| && (forall q :: 0 <= q < REGS ==> |v[q]| == ELEMS)
    && Verdict(p, kept, xl, Done)
    && (if ins.store then v' == v
           && m' == Stores(p, kept, xl, if ins.vt == 31 then seq(ELEMS, _ => 0) else v[ins.vt], m, |p.ea|)
        else m' == m && Loaded(p, kept, xl, m, v[ins.vt], v'[ins.vt])
             && forall q :: 0 <= q < REGS && q != ins.vt ==> v'[q] == v[q])
  }

  // ---- Where the addresses come from -----------------------------------------------------------

  /** The TB's answer for the element in some attempt, or the translation first kept for its address. */
  ghost predicate Sourced(p: Plan, first: Translations, tb: (nat, nat) -> TbAnswers, i: nat, pa: Word)
    requires PlanOk(p) && i < |p.ea|
  {
    || (Serves(first, i, p.ea[i]) && first[i].pa == pa)
    || exists k: nat, f: nat :: i < |tb(k, f)| && tb(k, f)[i] == Some(pa)
  }

  ghost predicate KeptSourced(p: Plan, first: Translations, tb: (nat, nat) -> TbAnswers, kept: Translations) {
    && PlanOk(p)
    && forall i :: 0 <= i < |p.ea| && p.active[i] && Serves(kept, i, p.ea[i]) ==> Sourced(p, first, tb, i, kept[i].pa)
  }

  ghost predicate AllSourced(p: Plan, first: Translations, tb: (nat, nat) -> TbAnswers, kept: Translations,
                             xl: TbAnswers) {
    && PlanOk(p) && |xl| == ELEMS
    && forall i :: 0 <= i < |p.ea| && p.active[i] ==> Sourced(p, first, tb, i, PaOf(p, kept, xl, i))
  }

  /** The instruction's whole effect, at addresses that come from the attempts' TB answers. */
  ghost predicate Ends(p: Plan, first: Translations, tb: (nat, nat) -> TbAnswers, ins: Instr, m: Memory,
                       v: seq<seq<Word>>, m': Memory, v': seq<seq<Word>>) {
    exists kept, xl :: Completes(p, kept, xl, ins, m, v, m', v') && AllSourced(p, first, tb, kept, xl)
  }

  lemma EndsWith(p: Plan, first: Translations, tb: (nat, nat) -> TbAnswers, kept: Translations, xl: TbAnswers,
                 ins: Instr, m: Memory, v: seq<seq<Word>>, m': Memory, v': seq<seq<Word>>)
    requires Completes(p, kept, xl, ins, m, v, m', v') && AllSourced(p, first, tb, kept, xl)
    ensures Ends(p, first, tb, ins, m, v, m', v')
  {
  }

  lemma NothingNew(p: Plan, first: Translations, tb: (nat, nat) -> TbAnswers)
    requires PlanOk(p)
    ensures KeptSourced(p, first, tb, first)
  {
  }

  /** An element that passed the check in attempt k. */
  lemma PassedSourced(p: Plan, first: Translations, tb: (nat, nat) -> TbAnswers, kept: Translations, k: nat, f: nat,
                      i: nat)
    requires PlanOk(p) && |tb(k, f)| == ELEMS && KeptSourced(p, first, tb, kept)
    requires i < |p.ea| && p.active[i] && !Fails(p, kept, tb(k, f), i)
    ensures Sourced(p, first, tb, i, PaOf(p, kept, tb(k, f), i))
  {
    assert !Serves(kept, i, p.ea[i]) ==> tb(k, f)[i] == Some(PaOf(p, kept, tb(k, f), i));
  }

  lemma MissSourced(p: Plan, first: Translations, tb: (nat, nat) -> TbAnswers, kept: Translations, k: nat, f: nat,
                    n: nat, now: Translations)
    requires PlanOk(p) && |tb(k, f)| == ELEMS && KeptSourced(p, first, tb, kept) && n <= |p.ea|
    requires Verdict(p, kept, tb(k, f), Missed(n)) && KeptBelow(p, kept, tb(k, f), n, now)
    ensures KeptSourced(p, first, tb, now)
  {
    hide Sourced, PaOf, Fails;
    forall i | 0 <= i < |p.ea| && p.active[i] && Serves(now, i, p.ea[i])
      ensures Sourced(p, first, tb, i, now[i].pa)
    {
      if i < n { PassedSourced(p, first, tb, kept, k, f, i); }
    }
  }

  lemma DoneSourced(p: Plan, first: Translations, tb: (nat, nat) -> TbAnswers, kept: Translations, k: nat, f: nat)
    requires PlanOk(p) && |tb(k, f)| == ELEMS && KeptSourced(p, first, tb, kept) && Verdict(p, kept, tb(k, f), Done)
    ensures AllSourced(p, first, tb, kept, tb(k, f))
  {
    hide Sourced, PaOf, Fails;
    forall i | 0 <= i < |p.ea| && p.active[i]
      ensures Sourced(p, first, tb, i, PaOf(p, kept, tb(k, f), i))
    {
      PassedSourced(p, first, tb, kept, k, f, i);
    }
  }

  // ---- Forward progress ------------------------------------------------------------------------

  /** The active elements no kept translation serves. */
  function Without(p: Plan, kept: Translations): set<nat>
    requires PlanOk(p)
  {
    set i: nat | i < |p.ea| && p.active[i] && !Serves(kept, i, p.ea[i])
  }

  function Actives(p: Plan): set<nat>
    requires PlanOk(p)
  {
    set i: nat | i < |p.ea| && p.active[i]
  }

  /** One instruction faulting again and again: keeps are the translations at each attempt, xls what
      the TB answers in it, faults the element at which it missed. A handler makes the element that
      missed translate in the next attempt, and nothing else is asked of it: what the TB answered for
      any other element it may no longer. */
  ghost predicate Attempts(p: Plan, xls: seq<TbAnswers>, keeps: seq<Translations>, faults: seq<nat>) {
    && PlanOk(p) && |xls| == |faults| && |keeps| == |faults| + 1
    && (forall a :: 0 <= a < |faults| ==> Faulted(p, keeps[a], xls[a], faults[a], keeps[a + 1]))
    && (forall a :: 0 < a < |faults| ==> Answers(xls[a], faults[a - 1]))
  }

  /** One attempt that missed at f, and the translations it kept. */
  ghost predicate Faulted(p: Plan, kept: Translations, xl: TbAnswers, f: nat, now: Translations) {
    PlanOk(p) && |xl| == ELEMS && f < |p.ea| && Verdict(p, kept, xl, Missed(f)) && KeptBelow(p, kept, xl, f, now)
  }

  predicate Answers(xl: TbAnswers, f: nat) { f < |xl| && xl[f].Some? }

  /** A fault after a fault is at a later element, and the elements without a kept translation have
      become fewer. */
  lemma FaultAdvances(p: Plan, kept: Translations, xl: TbAnswers, f: nat,
                      kept': Translations, xl': TbAnswers, f': nat, kept'': Translations)
    requires PlanOk(p) && |xl| == |xl'| == ELEMS
    requires Verdict(p, kept, xl, Missed(f)) && KeptBelow(p, kept, xl, f, kept')
    requires xl'[f].Some? && Verdict(p, kept', xl', Missed(f')) && KeptBelow(p, kept', xl', f', kept'')
    ensures f < f'
    ensures Without(p, kept'') < Without(p, kept')
  {
    hide PaOf;
    assert forall i :: 0 <= i < f && p.active[i] ==> Serves(kept', i, p.ea[i]);
    assert Fails(p, kept', xl', f') && Fails(p, kept, xl, f);
    assert f in Without(p, kept') && f !in Without(p, kept'');
    assert forall i :: 0 <= i < f' && p.active[i] ==> Serves(kept'', i, p.ea[i]);
  }

  lemma {:induction false} FaultsRise(p: Plan, xls: seq<TbAnswers>,
                                      keeps: seq<Translations>, faults: seq<nat>, a: nat, b: nat)
    requires Attempts(p, xls, keeps, faults) && a < b < |faults|
    ensures faults[a] < faults[b]
    decreases b
  {
    assert Faulted(p, keeps[b - 1], xls[b - 1], faults[b - 1], keeps[b]) && Answers(xls[b], faults[b - 1]);
    assert Faulted(p, keeps[b], xls[b], faults[b], keeps[b + 1]);
    hide Verdict, KeptBelow, Attempts;
    FaultAdvances(p, keeps[b - 1], xls[b - 1], faults[b - 1], keeps[b], xls[b], faults[b], keeps[b + 1]);
    if a < b - 1 {
      FaultsRise(p, xls, keeps, faults, a, b - 1);
    }
  }

  lemma {:induction false} DistinctFit(faults: seq<nat>, within: set<nat>)
    requires forall a, b :: 0 <= a < b < |faults| ==> faults[a] != faults[b]
    requires forall a :: 0 <= a < |faults| ==> faults[a] in within
    ensures |faults| <= |within|
  {
    if faults != [] {
      var n := |faults| - 1;
      DistinctFit(faults[..n], within - {faults[n]});
    }
  }

  lemma {:induction false} FewerThan(s: set<nat>, n: nat)
    requires forall i :: i in s ==> i < n
    ensures |s| <= n
  {
    if n > 0 {
      FewerThan(s - {n - 1}, n - 1);
    }
  }

  /** The instruction faults on translations at most once for each active element, so at most vl times,
      whatever the TB forgets in between. */
  lemma ForwardProgress(p: Plan, xls: seq<TbAnswers>, keeps: seq<Translations>, faults: seq<nat>)
    requires Attempts(p, xls, keeps, faults)
    ensures |faults| <= |Actives(p)| <= |p.ea|
  {
    hide KeptBelow;
    forall a, b | 0 <= a < b < |faults|
      ensures faults[a] != faults[b]
    {
      FaultsRise(p, xls, keeps, faults, a, b);
    }
    forall a | 0 <= a < |faults|
      ensures faults[a] in Actives(p)
    {
      assert Faulted(p, keeps[a], xls[a], faults[a], keeps[a + 1]);
    }
    DistinctFit(faults, Actives(p));
    FewerThan(Actives(p), |p.ea|);
  }

  lemma MissedInRange(p: Plan, kept: Translations, xl: TbAnswers, f: nat)
    requires PlanOk(p) && |xl| == ELEMS && Verdict(p, kept, xl, Missed(f))
    ensures f < |p.ea| <= ELEMS
  {
  }

  lemma NoAttempts(p: Plan, kept: Translations)
    requires PlanOk(p)
    ensures Attempts(p, [], [kept], [])
  {
  }

  lemma OneMore(p: Plan, xls: seq<TbAnswers>, keeps: seq<Translations>, faults: seq<nat>, xl: TbAnswers, f: nat,
                kept: Translations)
    requires Attempts(p, xls, keeps, faults) && Faulted(p, keeps[|faults|], xl, f, kept)
    requires faults != [] ==> Answers(xl, faults[|faults| - 1])
    ensures Attempts(p, xls + [xl], keeps + [kept], faults + [f])
  {
    hide Faulted, Answers, PlanOk;
  }
}
