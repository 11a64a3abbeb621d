/** What the PALcode keeps over every run: the enables follow the IPL, an interrupt in service keeps
    the IPL at 4 or above, and every interrupt ID taken from the queue is ended exactly once, in order
    and at its own port. */
module PalRuns {
  import opened Bits
  import opened PalState

  // ---- The invariant at every exit from PALmode ------------------------------------------------

  function Iids(ended: seq<EoiWrite>): seq<nat> {
    seq(|ended|, i requires 0 <= i < |ended| => ended[i].iid)
  }

  function InService(t: Tpu): seq<nat>
    requires t.eoi == 0 || EOI_VALID <= t.eoi
  {
    if t.eoi == 0 then [] else [t.eoi - EOI_VALID]
  }

  /** Each ID dequeued has one end-of-interrupt write, at its own port, but the one in service. */
  ghost predicate Conserved(t: Tpu)
    requires t.eoi == 0 || EOI_VALID <= t.eoi < EOI_VALID + IIDS
  {
    && t.dequeued == Iids(t.ended) + InService(t)
    && forall i :: 0 <= i < |t.ended| ==> t.ended[i].address == EoiAddress(t.ended[i].iid)
  }

  ghost predicate EoiOk(t: Tpu) {
    && (t.eoi == 0 || EOI_VALID <= t.eoi < EOI_VALID + IIDS)
    && Conserved(t)
  }

  ghost predicate PalOk(t: Tpu) {
    && |t.ents| == 6
    && t.ps <= 8
    && t.ier == IerTab(t.ps % 8) + (if UserPs(t.ps) then USER else 0)
    && (t.eoi != 0 ==> 4 <= t.ps <= 7)
    && EoiOk(t)
  }

  lemma DoEoiEnds(t: Tpu)
    requires EoiOk(t)
    ensures EoiOk(DoEoi(t)) && DoEoi(t).eoi == 0 && Iids(DoEoi(t).ended) == t.dequeued
  {
    if t.eoi != 0 {
      assert t.eoi % IIDS == t.eoi - EOI_VALID;
      assert Iids(DoEoi(t).ended) == Iids(t.ended) + [t.eoi - EOI_VALID];
    }
  }

  /** The table enables level 1, the queue's, only below IPL 4, levels 2 and 3 only below 5. */
  lemma TableEnables(ipl: nat, user: bool)
    requires ipl < 8
    ensures var ier := IerTab(ipl) + if user then USER else 0;
            && (Enables(ier, 1) <==> ipl < 4) && (Enables(ier, 4) <==> ipl < 4)
            && (Enables(ier, 2) <==> ipl < 5) && (Enables(ier, 3) <==> ipl < 5)
            && (Enables(ier, 0) <==> ipl < 6) && (Enables(ier, 5) <==> ipl < 7)
            && ier % 0x2_0000_0000 == if user then 0x18 else 0
  {
    assert Pow2(0) == 1 && Pow2(1) == 2 && Pow2(2) == 4 && Pow2(3) == 8 && Pow2(4) == 16 && Pow2(5) == 32;
  }

  // ---- Runs ------------------------------------------------------------------------------------

  datatype Op =
    | TakeInterrupt(eir: set<nat>, stat: nat, head: nat, tpu: nat, reach: nat)
    | TakeFault(fault: Fault, pc: Word, b0: Word, b1: Word, b2: Word, reach: nat)
    | DoCallSys(next: Word, reach: nat)
    | DoSwpIpl
    | DoRti(reach: nat)
    | DoRetSys(reach: nat)
    | DoWtInt(armed: Word)
    | DoHalt(reason: nat) // CALL_PAL halt, a fault inside the PALcode
    | DoStart(startKsp: Word, startUsp: Word, restart: Word)
    | Program(v0: Word, a0: Word, a1: Word, a2: Word, gp: Word, sp: Word, pc: Word, mem: Memory)
    | DoWrEnt(number: nat, address: Word)
    | DoWrKgp(kgp: Word)
    | DoWrUsp(usp: Word)
    | DoSwpCtx(newSp: Word, newUsp: Word)

  /** Privileged calls come from kernel mode; a parked TPU only starts. */
  predicate Enabled(t: Tpu, op: Op) {
    match op
    case TakeInterrupt(_, _, _, _, _) => !t.parked
    case TakeFault(_, _, _, _, _, _) => !t.parked
    case DoCallSys(_, _) => !t.parked
    case DoHalt(reason) => !t.parked && reason < WORD
    case DoStart(_, _, _) => t.parked
    case Program(_, _, _, _, _, _, _, _) => !t.parked
    case _ => !t.parked && t.ps < 8
  }

  function Step(t: Tpu, op: Op): Tpu
    requires Enabled(t, op) && t.ps < WORD && |t.ents| == 6
  {
    match op
    case TakeInterrupt(eir, stat, head, tpu, reach) => Interrupt(t, eir, stat, head, tpu, reach)
    case TakeFault(fault, pc, b0, b1, b2, reach) => Post(t, SelectorOf(fault), pc, b0, b1, b2, reach)
    case DoCallSys(next, reach) => CallSys(t, next, reach)
    case DoSwpIpl => SwpIpl(t)
    case DoRti(reach) => Rti(t, reach)
    case DoRetSys(reach) => RetSys(t, reach)
    case DoWtInt(armed) => WtInt(t, armed)
    case DoHalt(reason) => Halt(t, reason)
    case DoStart(ksp, usp, restart) => Start(t, ksp, usp, restart)
    case Program(v0, a0, a1, a2, gp, sp, pc, mem) =>
      t.(v0 := v0, a0 := a0, a1 := a1, a2 := a2, gp := gp, sp := sp, pc := pc, mem := mem)
    case DoWrEnt(n, a) => WrEnt(t, n, a)
    case DoWrKgp(kgp) => t.(kgp := kgp)
    case DoWrUsp(usp) => t.(usp := usp)
    case DoSwpCtx(sp, usp) => t.(sp := sp, usp := usp)
  }

  ghost predicate Invariant(t: Tpu) {
    PalOk(t) && (t.parked ==> t.ps == 7 && t.eoi == 0) && t.ksp % 8 == 0
  }

  lemma HaltKeeps(t: Tpu, reason: nat)
    requires |t.ents| == 6 && EoiOk(t) && reason < WORD
    ensures PalOk(Halt(t, reason)) && Halt(t, reason).eoi == 0 && Halt(t, reason).ps == 7
            && Halt(t, reason).ksp == t.ksp
  {
    hide EoiAddress;
    DoEoiEnds(t);
  }

  /** post keeps the invariant from a state where the entry's IPL covers what is in service. */
  lemma PostKeeps(t: Tpu, sel: nat, pc: Word, b0: Word, b1: Word, b2: Word, reach: nat)
    requires Selector(sel) && !t.parked && t.ps <= 8 && |t.ents| == 6 && EoiOk(t)
    requires t.eoi != 0 ==> sel / 256 >= 5 || (sel / 256 == 0 && 4 <= t.ps <= 7)
    requires t.ksp % 8 == 0
    ensures Invariant(Post(t, sel, pc, b0, b1, b2, reach))
  {
    hide Conserved, EoiOk, Pushed, Plus, UserPs;
    var k := OnKernelStack(t);
    var f := Minus(k.sp, 48);
    var g := k.(sp := f, mem := Pushed(t, f, pc, reach));
    ConservedFrame(t, k);
    ConservedFrame(t, g);
    if k.sp % 8 != 0 {
      HaltKeeps(k, HALT_KSNV);
    } else if reach < FRAME {
      HaltKeeps(g, HALT_KSNV);
    } else {
      ConservedFrame(t, Post(t, sel, pc, b0, b1, b2, reach));
    }
  }

  /** Only the queue, the ports and the ID in service count. */
  lemma ConservedFrame(t: Tpu, r: Tpu)
    requires EoiOk(t) && r.eoi == t.eoi && r.dequeued == t.dequeued && r.ended == t.ended
    ensures EoiOk(r)
  {
  }

  /** No ID is overwritten: the queue is looked at only when nothing is in service. */
  lemma QueueOnlyWhenIdle(t: Tpu, eir: set<nat>)
    requires PalOk(t) && Sums(eir, t.ier, 1)
    ensures t.eoi == 0 && t.ps % 8 < 4
  {
    TableEnables(t.ps % 8, UserPs(t.ps));
  }

  lemma TakeDeviceKeeps(t: Tpu, iid: nat)
    requires EoiOk(t) && t.eoi == 0 && iid < IIDS
    ensures EoiOk(TakeDevice(t, iid))
  {
  }

  lemma InterruptKeeps(t: Tpu, eir: set<nat>, stat: nat, head: nat, tpu: nat, reach: nat)
    requires Invariant(t) && !t.parked
    ensures Invariant(Interrupt(t, eir, stat, head, tpu, reach))
  {
    hide Post, Halt, EoiOk, Enables, Bit, Vector;
    HaltKeeps(t, HALT_OPERATOR);
    HaltKeeps(t, HALT_UNIMPL + 0x680);
    PostKeeps(t, SEL_IPI, t.pc, 1, 0, 0, reach);
    PostKeeps(t, SEL_IPI, t.pc, 0, 0, 0, reach);
    if Sums(eir, t.ier, 1) {
      QueueOnlyWhenIdle(t, eir);
      var iid := head % IIDS;
      TakeDeviceKeeps(t, iid);
      VectorFits(iid);
      PostKeeps(TakeDevice(t, iid), SEL_DEVICE, t.pc, 3, Vector(iid), 0, reach);
    }
  }

  lemma RtiKeeps(t: Tpu, reach: nat)
    requires Invariant(t) && !t.parked
    ensures Invariant(Rti(t, reach))
  {
    hide Conserved, EoiOk, EoiAddress, ReturnPs, Normal, Plus, UserPs, RtiPs;
    if t.sp % 8 != 0 || reach < 2 {
      HaltKeeps(t, HALT_KSNV);
    } else {
      RtiPsKeeps(t);
      var r := RtiPs(t);
      var h := r.(gp := if reach > 2 then Load(t.mem, Plus(t.sp, 16)) else t.gp);
      ConservedFrame(r, h);
      HaltKeeps(h, HALT_KSNV);
      if reach >= FRAME { ConservedFrame(r, Rti(t, reach)); }
    }
  }

  /** The PS and the end of interrupt rti writes before its last loads. */
  lemma RtiPsKeeps(t: Tpu)
    requires Invariant(t) && t.sp % 8 == 0
    ensures var r := RtiPs(t);
            && EoiOk(r) && r.ps <= 8 && (UserPs(r.ps) <==> r.ps == 8)
            && (r.eoi != 0 ==> 4 <= r.ps <= 7) && r.ksp % 8 == 0
            && r.ents == t.ents && r.parked == t.parked
  {
    hide Conserved, EoiAddress, ReturnPs, UserPs;
    var ps := ReturnPs(Load(t.mem, t.sp));
    var r := t.(ps := ps, ksp := if ps == 8 then Plus(t.sp, 48) else t.ksp);
    ConservedFrame(t, r);
    DoEoiEnds(r);
    assert Plus(t.sp, 48) % 8 == 0;
  }

  lemma RetSysKeeps(t: Tpu, reach: nat)
    requires Invariant(t) && !t.parked
    ensures Invariant(RetSys(t, reach))
  {
    hide Conserved, EoiAddress;
    HaltKeeps(t, HALT_KSNV);
    DoEoiEnds(t);
    if t.sp % 8 == 0 { assert Plus(t.sp, 48) % 8 == 0; }
    ConservedFrame(DoEoi(t), RetSys(t, reach));
  }

  lemma SwpIplKeeps(t: Tpu)
    requires Invariant(t) && !t.parked
    ensures Invariant(SwpIpl(t))
  {
    hide Conserved, EoiAddress;
    var r := t.(v0 := t.ps % 8, ps := t.a0 % 8, ier := IerTab(t.a0 % 8));
    ConservedFrame(t, r);
    DoEoiEnds(r);
  }

  lemma StepKeeps(t: Tpu, op: Op)
    requires Invariant(t) && Enabled(t, op)
    ensures Invariant(Step(t, op))
  {
    hide Conserved, Post, Rti, RetSys, SwpIpl, Halt, Interrupt;
    match op
    case TakeInterrupt(eir, stat, head, tpu, reach) => InterruptKeeps(t, eir, stat, head, tpu, reach);
    case TakeFault(fault, pc, b0, b1, b2, reach) => PostKeeps(t, SelectorOf(fault), pc, b0, b1, b2, reach);
    case DoCallSys(next, reach) =>
      PostKeeps(t, SEL_SYS, next, t.a0, t.a1, t.a2, reach);
      PostKeeps(t, SEL_IF, next, 1, 0, 0, reach);
    case DoSwpIpl => SwpIplKeeps(t);
    case DoRti(reach) => RtiKeeps(t, reach);
    case DoRetSys(reach) => RetSysKeeps(t, reach);
    case DoHalt(reason) => HaltKeeps(t, reason);
    case _ => ConservedFrame(t, Step(t, op));
  }

  /** A run from t: each operation enabled where it happens. */
  ghost predicate Run(t: Tpu, ops: seq<Op>, r: Tpu)
    decreases |ops|
  {
    if ops == [] then r == t
    else t.ps < WORD && |t.ents| == 6 && Enabled(t, ops[0]) && Run(Step(t, ops[0]), ops[1..], r)
  }

  /** The reset: impure area clear, kernel mode at IPL 7, nothing enabled. */
  predicate ResetState(t: Tpu) {
    && t.ps == 7 && t.ier == 0 && t.eoi == 0 && t.ksp == 0 && t.kgp == 0
    && t.ents == [0, 0, 0, 0, 0, 0] && t.dequeued == [] && t.ended == []
    && (t.parked <==> t.whami != 0)
  }

  lemma {:induction false} RunKeeps(t: Tpu, ops: seq<Op>, r: Tpu)
    requires Invariant(t) && Run(t, ops, r)
    ensures Invariant(r)
    decreases |ops|
  {
    hide Step, Enabled, PalOk;
    if ops != [] {
      StepKeeps(t, ops[0]);
      RunKeeps(Step(t, ops[0]), ops[1..], r);
    }
  }

  /** Over every run from reset: an ID is in service only at IPL 4 and above; below that everything
      dequeued has been ended, once each, in order, at its own port. */
  lemma EveryInterruptEndedOnce(t: Tpu, ops: seq<Op>, r: Tpu)
    requires ResetState(t) && Run(t, ops, r)
    ensures PalOk(r)
    ensures |r.dequeued| - 1 <= |r.ended| <= |r.dequeued|
    ensures forall i :: 0 <= i < |r.ended| ==> r.ended[i] == EoiWrite(EoiAddress(r.dequeued[i]), r.dequeued[i])
    ensures r.ps % 8 < 4 ==> |r.ended| == |r.dequeued|
  {
    assert Invariant(t);
    hide Run, EoiAddress, Conserved, IerTab;
    RunKeeps(t, ops, r);
    ConservedMeans(r);
  }

  /** The writes are the IDs dequeued, in order, all but the one in service. */
  lemma ConservedMeans(r: Tpu)
    requires EoiOk(r)
    ensures |r.ended| + |InService(r)| == |r.dequeued|
    ensures forall i :: 0 <= i < |r.ended| ==> r.ended[i] == EoiWrite(EoiAddress(r.dequeued[i]), r.dequeued[i])
  {
    hide EoiAddress;
    forall i | 0 <= i < |r.ended|
      ensures r.ended[i] == EoiWrite(EoiAddress(r.dequeued[i]), r.dequeued[i])
    {
      assert r.dequeued[i] == Iids(r.ended)[i];
    }
  }

  // ---- What an interrupt does to the IPL -------------------------------------------------------

  lemma PostIpl(t: Tpu, sel: nat, pc: Word, b0: Word, b1: Word, b2: Word, reach: nat)
    requires Selector(sel) && t.ps < WORD && |t.ents| == 6
    ensures var r := Post(t, sel, pc, b0, b1, b2, reach); r.ps == EntryIpl(sel, t.ps) || (r.ps == 7 && r.ier == 0)
  {
    hide Pushed, EoiAddress;
  }

  /** Every interrupt that reaches the system raises the IPL: no level interrupts its own service. */
  lemma InterruptRaisesIpl(t: Tpu, eir: set<nat>, stat: nat, head: nat, tpu: nat, reach: nat)
    requires Invariant(t) && !t.parked
    ensures var r := Interrupt(t, eir, stat, head, tpu, reach);
            r == t || r.ps % 8 > t.ps % 8 || (r.ps == 7 && r.ier == 0)
  {
    hide Post, EoiAddress, Vector, Bit, Enables;
    TableEnables(t.ps % 8, UserPs(t.ps));
    PostIpl(t, SEL_IPI, t.pc, 1, 0, 0, reach);
    PostIpl(t, SEL_IPI, t.pc, 0, 0, 0, reach);
    var iid := head % IIDS;
    VectorFits(iid);
    PostIpl(TakeDevice(t, iid), SEL_DEVICE, t.pc, 3, Vector(iid), 0, reach);
  }

  /** The vector and the port tell Linux which device it is: its decoding of the vector gives back the
      processing element and the ID's low bits. */
  lemma VectorDecodes(iid: nat)
    requires iid < IIDS
    ensures var vector := Vector(iid);
            && vector / 0x1_0000 == iid / 0x4000
            && (vector % 0x1_0000 - (if Bit(iid, 13) then 0x1000 else 0x800)) / 16 == iid % 0x200
  {
    var low := iid % 0x200 * 16 + if Bit(iid, 13) then 0x1000 else 0x800;
    DivUnique(Vector(iid), 0x1_0000, iid / 0x4000, low);
  }

  /** Two IDs end at the same address only for the same port of the same processing element. */
  lemma EoiAddressTellsPort(i: nat, j: nat)
    requires i < IIDS && j < IIDS && EoiAddress(i) == EoiAddress(j)
    ensures i / 0x4000 == j / 0x4000 && i / 0x20 % 4 == j / 0x20 % 4
  {
    var pi, pj := 0x1FFF - i / 0x4000 % 0x2000, 0x1FFF - j / 0x4000 % 0x2000;
    var qi, qj := 7 - i / 0x20 % 4, 7 - j / 0x20 % 4;
    DivUnique(EoiAddress(i), 0x8_0000_0000, pi, qi * 0x1_0000_0000 + 0xFF80_2400);
    DivUnique(EoiAddress(j), 0x8_0000_0000, pj, qj * 0x1_0000_0000 + 0xFF80_2400);
    assert i / 0x4000 < 0x2000 && j / 0x4000 < 0x2000;
  }
}
