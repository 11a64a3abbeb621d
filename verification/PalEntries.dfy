/** Where the PALcode's flows lead: the system's entries as wrent set them, with each event's arguments
    and IPL; the halts and their reasons; and the ways back. */
module PalEntries {
  import opened Bits
  import opened PalState
  import opened PalRuns
  import opened PalFrames

  // ---- What each event enters ------------------------------------------------------------------

  /** An entry by wrent's number (0 entInt, 1 entArith, 2 entMM, 3 entIF, 4 entUna, 5 entSys), its
      arguments and its IPL. */
  datatype Entry = Entry(number: nat, b0: Word, b1: Word, b2: Word, ipl: nat) | Halting(reason: nat) | Nothing

  /** An interrupt's, by the IPL and this TPU's bits: the clock <7:4> and the interprocessor <3:0> below
      IPL 5; below 4 an operator's halt <11:8>, the GIO bits <14:13>, which are dismissed, and the queue;
      levels 0 and 5 are never raised. */
  function InterruptEntry(ipl: nat, eir: set<nat>, stat: nat, head: nat, tpu: nat): Entry {
    if 2 in eir && ipl < 5 && stat / Pow2(4 + tpu) % 2 == 1 then Entry(0, 1, 0, 0, 5)
    else if 3 in eir && ipl < 5 && stat / Pow2(tpu) % 2 == 1 then Entry(0, 0, 0, 0, 5)
    else if 4 in eir && ipl < 4 && stat / Pow2(8 + tpu) % 2 == 1 then Halting(1)
    else if 4 in eir && ipl < 4 && stat / 0x2000 % 4 != 0 then Nothing
    else if 1 in eir && ipl < 4 then
      if head / Pow2(24) % 2 == 1 then
        VectorFits(head % IIDS);
        Entry(0, 3, Vector(head % 0x100_0000), 0, 4)
      else Nothing
    else if (0 in eir && ipl < 6) || (5 in eir && ipl < 7) then Halting(0x10680)
    else Nothing
  }

  /** An event's entry, the kernel stack permitting. */
  function EventEntry(t: Tpu, op: Op): Entry {
    match op
    case TakeInterrupt(eir, stat, head, tpu, _) => InterruptEntry(t.ps % 8, eir, stat, head, tpu)
    case TakeFault(Arithmetic, _, b0, b1, b2, _) => Entry(1, b0, b1, b2, t.ps % 8)
    case TakeFault(MemoryManagement, _, b0, b1, b2, _) => Entry(2, b0, b1, b2, t.ps % 8)
    case TakeFault(InstructionFault, _, b0, b1, b2, _) => Entry(3, b0, b1, b2, t.ps % 8)
    case TakeFault(Unaligned, _, b0, b1, b2, _) => Entry(4, b0, b1, b2, t.ps % 8)
    case DoCallSys(_, _) => if t.ps == 8 then Entry(5, t.a0, t.a1, t.a2, 0) else Entry(3, 1, 0, 0, t.ps % 8)
    case DoHalt(reason) => Halting(reason)
    case _ => Nothing
  }

  /** The addresses last written with wrent and the kernel's GP last written with wrkgp. */
  function EntWritten(ops: seq<Op>, n: nat, was: Word): Word
    decreases |ops|
  {
    if ops == [] then was
    else EntWritten(ops[1..], n, if ops[0].DoWrEnt? && ops[0].number == n then ops[0].address else was)
  }

  function KgpWritten(ops: seq<Op>, was: Word): Word
    decreases |ops|
  {
    if ops == [] then was else KgpWritten(ops[1..], if ops[0].DoWrKgp? then ops[0].kgp else was)
  }

  /** The flows leave the system's entries and its GP alone. */
  predicate SameSystem(t: Tpu, r: Tpu) { r.kgp == t.kgp && r.ents == t.ents && r.whami == t.whami }

  lemma PostSystem(t: Tpu, sel: nat, pc: Word, b0: Word, b1: Word, b2: Word, reach: nat)
    requires Selector(sel) && t.ps < WORD && |t.ents| == 6
    ensures SameSystem(t, Post(t, sel, pc, b0, b1, b2, reach))
  {
    hide Pushed, EoiAddress, Minus, Normal, IerTab;
  }

  lemma InterruptSystem(t: Tpu, eir: set<nat>, stat: nat, head: nat, tpu: nat, reach: nat)
    requires t.ps < WORD && |t.ents| == 6
    ensures SameSystem(t, Interrupt(t, eir, stat, head, tpu, reach))
  {
    hide Post, EoiAddress, Vector, Bit, Enables;
    PostSystem(t, SEL_IPI, t.pc, 1, 0, 0, reach);
    PostSystem(t, SEL_IPI, t.pc, 0, 0, 0, reach);
    VectorFits(head % IIDS);
    PostSystem(TakeDevice(t, head % IIDS), SEL_DEVICE, t.pc, 3, Vector(head % IIDS), 0, reach);
  }

  lemma ReturnSystem(t: Tpu, reach: nat)
    ensures SameSystem(t, Rti(t, reach)) && SameSystem(t, RetSys(t, reach)) && SameSystem(t, SwpIpl(t))
  {
    hide EoiAddress, Plus, Normal, IerTab, Load, ReturnPs;
  }

  lemma StepEnts(t: Tpu, op: Op)
    requires Enabled(t, op) && t.ps < WORD && |t.ents| == 6
    ensures var r := Step(t, op);
            && r.kgp == (if op.DoWrKgp? then op.kgp else t.kgp) && |r.ents| == 6
            && forall n :: 0 <= n < 6 ==> r.ents[n] == if op.DoWrEnt? && op.number == n then op.address else t.ents[n]
  {
    hide Post, Interrupt, Rti, RetSys, SwpIpl, EoiAddress, IerTab, Normal;
    match op
    case TakeInterrupt(eir, stat, head, tpu, reach) => InterruptSystem(t, eir, stat, head, tpu, reach);
    case TakeFault(fault, pc, b0, b1, b2, reach) => PostSystem(t, SelectorOf(fault), pc, b0, b1, b2, reach);
    case DoCallSys(next, reach) =>
      PostSystem(t, SEL_SYS, next, t.a0, t.a1, t.a2, reach);
      PostSystem(t, SEL_IF, next, 1, 0, 0, reach);
    case DoRti(reach) => ReturnSystem(t, reach);
    case DoRetSys(reach) => ReturnSystem(t, reach);
    case DoSwpIpl => ReturnSystem(t, 0);
    case _ =>
  }

  lemma {:induction false} RunEnts(t: Tpu, ops: seq<Op>, r: Tpu, n: nat)
    requires Run(t, ops, r) && |t.ents| == 6 && n < 6
    ensures |r.ents| == 6 && r.ents[n] == EntWritten(ops, n, t.ents[n]) && r.kgp == KgpWritten(ops, t.kgp)
    decreases |ops|
  {
    hide Step, Enabled;
    if ops != [] {
      StepEnts(t, ops[0]);
      RunEnts(Step(t, ops[0]), ops[1..], r, n);
    }
  }

  /** What post leaves, by the selector's entry and IPL. */
  lemma PostEnters(t: Tpu, sel: nat, pc: Word, b0: Word, b1: Word, b2: Word, reach: nat)
    requires Selector(sel) && t.ps <= 8 && |t.ents| == 6
    ensures var r := Post(t, sel, pc, b0, b1, b2, reach);
            var a := t.ents[sel % 256 / 8];
            r.halts == t.halts ==>
              && r.pc == a - a % 4 && r.gp == t.kgp && r.a0 == b0 && r.a1 == b1 && r.a2 == b2
              && r.ps == if sel == 0x600 then 5 else if sel == 0x500 then 4 else t.ps % 8
    ensures var r := Post(t, sel, pc, b0, b1, b2, reach);
            r.halts != t.halts ==> r.halts == t.halts + 1 && r.reason == 2
  {
    hide Pushed, EoiAddress, Plus, Minus, IerTab, UserPs;
  }

  /** The event's entry, as a step does it. */
  ghost predicate Enters(t: Tpu, e: Entry, r: Tpu)
    requires |t.ents| == 6 && (e.Entry? ==> e.number < 6)
  {
    if e.Entry? then
      if r.halts == t.halts then
        && r.pc == t.ents[e.number] - t.ents[e.number] % 4 && r.gp == t.kgp
        && r.a0 == e.b0 && r.a1 == e.b1 && r.a2 == e.b2 && r.ps == e.ipl
      else r.halts == t.halts + 1 && r.reason == 2
    else if e.Halting? then r.halts == t.halts + 1 && r.reason == e.reason
    else r == t
  }

  lemma InterruptEnters(t: Tpu, eir: set<nat>, stat: nat, head: nat, tpu: nat, reach: nat)
    requires PalOk(t)
    ensures var e := InterruptEntry(t.ps % 8, eir, stat, head, tpu); e.Entry? ==> e.number == 0
    ensures Enters(t, InterruptEntry(t.ps % 8, eir, stat, head, tpu), Interrupt(t, eir, stat, head, tpu, reach))
  {
    TableEnables(t.ps % 8, UserPs(t.ps));
    hide Post, EoiAddress, Vector, Enables, Pow2, EoiOk, IerTab, UserPs, Enters;
    SourcesAre(t, eir, stat, head, tpu);
    VectorFits(head % IIDS);
    PostIsEntry(t, SEL_IPI, 1, 0, 0, reach);
    PostIsEntry(t, SEL_IPI, 0, 0, 0, reach);
    DeviceIsEntry(t, head % IIDS, reach);
    HaltIsEntry(t, 1);
    HaltIsEntry(t, 0x10680);
    assert Enters(t, Nothing, t) by { NothingIsEntry(t); }
  }

  /** The levels ISUM shows, by the IPL. */
  lemma SourcesAre(t: Tpu, eir: set<nat>, stat: nat, head: nat, tpu: nat)
    requires PalOk(t)
    ensures var ipl := t.ps % 8;
            && (Sums(eir, t.ier, 2) <==> 2 in eir && ipl < 5) && (Sums(eir, t.ier, 3) <==> 3 in eir && ipl < 5)
            && (Sums(eir, t.ier, 4) <==> 4 in eir && ipl < 4) && (Sums(eir, t.ier, 1) <==> 1 in eir && ipl < 4)
            && (Sums(eir, t.ier, 0) <==> 0 in eir && ipl < 6) && (Sums(eir, t.ier, 5) <==> 5 in eir && ipl < 7)
  {
    hide Enables, EoiOk, IerTab;
    TableEnables(t.ps % 8, UserPs(t.ps));
  }

  lemma PostIsEntry(t: Tpu, sel: nat, b0: Word, b1: Word, b2: Word, reach: nat)
    requires PalOk(t) && sel == SEL_IPI
    ensures Enters(t, Entry(0, b0, b1, b2, 5), Post(t, sel, t.pc, b0, b1, b2, reach))
  {
    hide Post, EoiOk, IerTab;
    PostEnters(t, sel, t.pc, b0, b1, b2, reach);
  }

  lemma DeviceIsEntry(t: Tpu, iid: nat, reach: nat)
    requires PalOk(t) && iid < IIDS
    ensures Vector(iid) < WORD
    ensures Enters(t, Entry(0, 3, Vector(iid), 0, 4),
                   Post(TakeDevice(t, iid), SEL_DEVICE, t.pc, 3, Vector(iid), 0, reach))
  {
    hide Post, EoiOk, IerTab, Vector;
    VectorFits(iid);
    PostEnters(TakeDevice(t, iid), SEL_DEVICE, t.pc, 3, Vector(iid), 0, reach);
  }

  lemma HaltIsEntry(t: Tpu, reason: nat)
    requires |t.ents| == 6 && reason < WORD
    ensures Enters(t, Halting(reason), Halt(t, reason))
  {
    hide EoiAddress;
  }

  lemma NothingIsEntry(t: Tpu)
    requires |t.ents| == 6
    ensures Enters(t, Nothing, t)
  {
  }

  /** The event's entry, by what the run wrote. */
  ghost predicate Leads(e: Entry, ops: seq<Op>, s: Tpu, r: Tpu) {
    if e.Entry? then
      && e.number < 6
      && if r.halts == s.halts then
           && r.pc == EntWritten(ops, e.number, 0) - EntWritten(ops, e.number, 0) % 4 && r.gp == KgpWritten(ops, 0)
           && r.a0 == e.b0 && r.a1 == e.b1 && r.a2 == e.b2 && r.ps == e.ipl
         else r.halts == s.halts + 1 && r.reason == 2
    else if e.Halting? then r.halts == s.halts + 1 && r.reason == e.reason
    else r == s
  }

  /** Over every run from reset: an event enters the system, with its arguments and at its IPL, at the
      address last written for it, with the kernel's GP last written; or halts as told, or on a kernel
      stack it cannot use, reason 2; or is dismissed and changes nothing. */
  lemma EntersWhereTold(t: Tpu, ops: seq<Op>, s: Tpu, op: Op)
    requires ResetState(t) && Run(t, ops, s) && Enabled(s, op)
    requires op.TakeInterrupt? || op.TakeFault? || op.DoCallSys? || op.DoHalt?
    ensures PalOk(s)
    ensures Leads(EventEntry(s, op), ops, s, Step(s, op))
  {
    assert Invariant(t);
    RunKeeps(t, ops, s);
    EventEnters(s, op);
    hide Run, Step, Enabled, EventEntry, PalOk, EntWritten, KgpWritten;
    var e := EventEntry(s, op);
    if e.Entry? { RunEnts(t, ops, s, e.number); }
  }

  lemma EventEnters(s: Tpu, op: Op)
    requires PalOk(s) && Enabled(s, op) && (op.TakeInterrupt? || op.TakeFault? || op.DoCallSys? || op.DoHalt?)
    ensures EventEntry(s, op).Entry? ==> EventEntry(s, op).number < 6
    ensures Enters(s, EventEntry(s, op), Step(s, op))
  {
    hide Post, Interrupt, InterruptEntry, EoiOk, EoiAddress, IerTab;
    match op
    case TakeInterrupt(eir, stat, head, tpu, reach) => InterruptEnters(s, eir, stat, head, tpu, reach);
    case TakeFault(fault, pc, b0, b1, b2, reach) => PostEnters(s, SelectorOf(fault), pc, b0, b1, b2, reach);
    case DoCallSys(next, reach) =>
      PostEnters(s, SEL_SYS, next, s.a0, s.a1, s.a2, reach);
      PostEnters(s, SEL_IF, next, 1, 0, 0, reach);
    case DoHalt(reason) => HaltIsEntry(s, reason);
  }

  // ---- Halts -----------------------------------------------------------------------------------

  predicate Stopped(whami: nat, r: Tpu) {
    && r.ps == 7 && r.ier == 0
    && if whami == 0 then r.pc == 0xffff_fc00_0002_0000 && r.a0 == r.reason && r.a1 == 0 && !r.parked else r.parked
  }

  lemma HaltStops(t: Tpu, reason: nat)
    requires reason < WORD && !t.parked
    ensures Stopped(t.whami, Halt(t, reason)) && Halt(t, reason).reason == reason && Halt(t, reason).halts > t.halts
  {
    hide EoiAddress;
  }

  lemma PostStops(t: Tpu, sel: nat, pc: Word, b0: Word, b1: Word, b2: Word, reach: nat)
    requires Selector(sel) && t.ps < WORD && |t.ents| == 6 && !t.parked
    ensures var r := Post(t, sel, pc, b0, b1, b2, reach); r.halts > t.halts ==> Stopped(t.whami, r)
  {
    hide Halt, Pushed, Minus, Normal, IerTab, Stopped;
    var k := OnKernelStack(t);
    HaltStops(k, HALT_KSNV);
    HaltStops(k.(sp := Minus(k.sp, 48), mem := Pushed(t, Minus(k.sp, 48), pc, reach)), HALT_KSNV);
  }

  lemma InterruptStops(t: Tpu, eir: set<nat>, stat: nat, head: nat, tpu: nat, reach: nat)
    requires t.ps < WORD && |t.ents| == 6 && !t.parked
    ensures var r := Interrupt(t, eir, stat, head, tpu, reach); r.halts > t.halts ==> Stopped(t.whami, r)
  {
    hide Post, Halt, EoiAddress, Vector, Bit, Enables, Stopped;
    HaltStops(t, HALT_OPERATOR);
    HaltStops(t, HALT_UNIMPL + 0x680);
    PostStops(t, SEL_IPI, t.pc, 1, 0, 0, reach);
    PostStops(t, SEL_IPI, t.pc, 0, 0, 0, reach);
    VectorFits(head % IIDS);
    PostStops(TakeDevice(t, head % IIDS), SEL_DEVICE, t.pc, 3, Vector(head % IIDS), 0, reach);
  }

  lemma ReturnStops(t: Tpu, reach: nat)
    requires !t.parked
    ensures Rti(t, reach).halts > t.halts ==> Stopped(t.whami, Rti(t, reach)) && Rti(t, reach).reason == 2
    ensures RetSys(t, reach).halts > t.halts ==> Stopped(t.whami, RetSys(t, reach)) && RetSys(t, reach).reason == 2
  {
    hide Halt, Plus, Normal, IerTab, Load, ReturnPs, EoiAddress, Stopped;
    HaltStops(t, HALT_KSNV);
    var r := RtiPs(t);
    HaltStops(r.(gp := if reach > 2 then Load(t.mem, Plus(t.sp, 16)) else t.gp), HALT_KSNV);
  }

  /** A halted processor 0 is at the console with its reason, any other is parked, and nothing is
      enabled. */
  lemma HaltLeadsTo(t: Tpu, op: Op)
    requires Invariant(t) && Enabled(t, op) && Step(t, op).halts > t.halts
    ensures Stopped(t.whami, Step(t, op))
    ensures op.DoRti? || op.DoRetSys? ==> Step(t, op).reason == 2
  {
    hide Post, Interrupt, Rti, RetSys, EoiAddress, IerTab, Stopped, EoiOk, Normal;
    match op
    case TakeInterrupt(eir, stat, head, tpu, reach) => InterruptStops(t, eir, stat, head, tpu, reach);
    case TakeFault(fault, pc, b0, b1, b2, reach) => PostStops(t, SelectorOf(fault), pc, b0, b1, b2, reach);
    case DoCallSys(next, reach) =>
      PostStops(t, SEL_SYS, next, t.a0, t.a1, t.a2, reach);
      PostStops(t, SEL_IF, next, 1, 0, 0, reach);
    case DoRti(reach) => ReturnStops(t, reach);
    case DoRetSys(reach) => ReturnStops(t, reach);
    case DoHalt(reason) => HaltStops(t, reason);
    case _ =>
  }

  /** A processor other than 0 halted in kernel mode and started again with the stack pointers its halt
      recorded has the ones it had. */
  lemma StartResumesStacks(t: Tpu, reason: nat, restart: Word)
    requires t.ps < 8 && t.whami != 0 && reason < WORD
    ensures var h := Halt(t, reason);
            var r := Start(h, h.pcbKsp, h.pcbUsp, restart);
            && h.parked && !r.parked && r.sp == t.sp && r.usp == t.usp && r.ksp == t.ksp
            && r.pc == restart - restart % 4 && r.ps == 7 && r.ier == 0
  {
    hide EoiAddress;
  }

  // ---- The ways back ---------------------------------------------------------------------------

  /** callsys and retsys: the caller, in user mode, finds its PC, GP, stack pointer and mode again, and
      the kernel its saved stack pointer, from a handler that keeps the frame's PC and GP and the saved
      user stack pointer. */
  lemma RetSysUndoesCallSys(t: Tpu, next: Word, h: Tpu)
    requires PalOk(t) && t.ps == 8 && t.ksp % 8 == 0
    requires var p := CallSys(t, next, FRAME);
             h.sp == p.sp && h.usp == p.usp && Load(h.mem, Plus(p.sp, 8)) == next && Load(h.mem, Plus(p.sp, 16)) == t.gp
    ensures var r := RetSys(h, FRAME);
            && r.pc == next - next % 4 && r.gp == t.gp && r.sp == t.sp && r.ksp == t.ksp
            && r.ps == t.ps && r.ier == t.ier
    ensures var p := CallSys(t, next, FRAME);
            Load(p.mem, Plus(p.sp, 8)) == next && Load(p.mem, Plus(p.sp, 16)) == t.gp && p.usp == t.sp
  {
    PopsWhatWasPushed(t.ksp);
    PushedIsFramed(t, Minus(t.ksp, 48), next);
    hide Plus, Minus, Pushed, EoiAddress, EoiOk, Halt, Vector, Enables, DoEoi;
  }

  /** swpipl returns the IPL there was, and with it gives it back. */
  lemma SwpIplTwice(t: Tpu)
    requires PalOk(t) && t.ps < 8
    ensures SwpIpl(t).v0 == t.ps && SwpIpl(t).ps == t.a0 % 8
    ensures var r := SwpIpl(SwpIpl(t).(a0 := SwpIpl(t).v0)); r.ps == t.ps && r.ier == t.ier && r.v0 == t.a0 % 8
  {
    hide EoiAddress;
  }

  /** The end of interrupt goes to EOI_DAT, offset 0x2400, of the port and element the ID names. */
  lemma EoiAddressFields(iid: nat)
    requires iid < IIDS
    ensures var a := EoiAddress(iid);
            && a % 0x1_0000_0000 == 0xFF80_2400
            && a / 0x1_0000_0000 % 8 == 7 - iid / 0x20 % 4
            && a / 0x8_0000_0000 == 0x1FFF - iid / 0x4000
  {
    var p, q := 0x1FFF - iid / 0x4000, 7 - iid / 0x20 % 4;
    assert iid / 0x4000 % 0x2000 == iid / 0x4000;
    DivUnique(EoiAddress(iid), 0x1_0000_0000, p * 8 + q, 0xFF80_2400);
    DivUnique(p * 8 + q, 8, p, q);
    DivUnique(EoiAddress(iid), 0x8_0000_0000, p, q * 0x1_0000_0000 + 0xFF80_2400);
  }

  /** The bit of R_INT_STAT an interrupt clears is set, this TPU's, and the served source's. */
  lemma AcknowledgesServed(t: Tpu, eir: set<nat>, stat: nat, head: nat, tpu: nat)
    requires PalOk(t) && tpu < 4
    ensures var ack, e := Acknowledged(t, eir, stat, tpu), InterruptEntry(t.ps % 8, eir, stat, head, tpu);
            && (e == Entry(0, 1, 0, 0, 5) ==> ack == Pow2(4 + tpu) && stat / ack % 2 == 1)
            && (e == Entry(0, 0, 0, 0, 5) ==> ack == Pow2(tpu) && stat / ack % 2 == 1)
            && (e == Halting(1) ==> ack == Pow2(8 + tpu) && stat / ack % 2 == 1)
            && (e.Entry? && e.b0 == 3 ==> ack == 0)
            && (4 in eir && t.ps % 8 < 4 && e == Nothing && stat / 0x2000 % 4 != 0 ==>
                  ack == stat / 0x2000 % 4 * 0x2000)
  {
    TableEnables(t.ps % 8, UserPs(t.ps));
    hide EoiAddress, Vector, Enables, Pow2, EoiOk, IerTab, UserPs;
  }
}
