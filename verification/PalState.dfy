/** The EV8 PALcode's flows between a program and its operating system, as functions of one TPU's
    state: interrupt dispatch, post, rti, retsys, callsys, swpipl, wtint, the halt and the start of a
    parked TPU (firmware/ev8/pal.c, firmware/ev8/layout.h). */
module PalState {
  import opened Bits

  const IER_IPL0: nat := 0x7e_0000_0000
  const IER_IPL4: nat := 0x5a_0000_0000
  const IER_IPL5: nat := 0x42_0000_0000
  const IER_IPL6: nat := 0x40_0000_0000
  const USER: nat := 0x18 // IER_CM's mode field
  const EOI_VALID: nat := 0x1_0000_0000
  const IIDS: nat := 0x100_0000 // interrupt IDs are 24 bits
  const SEL_ARITH: nat := 0x008
  const SEL_MM: nat := 0x010
  const SEL_IF: nat := 0x018
  const SEL_UNA: nat := 0x020
  const SEL_SYS: nat := 0x028
  const SEL_IPI: nat := 0x600
  const SEL_DEVICE: nat := 0x500
  const HALT_OPERATOR: nat := 1
  const HALT_KSNV: nat := 2
  const HALT_CALLPAL: nat := 5
  const HALT_UNIMPL: nat := 0x10000
  const FRAME: nat := 6 // a frame's quadwords
  const KSEG_CONSOLE: nat := 0xffff_fc00_0002_0000

  type Memory = map<Word, Word>

  /** A write of an interrupt ID to the EOI_DAT of an IO7 port. */
  datatype EoiWrite = EoiWrite(address: nat, iid: nat)

  /** ps, eoi, ksp, usp, kgp and ents are the impure area's, pcbKsp and pcbUsp the stack pointers a
      halt leaves in the HWPCB, halts how often it has, mem the kernel's virtual memory by quadword.
      dequeued and ended are what the queue gave this TPU and what it wrote back, in order. */
  datatype Tpu = Tpu(
    whami: nat, ps: nat, ier: nat, eoi: nat, ksp: Word, usp: Word, kgp: Word, ents: seq<Word>, parked: bool,
    v0: Word, a0: Word, a1: Word, a2: Word, gp: Word, sp: Word, pc: Word, mem: Memory,
    pcbKsp: Word, pcbUsp: Word, reason: nat, halts: nat, dequeued: seq<nat>, ended: seq<EoiWrite>)

  function Plus(x: Word, n: nat): Word { (x + n) % WORD }

  function Minus(x: Word, n: nat): Word
    requires n <= WORD
  {
    (x + WORD - n) % WORD
  }

  /** A PC with its mode bits clear. */
  function Normal(pc: Word): Word { pc - pc % 4 }

  function Load(m: Memory, a: Word): Word { if a in m then m[a] else 0 }

  /** The IPL table the reset builds. */
  function IerTab(ipl: nat): nat {
    if ipl < 4 then IER_IPL0 else if ipl == 4 then IER_IPL4
    else if ipl == 5 then IER_IPL5 else if ipl == 6 then IER_IPL6 else 0
  }

  predicate UserPs(ps: nat) { ps / 8 % 2 == 1 }

  // ---- The interrupt in service ----------------------------------------------------------------

  /** Where the end of interrupt goes: EOI_DAT of port <6:5> of processing element <23:14>. */
  function EoiAddress(iid: nat): int {
    (0x1FFF - iid / 0x4000 % 0x2000) * 0x8_0000_0000 + (7 - iid / 0x20 % 4) * 0x1_0000_0000 + 0xFF80_2400
  }

  /** do_eoi. */
  function DoEoi(t: Tpu): Tpu {
    if t.eoi / EOI_VALID % 2 == 1 then
      t.(eoi := 0, ended := t.ended + [EoiWrite(EoiAddress(t.eoi % IIDS), t.eoi % IIDS)])
    else t
  }

  // ---- Halt, park and start --------------------------------------------------------------------

  /** halt_path: the stack pointers by the mode in PS. Processor 0 goes back to the console, any other
      parks. */
  function Halt(t: Tpu, reason: nat): Tpu
    requires reason < WORD
  {
    var user := UserPs(t.ps);
    var h := DoEoi(t).(ier := 0, ps := 7, reason := reason, halts := t.halts + 1,
                       pcbKsp := if user then t.ksp else t.sp, pcbUsp := if user then t.sp else t.usp);
    if t.whami == 0 then h.(a0 := reason, a1 := 0, pc := KSEG_CONSOLE) else h.(parked := true)
  }

  /** A start command with a valid context. */
  function Start(t: Tpu, ksp: Word, usp: Word, restart: Word): Tpu {
    t.(sp := ksp, usp := usp, ps := 7, ier := 0, pc := Normal(restart), parked := false)
  }

  // ---- Into the operating system ---------------------------------------------------------------

  predicate Selector(sel: nat) {
    sel in {SEL_ARITH, SEL_MM, SEL_IF, SEL_UNA, SEL_SYS, SEL_IPI, SEL_DEVICE}
  }

  /** The i-th of the stores of which the first n happen. */
  function StoreIf(m: Memory, i: nat, n: nat, a: Word, x: Word): Memory { if i < n then m[a := x] else m }

  /** The frame at f, its first n stores in post's order. */
  function Pushed(t: Tpu, f: Word, pc: Word, n: nat): Memory
    requires t.ps < WORD
  {
    var m0 := StoreIf(t.mem, 0, n, Plus(f, 16), t.gp);
    var m1 := StoreIf(m0, 1, n, Plus(f, 24), t.a0);
    var m2 := StoreIf(m1, 2, n, Plus(f, 32), t.a1);
    var m3 := StoreIf(m2, 3, n, Plus(f, 40), t.a2);
    StoreIf(StoreIf(m3, 4, n, f, t.ps), 5, n, Plus(f, 8), pc)
  }

  /** The kernel's stack pointer in place of the user's. */
  function OnKernelStack(t: Tpu): Tpu {
    if UserPs(t.ps) then t.(usp := t.sp, sp := t.ksp) else t
  }

  /** The IPL a selector asks for: its own, or the one there was. */
  function EntryIpl(sel: nat, ps: nat): (ipl: nat)
    requires Selector(sel)
    ensures ipl < 8 && !UserPs(ipl)
  {
    if sel / 256 == 0 then ps % 8 else sel / 256 - 1
  }

  /** post; reach counts the accesses to the kernel stack that translate before one that does not. */
  function Post(t: Tpu, sel: nat, pc: Word, b0: Word, b1: Word, b2: Word, reach: nat): Tpu
    requires Selector(sel) && t.ps < WORD && |t.ents| == 6
  {
    var k := OnKernelStack(t);
    if k.sp % 8 != 0 then Halt(k, HALT_KSNV)
    else
      var f := Minus(k.sp, 48);
      var g := k.(sp := f, mem := Pushed(t, f, pc, reach));
      if reach < FRAME then Halt(g, HALT_KSNV)
      else
        var ipl := EntryIpl(sel, t.ps);
        g.(ps := ipl, ier := IerTab(ipl), pc := Normal(t.ents[sel % 256 / 8]), gp := t.kgp,
           a0 := b0, a1 := b1, a2 := b2)
  }

  /** wrent: entry n, of the six, is from now on at a; any other number is ignored. */
  function WrEnt(t: Tpu, n: nat, a: Word): Tpu {
    if n < |t.ents| then t.(ents := t.ents[n := a]) else t
  }

  /** The flows that end in post for a fault: ARITH; the misses, DFAULT and IACV; OPCDEC, FEN and the
      calls that raise entIF; UNALIGN. */
  datatype Fault = Arithmetic | MemoryManagement | InstructionFault | Unaligned

  function SelectorOf(f: Fault): (sel: nat)
    ensures Selector(sel)
  {
    match f
    case Arithmetic => SEL_ARITH
    case MemoryManagement => SEL_MM
    case InstructionFault => SEL_IF
    case Unaligned => SEL_UNA
  }

  /** callsys: entSys from user mode, from kernel mode a bugcheck. */
  function CallSys(t: Tpu, next: Word, reach: nat): Tpu
    requires t.ps < WORD && |t.ents| == 6
  {
    if UserPs(t.ps) then Post(t, SEL_SYS, next, t.a0, t.a1, t.a2, reach)
    else Post(t, SEL_IF, next, 1, 0, 0, reach)
  }

  // ---- Interrupts ------------------------------------------------------------------------------

  predicate Bit(x: nat, n: nat) { x / Pow2(n) % 2 == 1 }

  /** EIEN's enable of an external interrupt level. */
  predicate Enables(ier: nat, level: nat) { Bit(ier / 0x2_0000_0000, level) }

  /** ISUM shows the levels raised and enabled. */
  predicate Sums(eir: set<nat>, ier: nat, level: nat) { level in eir && Enables(ier, level) }

  /** The vector the device's interrupt carries. */
  function Vector(iid: nat): nat {
    iid / 0x4000 * 0x1_0000 + iid % 0x200 * 16 + (if Bit(iid, 13) then 0x1000 else 0x800)
  }

  /** The queue's head removed and kept as the interrupt in service. */
  function TakeDevice(t: Tpu, iid: nat): Tpu
    requires iid < IIDS
  {
    t.(eoi := EOI_VALID + iid, dequeued := t.dequeued + [iid])
  }

  lemma VectorFits(iid: nat)
    requires iid < IIDS
    ensures Vector(iid) < WORD
  {
  }

  /** The interrupt entry: eir the levels raised, stat the chip's R_INT_STAT, head its queue's head
      with <24> valid, tpu this TPU's number. */
  function Interrupt(t: Tpu, eir: set<nat>, stat: nat, head: nat, tpu: nat, reach: nat): Tpu
    requires t.ps < WORD && |t.ents| == 6
  {
    if Sums(eir, t.ier, 2) && Bit(stat, 4 + tpu) then Post(t, SEL_IPI, t.pc, 1, 0, 0, reach)
    else if Sums(eir, t.ier, 3) && Bit(stat, tpu) then Post(t, SEL_IPI, t.pc, 0, 0, 0, reach)
    else if Sums(eir, t.ier, 4) && Bit(stat, 8 + tpu) then Halt(t, HALT_OPERATOR)
    else if Sums(eir, t.ier, 4) && stat / 0x2000 % 4 != 0 then t
    else if Sums(eir, t.ier, 1) then
      if Bit(head, 24) then
        var iid := head % IIDS;
        VectorFits(iid);
        Post(TakeDevice(t, iid), SEL_DEVICE, t.pc, 3, Vector(iid), 0, reach)
      else t
    else if Sums(eir, t.ier, 0) || Sums(eir, t.ier, 5) then Halt(t, HALT_UNIMPL + 0x680)
    else t
  }

  /** Whether it enters the operating system, rather than halting or dismissing. */
  predicate Dispatches(t: Tpu, eir: set<nat>, stat: nat, head: nat, tpu: nat) {
    || (Sums(eir, t.ier, 2) && Bit(stat, 4 + tpu))
    || (Sums(eir, t.ier, 3) && Bit(stat, tpu))
    || (!(Sums(eir, t.ier, 4) && (Bit(stat, 8 + tpu) || stat / 0x2000 % 4 != 0))
        && Sums(eir, t.ier, 1) && Bit(head, 24))
  }

  /** What it writes to R_INT_STAT, whose bits clear where 1 is written: the bit of the source it
      serves. */
  function Acknowledged(t: Tpu, eir: set<nat>, stat: nat, tpu: nat): nat {
    if Sums(eir, t.ier, 2) && Bit(stat, 4 + tpu) then Pow2(4 + tpu)
    else if Sums(eir, t.ier, 3) && Bit(stat, tpu) then Pow2(tpu)
    else if Sums(eir, t.ier, 4) && Bit(stat, 8 + tpu) then Pow2(8 + tpu)
    else if Sums(eir, t.ier, 4) then stat / 0x2000 % 4 * 0x2000
    else 0
  }

  // ---- Back, and the IPL -----------------------------------------------------------------------

  /** swpipl. */
  function SwpIpl(t: Tpu): Tpu {
    var ipl := t.a0 % 8;
    var r := t.(v0 := t.ps % 8, ps := ipl, ier := IerTab(ipl));
    if ipl < 4 then DoEoi(r) else r
  }

  /** The PS rti takes from the frame: user mode is always PS 8. */
  function ReturnPs(saved: nat): (ps: nat)
    ensures ps <= 8 && (UserPs(ps) <==> ps == 8) && (UserPs(saved) <==> ps == 8)
  {
    if UserPs(saved) then 8 else saved % 16
  }

  /** rti once it has the frame's PS and PC: the mode's stack pointers, PS and the end of interrupt. */
  function RtiPs(t: Tpu): Tpu {
    var ps := ReturnPs(Load(t.mem, t.sp));
    var r := t.(ps := ps, ksp := if ps == 8 then Plus(t.sp, 48) else t.ksp);
    if ps % 8 < 4 then DoEoi(r) else r
  }

  /** rti. The PS is written before the last four loads: a miss there halts with the new one. */
  function Rti(t: Tpu, reach: nat): Tpu {
    if t.sp % 8 != 0 || reach < 2 then Halt(t, HALT_KSNV)
    else
      var r := RtiPs(t);
      var gp := if reach > 2 then Load(t.mem, Plus(t.sp, 16)) else t.gp;
      if reach < FRAME then Halt(r.(gp := gp), HALT_KSNV)
      else
        r.(ier := IerTab(r.ps % 8) + (if UserPs(r.ps) then USER else 0),
           sp := if r.ps == 8 then t.usp else Plus(t.sp, 48), pc := Normal(Load(t.mem, Plus(t.sp, 8))), gp := gp,
           a0 := Load(t.mem, Plus(t.sp, 24)), a1 := Load(t.mem, Plus(t.sp, 32)), a2 := Load(t.mem, Plus(t.sp, 40)))
  }

  /** retsys. */
  function RetSys(t: Tpu, reach: nat): Tpu {
    if t.sp % 8 != 0 || reach < 2 then Halt(t, HALT_KSNV)
    else
      DoEoi(t).(pc := Normal(Load(t.mem, Plus(t.sp, 8))), gp := Load(t.mem, Plus(t.sp, 16)),
                ksp := Plus(t.sp, 48), sp := t.usp, ps := 8, ier := IerTab(0) + USER)
  }

  /** wtint, which leaves with the IPL's enables however it was woken; armed is the quadword it
      watched, which it leaves in a0. */
  function WtInt(t: Tpu, armed: Word): Tpu { t.(v0 := 0, a0 := armed, ier := IerTab(t.ps % 8)) }
}
