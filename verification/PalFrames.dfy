/** post and rti: the frame pushed is the context popped, through any nesting of handlers. */
module PalFrames {
  import opened Bits
  import opened PalState
  import opened PalRuns

  /** What an interrupted program must find again. */
  datatype Context = Context(ps: nat, ier: nat, pc: Word, gp: Word, a0: Word, a1: Word, a2: Word, sp: Word, ksp: Word)

  function ContextOf(t: Tpu): Context { Context(t.ps, t.ier, Normal(t.pc), t.gp, t.a0, t.a1, t.a2, t.sp, t.ksp) }

  /** The context's six quadwords at f. */
  predicate Framed(m: Memory, f: Word, t: Tpu, pc: Word) {
    && Load(m, f) == t.ps && Load(m, Plus(f, 8)) == pc && Load(m, Plus(f, 16)) == t.gp
    && Load(m, Plus(f, 24)) == t.a0 && Load(m, Plus(f, 32)) == t.a1 && Load(m, Plus(f, 40)) == t.a2
  }

  lemma PlusDiffers(f: Word, i: nat, j: nat)
    requires i < j < 64
    ensures Plus(f, i) != Plus(f, j)
  {
  }

  lemma PushedIsFramed(t: Tpu, f: Word, pc: Word)
    requires t.ps < WORD
    ensures Framed(Pushed(t, f, pc, FRAME), f, t, pc)
  {
    assert Plus(f, 0) == f;
    forall i: nat, j: nat | i < j < 64
      ensures Plus(f, i) != Plus(f, j)
    {
      PlusDiffers(f, i, j);
    }
    hide Plus;
  }

  lemma PopsWhatWasPushed(sp: Word)
    ensures Plus(Minus(sp, 48), 48) == sp
    ensures sp % 8 == 0 ==> Minus(sp, 48) % 8 == 0
  {
  }

  lemma NormalIs(pc: Word)
    ensures Normal(pc) == pc - pc % 4
  {
  }

  lemma NormalTwice(pc: Word)
    ensures Normal(Normal(pc)) == Normal(pc)
  {
  }

  lemma ReturnPsKeeps(ps: nat)
    requires ps <= 8
    ensures ReturnPs(ps) == ps && (UserPs(ps) <==> ps == 8)
  {
  }

  /** rti undoes post: from either mode at any IPL, to a handler that returns with the frame, the
      saved user stack pointer and, interrupted in kernel mode, the kernel's intact. */
  lemma RtiUndoesPost(t: Tpu, sel: nat, b0: Word, b1: Word, b2: Word, h: Tpu)
    requires PalOk(t) && Selector(sel)
    requires OnKernelStack(t).sp % 8 == 0
    requires var p := Post(t, sel, t.pc, b0, b1, b2, FRAME);
             h.sp == p.sp && Framed(h.mem, h.sp, t, t.pc) && if t.ps == 8 then h.usp == p.usp else h.ksp == p.ksp
    ensures ContextOf(Rti(h, FRAME)) == ContextOf(t) && Rti(h, FRAME).pc == t.pc - t.pc % 4
  {
    NormalIs(t.pc);
    hide Plus, Minus, Pushed, Normal, ReturnPs, EoiOk;
    var k := OnKernelStack(t);
    PopsWhatWasPushed(k.sp);
    ReturnPsKeeps(t.ps);
    NormalTwice(t.pc);
  }

  // ---- Nested handlers -------------------------------------------------------------------------

  /** What a handler does: its own code, the IPL, and handlers nested in it. back is the state a
      nested handler returns from. */
  datatype Act =
    | Compute(v0: Word, a0: Word, a1: Word, a2: Word, gp: Word, sp: Word, pc: Word, mem: Memory)
    | SetIpl(ipl: Word)
    | Nest(sel: nat, b0: Word, b1: Word, b2: Word, body: Work, back: Tpu)
  datatype Work = Done | Then(act: Act, rest: Work)

  /** The stack between a stack pointer and its end. */
  ghost predicate SameStack(m: Memory, n: Memory, floor: nat, top: nat) {
    forall a: Word :: floor <= a < top ==> Load(m, a) == Load(n, a)
  }

  /** A handler entered with its stack pointer at floor, on a stack that ends at top, takes t to r by
      w: it may write anywhere but between the two, is interrupted only with an aligned stack pointer
      at or below floor and room for a frame, and brings its stack pointer back before it returns. */
  ghost predicate Performs(t: Tpu, floor: nat, top: nat, w: Work, r: Tpu)
    decreases w
  {
    match w
    case Done => r == t
    case Then(act, rest) =>
      match act {
        case Compute(v0, a0, a1, a2, gp, sp, pc, mem) =>
          SameStack(t.mem, mem, floor, top)
          && Performs(t.(v0 := v0, a0 := a0, a1 := a1, a2 := a2, gp := gp, sp := sp, pc := pc, mem := mem),
                      floor, top, rest, r)
        case SetIpl(ipl) => Performs(SwpIpl(t.(a0 := ipl)), floor, top, rest, r)
        case Nest(sel, b0, b1, b2, body, back) =>
          && Selector(sel) && t.ps < WORD && |t.ents| == 6
          && t.sp % 8 == 0 && 48 <= t.sp <= floor
          && Performs(Post(t, sel, t.pc, b0, b1, b2, FRAME), t.sp - 48, top, body, back)
          && back.sp == t.sp - 48
          && Performs(Rti(back, FRAME), floor, top, rest, r)
      }
  }

  ghost predicate InKernel(t: Tpu) {
    t.ps < 8 && t.ier == IerTab(t.ps) && |t.ents| == 6
  }

  /** What a handler leaves alone. */
  ghost predicate Left(t: Tpu, r: Tpu, floor: nat, top: nat) {
    r.usp == t.usp && r.ksp == t.ksp && r.kgp == t.kgp && r.ents == t.ents && SameStack(t.mem, r.mem, floor, top)
  }

  /** A frame leaves what is above it as it was. */
  lemma PostAbove(t: Tpu, pc: Word, f: Word, top: nat)
    requires t.ps < WORD && f + 48 < WORD
    ensures SameStack(t.mem, Pushed(t, f, pc, FRAME), f + 48, top)
  {
  }

  lemma FrameSurvives(m: Memory, n: Memory, f: Word, t: Tpu, pc: Word, top: nat)
    requires f + 48 <= top <= WORD && Framed(m, f, t, pc) && SameStack(m, n, f, top)
    ensures Framed(n, f, t, pc)
  {
  }

  /** post from kernel mode, onto a stack with room. */
  lemma PostInKernel(t: Tpu, sel: nat, b0: Word, b1: Word, b2: Word, top: nat)
    requires InKernel(t) && Selector(sel) && t.sp % 8 == 0 && 48 <= t.sp
    ensures var p := Post(t, sel, t.pc, b0, b1, b2, FRAME);
            && InKernel(p) && p.sp == t.sp - 48 && Left(t, p, t.sp, top)
            && Framed(p.mem, p.sp, t, t.pc)
  {
    hide Pushed, Framed, Normal, Plus;
    var f := Minus(t.sp, 48);
    assert f == t.sp - 48;
    PostAbove(t, t.pc, f, top);
    PushedIsFramed(t, f, t.pc);
  }

  lemma SwpIplInKernel(t: Tpu, top: nat)
    requires |t.ents| == 6
    ensures InKernel(SwpIpl(t)) && Left(t, SwpIpl(t), 0, top)
  {
  }

  /** A nested handler that left its stack above its frame alone returns to the very context. */
  lemma NestReturns(t: Tpu, sel: nat, b0: Word, b1: Word, b2: Word, back: Tpu, top: nat)
    requires InKernel(t) && Selector(sel) && t.sp % 8 == 0 && 48 <= t.sp <= top <= WORD
    requires Left(Post(t, sel, t.pc, b0, b1, b2, FRAME), back, t.sp - 48, top) && back.sp == t.sp - 48
    ensures InKernel(Rti(back, FRAME)) && Left(t, Rti(back, FRAME), t.sp, top)
            && ContextOf(Rti(back, FRAME)) == ContextOf(t)
  {
    hide Post, Plus, Normal, Rti, ContextOf, Framed;
    var p := Post(t, sel, t.pc, b0, b1, b2, FRAME);
    PostInKernel(t, sel, b0, b1, b2, top);
    FrameSurvives(p.mem, back.mem, p.sp, t, t.pc, top);
    RtiRestores(t, back, top);
  }

  /** rti with t's frame on the stack. */
  lemma RtiRestores(t: Tpu, h: Tpu, top: nat)
    requires InKernel(t) && t.sp % 8 == 0 && 48 <= t.sp
    requires h.sp == t.sp - 48 && Framed(h.mem, h.sp, t, t.pc) && h.ksp == t.ksp && |h.ents| == 6
    ensures InKernel(Rti(h, FRAME)) && Left(h, Rti(h, FRAME), 0, top) && ContextOf(Rti(h, FRAME)) == ContextOf(t)
  {
    FrameBelow(t.sp);
    ReturnPsKeeps(t.ps);
    NormalTwice(t.pc);
    RtiPsFrame(h);
    SameStackSelf(h.mem, 0, top);
    hide Normal, ReturnPs, Plus, UserPs, RtiPs, Load, SameStack, IerTab;
    assert t.ps % 8 == t.ps;
  }

  lemma FrameBelow(sp: Word)
    requires sp % 8 == 0 && 48 <= sp
    ensures (sp - 48) % 8 == 0 && Plus(sp - 48, 48) == sp
  {
    DivMod(sp, 8);
    DivUnique(sp - 48, 8, sp / 8 - 6, 0);
  }

  lemma RtiPsFrame(h: Tpu)
    ensures var r := RtiPs(h);
            && r.ps == ReturnPs(Load(h.mem, h.sp)) && (r.ps < 8 ==> r.ksp == h.ksp)
            && r.mem == h.mem && r.usp == h.usp && r.kgp == h.kgp && r.ents == h.ents && r.sp == h.sp
  {
    hide ReturnPs, Plus, EoiAddress, Load;
  }

  lemma LeftTrans(t: Tpu, s: Tpu, r: Tpu, low: nat, floor: nat, top: nat)
    requires Left(t, s, low, top) && Left(s, r, floor, top) && low <= floor
    ensures Left(t, r, floor, top)
  {
  }

  /** Every handler, however deep its nesting, leaves its stack above its frame alone. */
  lemma {:induction false} WorkLeaves(t: Tpu, floor: nat, top: nat, w: Work, r: Tpu)
    requires InKernel(t) && Performs(t, floor, top, w, r) && floor <= top <= WORD
    ensures InKernel(r) && Left(t, r, floor, top)
    decreases w
  {
    hide Post, Rti, SwpIpl, ContextOf, SameStack;
    match w
    case Done => assert SameStack(t.mem, t.mem, floor, top) by { SameStackSelf(t.mem, floor, top); }
    case Then(act, rest) =>
      match act {
        case Compute(v0, a0, a1, a2, gp, sp, pc, mem) =>
          var s := t.(v0 := v0, a0 := a0, a1 := a1, a2 := a2, gp := gp, sp := sp, pc := pc, mem := mem);
          WorkLeaves(s, floor, top, rest, r);
          LeftTrans(t, s, r, floor, floor, top);
        case SetIpl(ipl) =>
          var s := SwpIpl(t.(a0 := ipl));
          SwpIplInKernel(t.(a0 := ipl), top);
          WorkLeaves(s, floor, top, rest, r);
          LeftTrans(t, s, r, 0, floor, top);
        case Nest(sel, b0, b1, b2, body, back) =>
          PostInKernel(t, sel, b0, b1, b2, top);
          WorkLeaves(Post(t, sel, t.pc, b0, b1, b2, FRAME), t.sp - 48, top, body, back);
          NestReturns(t, sel, b0, b1, b2, back, top);
          WorkLeaves(Rti(back, FRAME), floor, top, rest, r);
          LeftTrans(t, Rti(back, FRAME), r, t.sp, floor, top);
      }
  }

  lemma SameStackSelf(m: Memory, floor: nat, top: nat)
    ensures SameStack(m, m, floor, top)
  {
  }

  /** The interrupted program finds its context again, from either mode, whatever handlers nest and
      whatever they write off their stack. */
  lemma HandledReturnsToContext(t: Tpu, sel: nat, b0: Word, b1: Word, b2: Word, top: nat, w: Work, back: Tpu)
    requires PalOk(t) && Selector(sel)
    requires OnKernelStack(t).sp % 8 == 0 && 48 <= OnKernelStack(t).sp <= top <= WORD
    requires var p := Post(t, sel, t.pc, b0, b1, b2, FRAME); Performs(p, p.sp, top, w, back) && back.sp == p.sp
    ensures ContextOf(Rti(back, FRAME)) == ContextOf(t)
  {
    hide Rti, ContextOf, SameStack, Performs, Framed, EoiOk, Normal, Plus, Pushed;
    var k := OnKernelStack(t);
    var p := Post(t, sel, t.pc, b0, b1, b2, FRAME);
    var f := Minus(k.sp, 48);
    assert f == k.sp - 48;
    assert InKernel(p);
    WorkLeaves(p, p.sp, top, w, back);
    PushedIsFramed(t, f, t.pc);
    FrameSurvives(p.mem, back.mem, p.sp, t, t.pc, top);
    RtiUndoesPost(t, sel, b0, b1, b2, back);
  }

  // ---- What a halt records ---------------------------------------------------------------------

  /** The user's stack pointer, in use or saved. */
  function UserSp(t: Tpu): Word { if UserPs(t.ps) then t.sp else t.usp }

  /** The operations that can halt on the kernel's stack with PS saying user mode: an entry from user
      mode that goes to post, and an rti whose frame returns to user mode, once it has read the PS. */
  predicate OnBothStacks(t: Tpu, op: Op) {
    match op
    case TakeInterrupt(eir, stat, head, tpu, _) => t.ps == 8 && Dispatches(t, eir, stat, head, tpu)
    case TakeFault(_, _, _, _, _, _) => t.ps == 8
    case DoCallSys(_, _) => t.ps == 8
    case DoRti(reach) => t.sp % 8 == 0 && reach >= 2 && UserPs(Load(t.mem, t.sp))
    case _ => false
  }

  /** The kernel's stack pointer at that halt. */
  function KernelSp(t: Tpu, op: Op): Word { if op.DoRti? then t.sp else Minus(t.ksp, 48) }

  lemma PostHaltSp(t: Tpu, sel: nat, pc: Word, b0: Word, b1: Word, b2: Word, reach: nat)
    requires Selector(sel) && t.ps <= 8 && |t.ents| == 6 && t.ksp % 8 == 0
    ensures var r := Post(t, sel, pc, b0, b1, b2, reach);
            && (r.halts > t.halts <==> OnKernelStack(t).sp % 8 != 0 || reach < FRAME)
            && (r.halts > t.halts ==> r.pcbUsp == if t.ps == 8 then Minus(t.ksp, 48) else t.usp)
  {
    hide Minus, EoiAddress, Pushed;
  }

  lemma RtiHaltSp(t: Tpu, reach: nat)
    requires t.ps < 8
    ensures var r := Rti(t, reach);
            && (r.halts > t.halts <==> t.sp % 8 != 0 || reach < FRAME)
            && (r.halts > t.halts ==> r.pcbUsp == if OnBothStacks(t, DoRti(reach)) then t.sp else t.usp)
  {
    assert !UserPs(t.ps);
    RtiPsIs(t);
    hide Plus, EoiAddress, Normal, IerTab, RtiPs, UserPs, Load;
  }

  lemma RtiPsIs(t: Tpu)
    ensures var r := RtiPs(t);
            && r.ps <= 8 && (UserPs(r.ps) <==> UserPs(Load(t.mem, t.sp)))
            && r.sp == t.sp && r.usp == t.usp && r.halts == t.halts
  {
    hide Plus, EoiAddress, Load;
  }

  lemma InterruptHaltSp(t: Tpu, eir: set<nat>, stat: nat, head: nat, tpu: nat, reach: nat)
    requires t.ps <= 8 && |t.ents| == 6 && t.ksp % 8 == 0
    ensures var r := Interrupt(t, eir, stat, head, tpu, reach);
            r.halts > t.halts ==>
              r.pcbUsp == if t.ps == 8 && Dispatches(t, eir, stat, head, tpu) then Minus(t.ksp, 48) else UserSp(t)
  {
    hide Post, Minus, EoiAddress, Vector, Bit, Enables;
    PostHaltSp(t, SEL_IPI, t.pc, 1, 0, 0, reach);
    PostHaltSp(t, SEL_IPI, t.pc, 0, 0, 0, reach);
    VectorFits(head % IIDS);
    PostHaltSp(TakeDevice(t, head % IIDS), SEL_DEVICE, t.pc, 3, Vector(head % IIDS), 0, reach);
  }

  /** A halt is meant to leave the user's stack pointer in the HWPCB. Over every operation from every
      state a run reaches, one that halts does so if and only if it was not on the kernel's stack with
      PS saying user mode (or the two pointers are the same): there it records the kernel's. */
  lemma HaltRecordsUserSp(t: Tpu, op: Op)
    requires Invariant(t) && Enabled(t, op) && Step(t, op).halts > t.halts
    ensures Step(t, op).pcbUsp == (if OnBothStacks(t, op) then KernelSp(t, op) else UserSp(t))
    ensures Step(t, op).pcbUsp == UserSp(t) <==> !OnBothStacks(t, op) || KernelSp(t, op) == UserSp(t)
  {
    hide Post, Rti, Minus, EoiAddress, Interrupt, Dispatches, EoiOk, IerTab;
    match op
    case TakeInterrupt(eir, stat, head, tpu, reach) => InterruptHaltSp(t, eir, stat, head, tpu, reach);
    case TakeFault(fault, pc, b0, b1, b2, reach) => PostHaltSp(t, SelectorOf(fault), pc, b0, b1, b2, reach);
    case DoCallSys(next, reach) =>
      PostHaltSp(t, SEL_SYS, next, t.a0, t.a1, t.a2, reach);
      PostHaltSp(t, SEL_IF, next, 1, 0, 0, reach);
    case DoRti(reach) => RtiHaltSp(t, reach);
    case _ =>
  }

  /** From reset to user mode: the frame at sp holds PS 8. */
  function ToUser(t: Tpu, sp: Word): Op { Program(t.v0, t.a0, t.a1, t.a2, t.gp, sp, t.pc, map[sp := 8]) }

  /** A run to user mode, stack pointers 0x1000 and, for the kernel, 0x2030. */
  lemma RunToUser(t: Tpu) returns (ops: seq<Op>, r: Tpu)
    requires ResetState(t) && t.whami == 0
    ensures Run(t, ops, r) && Invariant(r) && !r.parked && r.ps == 8 && r.sp == 0x1000 && r.ksp == 0x2030
  {
    var s1 := Step(t, ToUser(t, 0x2000));
    var s2 := Step(s1, DoWrUsp(0x1000));
    assert s2.ps == 7 && s2.sp == 0x2000 && s2.usp == 0x1000 && Load(s2.mem, 0x2000) == 8
           && |s2.ents| == 6 && !s2.parked;
    RtiToUser(s2);
    r := Rti(s2, FRAME);
    ops := [ToUser(t, 0x2000), DoWrUsp(0x1000), DoRti(FRAME)];
    RunThree(t, ops, s1, s2, r);
    ResetHolds(t);
    hide Rti, Run, Invariant, Load, Step;
    RunKeeps(t, ops, r);
  }

  /** It happens in post: a program at user stack pointer 0x1000 faults with its kernel stack, aligned,
      not mapped. */
  lemma PostHaltLosesUserSp(t: Tpu) returns (ops: seq<Op>, before: Tpu, op: Op)
    requires ResetState(t) && t.whami == 0
    ensures Run(t, ops, before) && Enabled(before, op) && Invariant(before)
    ensures before.ps == 8 && UserSp(before) == 0x1000 && Step(before, op).pcbUsp == 0x2000
  {
    hide Run, Post;
    ops, before := RunToUser(t);
    op := TakeFault(MemoryManagement, before.pc, 0, 0, 0, 0);
    PostHaltSp(before, SEL_MM, before.pc, 0, 0, 0, 0);
    assert Step(before, op) == Post(before, SEL_MM, before.pc, 0, 0, 0, 0);
    hide Step;
  }

  lemma ResetHolds(t: Tpu)
    requires ResetState(t)
    ensures Invariant(t)
  {
  }

  lemma RtiToUser(t: Tpu)
    requires t.sp == 0x2000 && Load(t.mem, 0x2000) == 8
    ensures var r := Rti(t, FRAME);
            r.ps == 8 && r.sp == t.usp && r.ksp == 0x2030 && r.ents == t.ents && r.parked == t.parked
  {
    hide EoiAddress, Load;
  }

  /** And in rti: a frame for user mode that runs over the end of its page, the next one not mapped. */
  lemma RtiHaltLosesUserSp(t: Tpu) returns (ops: seq<Op>, before: Tpu, op: Op)
    requires ResetState(t) && t.whami == 0
    ensures Run(t, ops, before) && Enabled(before, op) && Invariant(before)
    ensures before.ps == 7 && UserSp(before) == 0x1000 && Step(before, op).pcbUsp == 0x3ff0
  {
    var s1 := Step(t, ToUser(t, 0x3ff0));
    var s2 := Step(s1, DoWrUsp(0x1000));
    before := Step(s2, DoWtInt(0));
    ops, op := [ToUser(t, 0x3ff0), DoWrUsp(0x1000), DoWtInt(0)], DoRti(2);
    RunThree(t, ops, s1, s2, before);
    RunKeeps(t, ops, before);
    HaltRecordsUserSp(before, op);
  }

  lemma RunThree(t: Tpu, ops: seq<Op>, s1: Tpu, s2: Tpu, r: Tpu)
    requires |ops| == 3 && t.ps < WORD && |t.ents| == 6 && Enabled(t, ops[0]) && s1 == Step(t, ops[0])
    requires s1.ps < WORD && |s1.ents| == 6 && Enabled(s1, ops[1]) && s2 == Step(s1, ops[1])
    requires s2.ps < WORD && |s2.ents| == 6 && Enabled(s2, ops[2]) && r == Step(s2, ops[2])
    ensures Run(t, ops, r)
  {
    hide Step, Enabled;
    assert Run(r, ops[1..][1..][1..], r);
    assert Run(s2, ops[1..][1..], r);
    assert Run(s1, ops[1..], r);
  }
}
