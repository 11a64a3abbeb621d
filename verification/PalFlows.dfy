/** The PALcode's flows as they run: registers, IPRs and the impure area of one TPU overwritten step
    by step. Each flow's new state is PalState's function of the old one, so what PalRuns and PalFrames
    prove of every run holds of these. */
module PalFlows {
  import opened Bits
  import opened PalState
  import opened PalRuns

  class Processor {
    const tpu: nat
    var s: Tpu

    /** MILD_RESET: processor 0 at the console, the others parked. */
    constructor (whami: nat, tpu: nat, at: Tpu)
      ensures Invariant(s) && ResetState(s) && s.whami == whami
    {
      this.tpu := tpu;
      s := at.(whami := whami, ps := 7, eoi := 0, ksp := 0, usp := 0, kgp := 0, ents := [0, 0, 0, 0, 0, 0], ier := 0,
               parked := whami != 0, dequeued := [], ended := []);
    }

    /** do_eoi. */
    method EndInterrupt()
      modifies this
      ensures s == DoEoi(old(s))
    {
      if s.eoi / EOI_VALID % 2 == 1 {
        var iid := s.eoi % IIDS;
        s := s.(ended := s.ended + [EoiWrite(EoiAddress(iid), iid)]);
        s := s.(eoi := 0);
      }
    }

    /** halt_path. */
    method HaltPath(why: nat)
      requires why < WORD
      modifies this
      ensures s == Halt(old(s), why)
    {
      hide EoiAddress;
      s := s.(ier := 0);
      EndInterrupt();
      if UserPs(s.ps) {
        s := s.(pcbKsp := s.ksp);
        s := s.(pcbUsp := s.sp);
      } else {
        s := s.(pcbKsp := s.sp);
        s := s.(pcbUsp := s.usp);
      }
      s := s.(reason := why, halts := s.halts + 1);
      s := s.(ps := 7);
      if s.whami != 0 {
        s := s.(parked := true);
        return;
      }
      s := s.(a0 := s.reason, a1 := 0, pc := KSEG_CONSOLE);
    }

    /** post's stores, in order, up to one that does not translate. */
    method PushFrame(from: Word, reach: nat)
      requires s.ps < WORD
      modifies this
      ensures s == old(s).(mem := Pushed(old(s), old(s.sp), from, reach))
    {
      hide Plus;
      Store(0, reach, Plus(s.sp, 16), s.gp);
      Store(1, reach, Plus(s.sp, 24), s.a0);
      Store(2, reach, Plus(s.sp, 32), s.a1);
      Store(3, reach, Plus(s.sp, 40), s.a2);
      Store(4, reach, s.sp, s.ps);
      Store(5, reach, Plus(s.sp, 8), from);
    }

    method Store(i: nat, reach: nat, a: Word, x: Word)
      modifies this
      ensures s == old(s).(mem := StoreIf(old(s.mem), i, reach, a, x))
    {
      if i < reach {
        s := s.(mem := s.mem[a := x]);
      }
    }

    /** post. */
    method Enter(sel: nat, from: Word, b0: Word, b1: Word, b2: Word, reach: nat)
      requires Selector(sel) && s.ps < WORD && |s.ents| == 6
      modifies this
      ensures s == Post(old(s), sel, from, b0, b1, b2, reach)
    {
      hide Halt, Pushed, Minus, Normal, IerTab;
      if UserPs(s.ps) {
        s := s.(usp := s.sp);
        s := s.(sp := s.ksp);
      }
      if s.sp % 8 != 0 {
        HaltPath(HALT_KSNV);
        return;
      }
      s := s.(sp := Minus(s.sp, 48));
      PushedLooks(old(s), s, from, reach);
      PushFrame(from, reach);
      if reach < FRAME {
        HaltPath(HALT_KSNV);
        return;
      }
      var ipl := s.ps % 8;
      if sel / 256 != 0 {
        ipl := sel / 256 - 1;
      }
      s := s.(ps := ipl);
      s := s.(ier := IerTab(ipl));
      s := s.(pc := Normal(s.ents[sel % 256 / 8]));
      s := s.(gp := s.kgp, a0 := b0, a1 := b1, a2 := b2);
    }

    /** callsys. */
    method CallSystem(next: Word, reach: nat)
      requires s.ps < WORD && |s.ents| == 6
      modifies this
      ensures s == CallSys(old(s), next, reach)
    {
      hide Post;
      if UserPs(s.ps) {
        Enter(SEL_SYS, next, s.a0, s.a1, s.a2, reach);
      } else {
        Enter(SEL_IF, next, 1, 0, 0, reach);
      }
    }

    /** The INTERRUPT entry, the highest IPL first. cleared is what it writes to R_INT_STAT. */
    method TakeInterrupt(eir: set<nat>, stat: nat, head: nat, reach: nat) returns (cleared: nat)
      requires s.ps < WORD && |s.ents| == 6
      modifies this
      ensures s == Interrupt(old(s), eir, stat, head, tpu, reach)
      ensures cleared == Acknowledged(old(s), eir, stat, tpu)
    {
      hide Post, Halt, Bit, Vector, Enables, Pow2;
      cleared := 0;
      if Sums(eir, s.ier, 2) && Bit(stat, 4 + tpu) {
        cleared := Pow2(4 + tpu);
        Enter(SEL_IPI, s.pc, 1, 0, 0, reach);
        return;
      }
      if Sums(eir, s.ier, 3) && Bit(stat, tpu) {
        cleared := Pow2(tpu);
        Enter(SEL_IPI, s.pc, 0, 0, 0, reach);
        return;
      }
      if Sums(eir, s.ier, 4) {
        if Bit(stat, 8 + tpu) {
          cleared := Pow2(8 + tpu);
          HaltPath(HALT_OPERATOR);
          return;
        }
        if stat / 0x2000 % 4 != 0 {
          cleared := stat / 0x2000 % 4 * 0x2000;
          return;
        }
      }
      if !Sums(eir, s.ier, 1) {
        if Sums(eir, s.ier, 0) || Sums(eir, s.ier, 5) {
          HaltPath(HALT_UNIMPL + 0x680);
        }
        return;
      }
      if !Bit(head, 24) {
        return;
      }
      var iid := head % IIDS;
      s := s.(dequeued := s.dequeued + [iid]);
      s := s.(eoi := EOI_VALID + iid);
      VectorFits(iid);
      Enter(SEL_DEVICE, s.pc, 3, Vector(iid), 0, reach);
    }

    /** wrent: entInt, entArith, entMM, entIF, entUna, entSys by number; any other is ignored. */
    method WriteEntry(n: nat, a: Word)
      requires |s.ents| == 6
      modifies this
      ensures s == WrEnt(old(s), n, a)
    {
      if n < 6 {
        s := s.(ents := s.ents[n := a]);
      }
    }

    /** swpipl. */
    method SwapIpl()
      modifies this
      ensures s == SwpIpl(old(s))
    {
      s := s.(v0 := s.ps % 8);
      s := s.(ps := s.a0 % 8);
      s := s.(ier := IerTab(s.ps));
      if s.ps < 4 {
        EndInterrupt();
      }
    }

    /** rti's work on the PS it popped: stack pointers, PS, the end of interrupt. */
    method TakePs(saved: Word) returns (stack: Word)
      requires saved == Load(s.mem, s.sp)
      modifies this
      ensures s == RtiPs(old(s))
      ensures stack == if s.ps == 8 then old(s.usp) else Plus(old(s.sp), 48)
    {
      hide Plus, EoiAddress, Load;
      stack := Plus(s.sp, 48);
      var ps := saved;
      if UserPs(saved) {
        s := s.(ksp := stack);
        stack := s.usp;
        ps := 8;
      }
      assert ps % 16 == ReturnPs(saved);
      hide ReturnPs, UserPs;
      s := s.(ps := ps % 16);
      if s.ps % 8 < 4 {
        EndInterrupt();
      }
    }

    /** rti. */
    method ReturnFromInterrupt(reach: nat)
      modifies this
      ensures s == Rti(old(s), reach)
    {
      hide Halt, Plus, Normal, IerTab, Load, RtiPs, UserPs;
      if s.sp % 8 != 0 || reach < 2 {
        HaltPath(HALT_KSNV);
        return;
      }
      RtiPsRest(s);
      var saved, ret := Load(s.mem, s.sp), Normal(Load(s.mem, Plus(s.sp, 8)));
      var stack := TakePs(saved);
      var enables := IerTab(s.ps % 8);
      if UserPs(s.ps) {
        enables := enables + USER;
      }
      if reach > 2 {
        s := s.(gp := Load(s.mem, Plus(s.sp, 16)));
      }
      if reach < FRAME {
        HaltPath(HALT_KSNV);
        return;
      }
      s := s.(a0 := Load(s.mem, Plus(s.sp, 24)));
      s := s.(a1 := Load(s.mem, Plus(s.sp, 32)));
      s := s.(a2 := Load(s.mem, Plus(s.sp, 40)));
      s := s.(sp := stack, pc := ret);
      s := s.(ier := enables);
    }

    /** retsys. */
    method ReturnFromSystem(reach: nat)
      modifies this
      ensures s == RetSys(old(s), reach)
    {
      hide Halt, Plus, Normal, EoiAddress;
      if s.sp % 8 != 0 || reach < 2 {
        HaltPath(HALT_KSNV);
        return;
      }
      var ret := Normal(Load(s.mem, Plus(s.sp, 8)));
      s := s.(gp := Load(s.mem, Plus(s.sp, 16)));
      s := s.(ksp := Plus(s.sp, 48));
      s := s.(sp := s.usp);
      s := s.(ps := 8);
      EndInterrupt();
      s := s.(ier := IerTab(0) + USER);
      s := s.(pc := ret);
    }

    /** wtint: IPL 0's enables while it sleeps, then the IPL's own. */
    method WaitForInterrupt(armed: Word)
      modifies this
      ensures s == WtInt(old(s), armed)
    {
      s := s.(ier := IerTab(0));
      s := s.(a0 := armed);
      s := s.(ier := IerTab(s.ps % 8));
      s := s.(v0 := 0);
    }
  }

  lemma RtiPsRest(t: Tpu)
    ensures RtiPs(t).mem == t.mem && RtiPs(t).sp == t.sp && RtiPs(t).gp == t.gp
  {
  }

  /** A frame holds registers and the PS, no more. */
  lemma PushedLooks(t: Tpu, u: Tpu, pc: Word, n: nat)
    requires t.ps == u.ps < WORD && t.mem == u.mem && t.gp == u.gp && t.a0 == u.a0 && t.a1 == u.a1 && t.a2 == u.a2
    ensures Pushed(t, u.sp, pc, n) == Pushed(u, u.sp, pc, n)
  {
  }
}
