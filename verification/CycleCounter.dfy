/** The cycle counter: host time billed in 32.32 fixed point, a floor under every read, and the cycles
    lent to that floor repaid (src/cpu/AlphaCPU.hpp: cc_billable, sync_cc_wallclock, rpcc_read). */
module CycleCounter {
  import opened Bits

  const ONE: nat := 0x1_0000_0000 // a cycle, in the fixed point's units

  /** The guest's and the host clock's frequencies. */
  datatype Rate = Rate(cpuHz: nat, tickHz: nat)

  /** Guest cycles per host tick, truncated. */
  function PerTick(r: Rate): (q: int) { r.cpuHz * ONE / if r.tickHz == 0 then 1 else r.tickHz }

  /** The frequencies an exact counter needs: a guest clock under 2^32 Hz. */
  predicate RateOk(r: Rate) { r.cpuHz < ONE && r.tickHz > 0 }

  datatype Counter = Counter(cc: Word, lastSync: nat, rem: nat, lastRead: nat, borrow: nat, ena: bool, offset: nat)

  /** cc_billable: the host instant the interval timer's lag and limit let the counter reach. */
  function Billable(now: nat, lag: nat, lim: nat): nat {
    var at := if now >= lag then now - lag else 0;
    if at < lim then at else lim
  }

  function Min(a: nat, b: nat): nat { if a < b then a else b }

  /** Where a synchronization starts from and how far it goes. */
  function From(c: Counter, now: nat): nat { Min(c.lastSync, now) }

  function To(c: Counter, now: nat, lag: nat, lim: nat): (to: nat)
    ensures to >= From(c, now)
  {
    var at := Billable(now, lag, lim);
    if at < From(c, now) then From(c, now) else at
  }

  /** The ticks it bills, a second's at most. */
  function Billed(c: Counter, r: Rate, now: nat, lag: nat, lim: nat): (d: nat)
    ensures d <= r.tickHz
  {
    Min(To(c, now, lag, lim) - From(c, now), r.tickHz)
  }

  /** An enabled counter billed d ticks; 64-bit arithmetic. */
  function Bill(c: Counter, r: Rate, d: nat): Counter {
    Advance(c, (d * PerTick(r) + c.rem) % WORD)
  }

  /** The whole cycles of scaled, less what repays the borrow, and the rest of it. */
  function Advance(c: Counter, scaled: nat): Counter {
    var add := scaled / ONE;
    var repay := Min(c.borrow, add);
    c.(cc := (c.cc + (add - repay)) % WORD, rem := scaled % ONE, borrow := c.borrow - repay)
  }

  /** sync_cc_wallclock. */
  function Sync(c: Counter, r: Rate, now: nat, lag: nat, lim: nat): Counter
    requires PerTick(r) >= 0
  {
    var d := Billed(c, r, now, lag, lim);
    var s := c.(lastSync := To(c, now, lag, lim));
    if c.ena then Bill(s, r, d) else s
  }

  /** rpcc_read: the counter after it; the value read is its lastRead, with the offset above. */
  function Read(c: Counter, r: Rate, now: nat, lag: nat, lim: nat): Counter
    requires PerTick(r) >= 0
  {
    var s := Sync(c, r, now, lag, lim);
    if s.ena && s.cc <= s.lastRead then
      var cc := (s.lastRead + 1) % WORD;
      s.(borrow := s.borrow + (s.lastRead + 1 - s.cc), cc := cc, lastRead := cc)
    else s.(lastRead := s.cc)
  }

  // ---- As the processor runs it ----------------------------------------------------------------

  class Clock {
    const rate: Rate
    var cc: Word
    var lastSync: nat
    var rem: nat
    var lastRead: nat
    var borrow: nat
    var ena: bool
    var offset: nat
    var lag: nat
    var lim: nat

    ghost function View(): Counter
      reads this
    {
      Counter(cc, lastSync, rem, lastRead, borrow, ena, offset)
    }

    method SyncWallClock(now: nat)
      requires PerTick(rate) >= 0
      modifies `cc, `lastSync, `rem, `borrow
      ensures View() == Sync(old(View()), rate, now, lag, lim)
    {
      hide PerTick, Billable, Advance;
      if lastSync > now {
        lastSync := now;
      }
      var to := Billable(now, lag, lim);
      if to < lastSync {
        to := lastSync;
      }
      var delta := to - lastSync;
      lastSync := to;
      if ena {
        if delta > rate.tickHz {
          delta := rate.tickHz;
        }
        AdvanceBy((delta * PerTick(rate) + rem) % WORD);
      }
    }

    method AdvanceBy(scaled: nat)
      modifies `cc, `rem, `borrow
      ensures View() == Advance(old(View()), scaled)
    {
      var add := scaled / ONE;
      rem := scaled % ONE;
      if borrow != 0 {
        var repay := if borrow < add then borrow else add;
        add := add - repay;
        borrow := borrow - repay;
      }
      cc := (cc + add) % WORD;
    }

    /** The value read: the counter's low half, the offset above it. */
    method Rpcc(now: nat) returns (value: nat)
      requires PerTick(rate) >= 0
      modifies `cc, `lastSync, `rem, `borrow, `lastRead
      ensures View() == Read(old(View()), rate, now, lag, lim)
      ensures value == offset * ONE + lastRead % ONE && lastRead == cc
    {
      hide Sync, PerTick;
      SyncWallClock(now);
      if ena && cc <= lastRead {
        borrow := borrow + (lastRead + 1 - cc);
        cc := (lastRead + 1) % WORD;
      }
      lastRead := cc;
      value := offset * ONE + cc % ONE;
    }
  }

  // ---- One step --------------------------------------------------------------------------------

  lemma QuotientBound(a: nat, d: nat, t: nat)
    requires t > 0 && d <= t
    ensures a / t >= 0 && d * (a / t) <= a
  {
    DivMod(a, t);
    if a / t < 0 { MulMono(a / t, -1, t); }
    MulMono(d, t, a / t);
  }

  /** A billing of d ticks on top of rem is computed in 64 bits. */
  predicate Fits(r: Rate, d: int, rem: int) { 0 <= d * PerTick(r) + rem < WORD }

  /** No 64-bit overflow: a second's billing fits. */
  lemma BillFits(r: Rate, d: nat, rem: nat)
    requires RateOk(r) && d <= r.tickHz && rem < ONE
    ensures PerTick(r) >= 0 && Fits(r, d, rem)
  {
    QuotientBound(r.cpuHz * ONE, d, r.tickHz);
  }

  /** The bound is exact for every host clock up to 2^32 Hz: from a guest clock of 2^32 Hz on, some
      billing of a second or less overflows. */
  lemma FitsExactly(r: Rate)
    requires 0 < r.tickHz <= ONE
    ensures (forall d, rem :: 0 <= d <= r.tickHz && 0 <= rem < ONE ==> Fits(r, d, rem)) <==> r.cpuHz < ONE
  {
    if r.cpuHz < ONE {
      forall d, rem | 0 <= d <= r.tickHz && 0 <= rem < ONE
        ensures Fits(r, d, rem)
      {
        BillFits(r, d, rem);
      }
    } else {
      DivMod(r.cpuHz * ONE, r.tickHz);
      assert !Fits(r, r.tickHz, ONE - 1);
    }
  }

  /** What the counter owes and is owed, in the fixed point's units. */
  function Net(c: Counter): int { (c.cc - c.borrow) * ONE + c.rem }

  /** What it shows. */
  function Shown(c: Counter): int { c.cc * ONE + c.rem }

  predicate Ready(c: Counter) { c.ena && c.rem < ONE && c.lastRead <= c.cc }

  lemma AdvanceExact(c: Counter, b: nat)
    requires Ready(c) && b + c.rem < WORD && Shown(c) + b < WORD * ONE
    ensures var s := Advance(c, b + c.rem);
            && Net(s) == Net(c) + b
            && s.cc >= c.cc && s.borrow <= c.borrow && (s.borrow > 0 ==> s.cc == c.cc) && Shown(s) <= Shown(c) + b
            && Ready(s) && s.lastRead == c.lastRead && s.lastSync == c.lastSync
  {
    DivMod(b + c.rem, ONE);
    var add := (b + c.rem) / ONE;
    assert c.cc + add < WORD;
  }

  lemma BillExact(c: Counter, r: Rate, d: nat)
    requires RateOk(r) && Ready(c) && d <= r.tickHz && PerTick(r) >= 0 && Shown(c) + d * PerTick(r) < WORD * ONE
    ensures var s := Bill(c, r, d);
            && Net(s) == Net(c) + d * PerTick(r)
            && s.cc >= c.cc && s.borrow <= c.borrow && (s.borrow > 0 ==> s.cc == c.cc)
            && Shown(s) <= Shown(c) + d * PerTick(r)
            && Ready(s) && s.lastRead == c.lastRead && s.lastSync == c.lastSync
  {
    hide PerTick, Advance, Net, Shown, RateOk;
    assert c.rem < ONE;
    BillFits(r, d, c.rem);
    var b := d * PerTick(r);
    AdvanceExact(c, b);
    assert (b + c.rem) % WORD == b + c.rem;
  }

  lemma SyncExact(c: Counter, r: Rate, now: nat, lag: nat, lim: nat)
    requires RateOk(r) && Ready(c) && PerTick(r) >= 0
    requires Shown(c) + Billed(c, r, now, lag, lim) * PerTick(r) < WORD * ONE
    ensures var s := Sync(c, r, now, lag, lim);
            && Net(s) == Net(c) + Billed(c, r, now, lag, lim) * PerTick(r)
            && s.cc >= c.cc && s.borrow <= c.borrow && (s.borrow > 0 ==> s.cc == c.cc)
            && Shown(s) <= Shown(c) + Billed(c, r, now, lag, lim) * PerTick(r)
            && Ready(s) && s.lastRead == c.lastRead
  {
    hide Bill, PerTick, Billed, To, RateOk;
    BillExact(c.(lastSync := To(c, now, lag, lim)), r, Billed(c, r, now, lag, lim));
  }

  /** What was lent is repaid first: while any is owed the counter stands, and whenever it moves by itself
      it owes nothing and shows exactly what it was billed. */
  lemma RepaysFirst(c: Counter, r: Rate, now: nat, lag: nat, lim: nat)
    requires RateOk(r) && Ready(c) && PerTick(r) >= 0
    requires Shown(c) + Billed(c, r, now, lag, lim) * PerTick(r) < WORD * ONE
    ensures var s := Sync(c, r, now, lag, lim);
            && s.borrow <= c.borrow && (s.borrow > 0 ==> s.cc == c.cc)
            && (s.cc > c.cc ==> s.borrow == 0 && Shown(s) == Net(c) + Billed(c, r, now, lag, lim) * PerTick(r))
  {
    SyncExact(c, r, now, lag, lim);
    hide PerTick, Billed, Sync;
  }

  /** A read lends at most one cycle, and returns more than the last one did. */
  lemma ReadExact(c: Counter, r: Rate, now: nat, lag: nat, lim: nat)
    requires RateOk(r) && Ready(c) && PerTick(r) >= 0
    requires Shown(c) + Billed(c, r, now, lag, lim) * PerTick(r) + ONE < WORD * ONE
    ensures var s := Read(c, r, now, lag, lim);
            && Net(s) == Net(c) + Billed(c, r, now, lag, lim) * PerTick(r)
            && s.cc >= c.cc && s.borrow <= c.borrow + 1
            && Shown(s) <= Shown(c) + Billed(c, r, now, lag, lim) * PerTick(r) + ONE
            && Ready(s) && s.lastRead == s.cc > c.lastRead
  {
    SyncExact(c, r, now, lag, lim);
    var s := Sync(c, r, now, lag, lim);
    hide Sync, PerTick, Billed, RateOk;
    assert s.cc < WORD - 1;
  }

  // ---- Runs ------------------------------------------------------------------------------------

  /** A synchronization, a read, or a stall of the emulator's own left out of the billing. */
  datatype Op = SyncAt(now: nat, lag: nat, lim: nat) | ReadAt(now: nat, lag: nat, lim: nat) | Stall(ticks: nat)

  function Step(c: Counter, r: Rate, op: Op): Counter
    requires PerTick(r) >= 0
  {
    match op
    case SyncAt(now, lag, lim) => Sync(c, r, now, lag, lim)
    case ReadAt(now, lag, lim) => Read(c, r, now, lag, lim)
    case Stall(ticks) => c.(lastSync := c.lastSync + ticks)
  }

  function BilledBy(c: Counter, r: Rate, op: Op): nat {
    match op
    case SyncAt(now, lag, lim) => Billed(c, r, now, lag, lim)
    case ReadAt(now, lag, lim) => Billed(c, r, now, lag, lim)
    case Stall(_) => 0
  }

  function End(c: Counter, r: Rate, ops: seq<Op>): Counter
    requires PerTick(r) >= 0
    decreases |ops|
  {
    if ops == [] then c else End(Step(c, r, ops[0]), r, ops[1..])
  }

  /** The ticks a run bills, and what its reads return. */
  function Total(c: Counter, r: Rate, ops: seq<Op>): nat
    requires PerTick(r) >= 0
    decreases |ops|
  {
    if ops == [] then 0 else BilledBy(c, r, ops[0]) + Total(Step(c, r, ops[0]), r, ops[1..])
  }

  function Reads(c: Counter, r: Rate, ops: seq<Op>): seq<nat>
    requires PerTick(r) >= 0
    decreases |ops|
  {
    if ops == [] then []
    else (if ops[0].ReadAt? then [Step(c, r, ops[0]).lastRead] else []) + Reads(Step(c, r, ops[0]), r, ops[1..])
  }

  lemma StepExact(c: Counter, r: Rate, op: Op)
    requires RateOk(r) && Ready(c) && PerTick(r) >= 0
    requires Shown(c) + BilledBy(c, r, op) * PerTick(r) + (if op.ReadAt? then ONE else 0) < WORD * ONE
    ensures var s := Step(c, r, op);
            && Net(s) == Net(c) + BilledBy(c, r, op) * PerTick(r)
            && s.cc >= c.cc && s.borrow <= c.borrow + (if op.ReadAt? then 1 else 0)
            && Shown(s) <= Shown(c) + BilledBy(c, r, op) * PerTick(r) + (if op.ReadAt? then ONE else 0)
            && Ready(s) && s.lastRead >= c.lastRead
            && (op.ReadAt? ==> s.lastRead == s.cc > c.lastRead)
  {
    hide Sync, Read, PerTick, Billed, RateOk;
    match op
    case SyncAt(now, lag, lim) => SyncExact(c, r, now, lag, lim);
    case ReadAt(now, lag, lim) => ReadExact(c, r, now, lag, lim);
    case Stall(_) =>
  }

  predicate Rising(s: seq<nat>) { forall i, j :: 0 <= i < j < |s| ==> s[i] < s[j] }

  lemma TotalSplits(a: nat, b: nat, q: int)
    ensures (a + b) * q == a * q + b * q
    ensures q >= 0 ==> a * q >= 0
  {
  }

  /** Over every run of an enabled counter that does not run past 64 bits: the counter less what it
      borrowed advances by exactly the billed ticks times the rate, it never falls, every read exceeds
      the one before, and each lends one cycle at most. */
  lemma {:induction false} RunExact(c: Counter, r: Rate, ops: seq<Op>)
    requires RateOk(r) && Ready(c) && PerTick(r) >= 0
    requires Shown(c) + Total(c, r, ops) * PerTick(r) + |Reads(c, r, ops)| * ONE < WORD * ONE
    ensures var e := End(c, r, ops);
            && Net(e) == Net(c) + Total(c, r, ops) * PerTick(r)
            && e.cc >= c.cc
            && e.borrow <= c.borrow + |Reads(c, r, ops)|
    ensures Rising([c.lastRead] + Reads(c, r, ops))
    decreases |ops|
  {
    hide Step, BilledBy, PerTick, RateOk, Ready, Net, Shown;
    if ops != [] {
      var s, q := Step(c, r, ops[0]), PerTick(r);
      var b, rest := BilledBy(c, r, ops[0]), Total(s, r, ops[1..]);
      TotalSplits(b, rest, q);
      TotalSplits(rest, 0, q);
      StepExact(c, r, ops[0]);
      RunExact(s, r, ops[1..]);
      ReadsRise(c.lastRead, s.lastRead, ops[0].ReadAt?, Reads(s, r, ops[1..]));
    }
  }

  lemma ReadsRise(was: nat, now: nat, isRead: bool, later: seq<nat>)
    requires Rising([now] + later) && was <= now && (isRead ==> was < now)
    ensures Rising([was] + ((if isRead then [now] else []) + later))
  {
    var s, t := [was] + ((if isRead then [now] else []) + later), [now] + later;
    forall i, j | 0 <= i < j < |s|
      ensures s[i] < s[j]
    {
      if isRead {
        if i == 0 { assert s[j] == t[j - 1] >= t[0]; } else { assert s[i] == t[i - 1] && s[j] == t[j - 1]; }
      } else {
        assert s[j] == t[j] && t[0] < t[j] && (i > 0 ==> s[i] == t[i]);
      }
    }
  }

  // ---- Host time -------------------------------------------------------------------------------

  /** The host's clock, non-decreasing from t. */
  predicate Timely(ops: seq<Op>, t: nat)
    decreases |ops|
  {
    ops == [] || (if ops[0].Stall? then Timely(ops[1..], t) else t <= ops[0].now && Timely(ops[1..], ops[0].now))
  }

  function LastTime(ops: seq<Op>, t: nat): nat
    decreases |ops|
  {
    if ops == [] then t else LastTime(ops[1..], if ops[0].Stall? then t else ops[0].now)
  }

  /** No host time is billed twice: over a run the ticks billed never exceed the time since an instant
      at which all there was had been billed. */
  lemma {:induction false} BilledWithinElapsed(c: Counter, r: Rate, ops: seq<Op>, floor: nat, t: nat)
    requires PerTick(r) >= 0 && Timely(ops, t) && floor <= c.lastSync && floor <= t
    ensures floor + Total(c, r, ops) <= LastTime(ops, t)
    decreases |ops|
  {
    hide PerTick, Bill;
    if ops != [] {
      if ops[0].Stall? {
        BilledWithinElapsed(Step(c, r, ops[0]), r, ops[1..], floor, t);
      } else {
        var op := ops[0];
        var to := To(c, op.now, op.lag, op.lim);
        assert floor + BilledBy(c, r, op) <= to <= op.now;
        assert Step(c, r, op).lastSync == to by { SyncMoves(c, r, op.now, op.lag, op.lim); }
        BilledWithinElapsed(Step(c, r, op), r, ops[1..], to, op.now);
      }
    }
  }

  lemma SyncMoves(c: Counter, r: Rate, now: nat, lag: nat, lim: nat)
    requires PerTick(r) >= 0
    ensures Sync(c, r, now, lag, lim).lastSync == To(c, now, lag, lim) == Read(c, r, now, lag, lim).lastSync
  {
    hide PerTick;
  }

  /** How far the clock's instants, each less its lag and under its limit, reach from an instant. */
  function Reached(ops: seq<Op>, from: int): int
    decreases |ops|
  {
    if ops == [] then from
    else if ops[0].Stall? then Reached(ops[1..], from)
    else
      var at := if ops[0].now - ops[0].lag < ops[0].lim then ops[0].now - ops[0].lag else ops[0].lim;
      Reached(ops[1..], if at < from then from else at)
  }

  predicate NoStalls(ops: seq<Op>) { forall i :: 0 <= i < |ops| ==> !ops[i].Stall? }

  /** No step is longer than the second that is billed at most. */
  predicate Paced(c: Counter, r: Rate, ops: seq<Op>)
    requires PerTick(r) >= 0
    decreases |ops|
  {
    ops == []
    || (&& (ops[0].Stall? || To(c, ops[0].now, ops[0].lag, ops[0].lim) - From(c, ops[0].now) <= r.tickHz)
        && Paced(Step(c, r, ops[0]), r, ops[1..]))
  }

  /** No host time is lost either: over every run without stalls the counter is billed up to the last
      instant its lag and limit let it reach, and, step by step within a second, all of it. */
  lemma {:induction false} NoTimeLost(c: Counter, r: Rate, ops: seq<Op>, t: nat)
    requires PerTick(r) >= 0 && NoStalls(ops) && Timely(ops, t) && c.lastSync <= t
    ensures End(c, r, ops).lastSync == Reached(ops, c.lastSync)
    ensures Paced(c, r, ops) ==> c.lastSync + Total(c, r, ops) == Reached(ops, c.lastSync)
    decreases |ops|
  {
    hide PerTick, Bill;
    if ops != [] {
      var op := ops[0];
      SyncMoves(c, r, op.now, op.lag, op.lim);
      BillableWithin(op.now, op.lag, op.lim);
      NoTimeLost(Step(c, r, op), r, ops[1..], op.now);
    }
  }

  lemma BillableWithin(now: nat, lag: nat, lim: nat)
    ensures Billable(now, lag, lim) <= now
    ensures Billable(now, lag, lim) == if now < lag then 0 else if now - lag < lim then now - lag else lim
  {
  }

  /** With no lag and no limit, as a reset leaves them, the clock advancing by steps of a second at most
      from the last instant accounted for. */
  predicate Unbounded(ops: seq<Op>, from: nat, step: nat)
    decreases |ops|
  {
    || ops == []
    || (if ops[0].Stall? then Unbounded(ops[1..], from + ops[0].ticks, step)
        else
          && ops[0].lag == 0 && from <= ops[0].now < ops[0].lim && ops[0].now - from <= step
          && Unbounded(ops[1..], ops[0].now, step))
  }

  function Stalled(ops: seq<Op>): nat
    decreases |ops|
  {
    if ops == [] then 0 else (if ops[0].Stall? then ops[0].ticks else 0) + Stalled(ops[1..])
  }

  /** The last instant accounted for. */
  function Final(ops: seq<Op>, from: nat): nat
    decreases |ops|
  {
    if ops == [] then from else Final(ops[1..], if ops[0].Stall? then from + ops[0].ticks else ops[0].now)
  }

  /** Then exactly the elapsed ticks are billed, less exactly those of the emulator's stalls. */
  lemma {:induction false} ElapsedIsBilled(c: Counter, r: Rate, ops: seq<Op>)
    requires PerTick(r) >= 0 && Unbounded(ops, c.lastSync, r.tickHz)
    ensures c.lastSync + Total(c, r, ops) + Stalled(ops) == Final(ops, c.lastSync)
    decreases |ops|
  {
    hide PerTick, Bill;
    if ops != [] {
      var op := ops[0];
      if !op.Stall? {
        SyncMoves(c, r, op.now, op.lag, op.lim);
        BillableWithin(op.now, op.lag, op.lim);
      }
      ElapsedIsBilled(Step(c, r, op), r, ops[1..]);
    }
  }

  /** A counter that is not enabled stands still. */
  lemma DisabledStands(c: Counter, r: Rate, now: nat, lag: nat, lim: nat)
    requires PerTick(r) >= 0 && !c.ena
    ensures var s := Read(c, r, now, lag, lim); s.cc == c.cc == s.lastRead && s.borrow == c.borrow && s.rem == c.rem
  {
  }

  /** A longer step is billed a second, not dropped. */
  lemma LongStepCapped(c: Counter, r: Rate, now: nat)
    requires now >= c.lastSync + r.tickHz
    ensures Billed(c, r, now, 0, now + 1) == r.tickHz
  {
  }

  // ---- The truncated rate ----------------------------------------------------------------------

  /** Over every run the truncated rate loses less than one part in 2^32 of the guest cycles billed,
      ticks * cpuHz / tickHz of them, if and only if the rate's division leaves a remainder less than
      the guest's frequency; a guest clock no slower than the host's always does. short is the loss, in
      the fixed point's units, times tickHz. */
  lemma TruncationLoss(c: Counter, r: Rate, ops: seq<Op>)
    requires RateOk(r) && Ready(c) && PerTick(r) >= 0 && Total(c, r, ops) > 0
    requires Shown(c) + Total(c, r, ops) * PerTick(r) + |Reads(c, r, ops)| * ONE < WORD * ONE
    ensures var ideal := Total(c, r, ops) * (r.cpuHz * ONE);
            var short := ideal - (Net(End(c, r, ops)) - Net(c)) * r.tickHz;
            && 0 <= short < Total(c, r, ops) * r.tickHz
            && (short * ONE < ideal <==> r.cpuHz * ONE % r.tickHz < r.cpuHz)
            && (r.tickHz <= r.cpuHz ==> short * ONE < ideal)
  {
    hide Total, End, Reads, Net, Shown, Ready;
    RunExact(c, r, ops);
    LossOf(Total(c, r, ops), r.cpuHz * ONE, r.tickHz, PerTick(r));
    MulCancelLess(r.cpuHz * ONE % r.tickHz, r.cpuHz, ONE);
    MulCancelLess((r.cpuHz * ONE % r.tickHz) * ONE, r.cpuHz * ONE, Total(c, r, ops));
  }

  lemma LossOf(n: nat, a: nat, t: nat, q: int)
    requires n > 0 && t > 0 && q == a / t
    ensures n * a - (n * q) * t == n * (a % t)
    ensures 0 <= n * (a % t) < n * t
    ensures (n * (a % t)) * ONE == ((a % t) * ONE) * n
  {
    DivMod(a, t);
    var m := a % t;
    assert n * a == n * (q * t) + n * m;
    MulAssoc(n, q, t);
    MulMonoStrict(m, t, n);
    MulMono(0, m, n);
    MulAssoc(n, m, ONE);
  }

  /** At 466 MHz on a nanosecond clock it loses two. */
  lemma LosesMore()
    ensures var r := Rate(466_000_000, 1_000_000_000);
            (r.cpuHz * ONE - r.tickHz * PerTick(r)) * ONE > 2 * (r.cpuHz * ONE)
  {
  }
}
