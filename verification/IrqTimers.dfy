/** Delayed interrupt lines: device threads arm and cancel them, the processor counts them down, and
    check_timers is the doorbell between them. A state machine over the atomic steps of irq_h,
    count_down_irq, execute's timer poll and QUIESCE's (src/cpu/AlphaCPU.hpp, src/cpu/AlphaCPU.cpp),
    under every interleaving. */
module IrqTimers {

  const LINES: nat := 6

  /** Where a device thread is in irq_h. */
  datatype Device =
    | Resting
    | SeesEir(line: nat, on: bool, delay: nat) // about to read the line's eir bit
    | SeesTimer(line: nat, on: bool, delay: nat) // the bit was clear: about to read the timer
    | Arms(line: nat, delay: nat) // about to store the delay
    | Rings // about to set check_timers after a store
    | Raises(line: nat) // about to set the eir bit, no delay
    | Lowers(line: nat) // about to clear the eir bit
    | Cancels(line: nat) // about to exchange the timer with zero
    | Unrings // about to clear check_timers
    | Looks(from: nat) // about to load the timer of this line
    | Found(at: nat) // that timer was running: about to set check_timers

  /** Where the processor is in its polls. */
  datatype Cpu =
    | Runs // about to read check_timers
    | Answers(asleep: bool) // it was set: about to clear it
    | Counts(line: nat) // about to load the line's timer
    | Swaps(line: nat, read: nat) // about to compare and exchange
    | Fires(line: nat) // reached zero: about to set the eir bit
    | Rerings(line: nat) // still running: about to set check_timers
    | Peeks(line: nat, delayed: bool) // QUIESCE: about to load the line's timer
    | Restores // QUIESCE: about to set check_timers back

  /** armed and fired count, by line, the delays stored and the interrupts a countdown raised. */
  datatype State = State(timer: seq<nat>, check: bool, eir: seq<bool>, devices: seq<Device>,
                         cpu: Cpu, armed: seq<nat>, fired: seq<nat>)

  predicate Shape(s: State) {
    && |s.timer| == |s.eir| == |s.armed| == |s.fired| == LINES
    && (forall n :: 0 <= n < |s.devices| ==> DeviceShape(s.devices[n]))
    && match s.cpu {
         case Runs => true
         case Answers(_) => true
         case Counts(j) => j <= LINES
         case Swaps(j, read) => j < LINES && read > 0
         case Fires(j) => j < LINES
         case Rerings(j) => j < LINES
         case Peeks(j, _) => j <= LINES
         case Restores => true
       }
  }

  predicate DeviceShape(d: Device) {
    match d
    case SeesEir(j, _, _) => j < LINES
    case SeesTimer(j, _, _) => j < LINES
    case Arms(j, delay) => j < LINES && delay > 0
    case Raises(j) => j < LINES
    case Lowers(j) => j < LINES
    case Cancels(j) => j < LINES
    case Looks(j) => j <= LINES
    case Found(j) => j < LINES
    case _ => true
  }

  // ---- Steps -----------------------------------------------------------------------------------

  /** A device thread calls irq_h, a device thread's next step, or the processor's. asleep chooses
      QUIESCE's poll, weak lets a compare and exchange fail for no reason, down is the countdown. */
  datatype Event =
    | Calls(n: nat, line: nat, on: bool, delay: nat)
    | DeviceSteps(n: nat)
    | CpuSteps(asleep: bool, weak: bool, down: nat)

  predicate Enabled(s: State, e: Event) {
    match e
    case Calls(n, line, _, _) => n < |s.devices| && s.devices[n] == Resting && line < LINES
    case DeviceSteps(n) => n < |s.devices|
    case CpuSteps(_, _, down) => down > 0
  }

  /** What irq_h does once it knows whether the line is active: asserting an active line touches no
      timer. */
  function Decided(line: nat, on: bool, delay: nat, active: bool): Device {
    if on then (if active then Resting else if delay > 0 then Arms(line, delay) else Raises(line))
    else if active then Lowers(line) else Resting
  }

  function DeviceStep(s: State, n: nat): State
    requires Shape(s) && n < |s.devices|
  {
    var at := (d: Device) => s.devices[n := d];
    match s.devices[n]
    case Resting => s
    case SeesEir(j, on, delay) =>
      s.(devices := at(if s.eir[j] then Decided(j, on, delay, true) else SeesTimer(j, on, delay)))
    case SeesTimer(j, on, delay) => s.(devices := at(Decided(j, on, delay, s.timer[j] > 0)))
    case Arms(j, delay) => s.(timer := s.timer[j := delay], armed := s.armed[j := s.armed[j] + 1], devices := at(Rings))
    case Rings => s.(check := true, devices := at(Resting))
    case Raises(j) => s.(eir := s.eir[j := true], devices := at(Resting))
    case Lowers(j) => s.(eir := s.eir[j := false], devices := at(Cancels(j)))
    case Cancels(j) => s.(timer := s.timer[j := 0], devices := at(Unrings))
    case Unrings => s.(check := false, devices := at(Looks(0)))
    case Looks(j) =>
      if j == LINES then s.(devices := at(Resting))
      else s.(devices := at(if s.timer[j] > 0 then Found(j) else Looks(j + 1)))
    case Found(j) => s.(check := true, devices := at(Looks(j + 1)))
  }

  /** The value a countdown leaves. */
  function Less(t: nat, down: nat): nat { if t <= down then 0 else t - down }

  function CpuStep(s: State, asleep: bool, weak: bool, down: nat): State
    requires Shape(s)
  {
    match s.cpu
    case Runs => if s.check then s.(cpu := Answers(asleep)) else s
    case Answers(q) => s.(check := false, cpu := if q then Peeks(0, false) else Counts(0))
    case Counts(j) =>
      if j == LINES then s.(cpu := Runs)
      else s.(cpu := if s.timer[j] > 0 then Swaps(j, s.timer[j]) else Counts(j + 1))
    case Swaps(j, read) =>
      if s.timer[j] == read && !weak then
        s.(timer := s.timer[j := Less(read, down)], cpu := if Less(read, down) == 0 then Fires(j) else Rerings(j))
      else s.(cpu := if s.timer[j] > 0 then Swaps(j, s.timer[j]) else Counts(j + 1))
    case Fires(j) => s.(eir := s.eir[j := true], fired := s.fired[j := s.fired[j] + 1], cpu := Counts(j + 1))
    case Rerings(j) => s.(check := true, cpu := Counts(j + 1))
    case Peeks(j, delayed) =>
      if j == LINES then s.(cpu := if delayed then Restores else Runs)
      else s.(cpu := Peeks(j + 1, delayed || s.timer[j] > 0))
    case Restores => s.(check := true, cpu := Runs)
  }

  function Step(s: State, e: Event): State
    requires Shape(s) && Enabled(s, e)
  {
    match e
    case Calls(n, line, on, delay) => s.(devices := s.devices[n := SeesEir(line, on, delay)])
    case DeviceSteps(n) => DeviceStep(s, n)
    case CpuSteps(asleep, weak, down) => CpuStep(s, asleep, weak, down)
  }

  // ---- The invariant ---------------------------------------------------------------------------

  /** A step still to come that will set check_timers, or deal with line j. */
  predicate DeviceOwes(d: Device, j: nat) {
    match d
    case Rings => true
    case Unrings => true
    case Looks(from) => from <= j
    case Found(_) => true
    case _ => false
  }

  predicate CpuOwes(c: Cpu, j: nat) {
    match c
    case Answers(_) => true
    case Counts(i) => i <= j
    case Swaps(i, _) => i <= j
    case Fires(i) => i < j
    case Rerings(_) => true
    case Peeks(i, delayed) => i <= j || delayed
    case Restores => true
    case Runs => false
  }

  ghost predicate Owed(s: State, j: nat) {
    s.check || CpuOwes(s.cpu, j) || exists n :: 0 <= n < |s.devices| && DeviceOwes(s.devices[n], j)
  }

  /** Every running timer is known of, or will be. */
  ghost predicate Doorbell(s: State)
    requires Shape(s)
  {
    forall j :: 0 <= j < LINES && s.timer[j] > 0 ==> Owed(s, j)
  }

  /** Each delay armed is running, or fired, or cancelled or replaced: never two of these. */
  ghost predicate OncePerArm(s: State)
    requires Shape(s)
  {
    forall j :: 0 <= j < LINES ==>
      s.fired[j] + (if s.timer[j] > 0 then 1 else 0) + (if s.cpu == Fires(j) then 1 else 0) <= s.armed[j]
  }

  ghost predicate Inv(s: State) { Shape(s) && Doorbell(s) && OncePerArm(s) }

  // ---- Every step keeps it ---------------------------------------------------------------------

  lemma DeviceStepShape(s: State, n: nat)
    requires Shape(s) && n < |s.devices|
    ensures Shape(DeviceStep(s, n)) && |DeviceStep(s, n).devices| == |s.devices| && DeviceStep(s, n).cpu == s.cpu
    ensures forall m :: 0 <= m < |s.devices| && m != n ==> DeviceStep(s, n).devices[m] == s.devices[m]
  {
  }

  /** What a device's step may do to the doorbell: set it, or clear it and owe every line. A line its
      step leaves running it deals with or has dealt with. */
  lemma DeviceStepOwes(s: State, n: nat, j: nat)
    requires Shape(s) && n < |s.devices| && j < LINES
    ensures var t := DeviceStep(s, n);
            t.timer[j] > 0 ==>
              || t.check
              || DeviceOwes(t.devices[n], j)
              || (s.timer[j] > 0 && t.check == s.check && !DeviceOwes(s.devices[n], j))
  {
  }

  lemma DeviceStepKeeps(s: State, n: nat)
    requires Inv(s) && n < |s.devices|
    ensures Inv(DeviceStep(s, n))
  {
    hide DeviceStep, DeviceOwes, CpuOwes;
    DeviceStepShape(s, n);
    var t := DeviceStep(s, n);
    forall j | 0 <= j < LINES && t.timer[j] > 0
      ensures Owed(t, j)
    {
      DeviceStepOwes(s, n, j);
      if !t.check && !DeviceOwes(t.devices[n], j) && !CpuOwes(s.cpu, j) {
        var m :| 0 <= m < |s.devices| && DeviceOwes(s.devices[m], j);
        assert DeviceOwes(t.devices[m], j);
      }
    }
    DeviceStepCounts(s, n);
  }

  lemma DeviceStepCounts(s: State, n: nat)
    requires Shape(s) && OncePerArm(s) && n < |s.devices|
    ensures Shape(DeviceStep(s, n)) && OncePerArm(DeviceStep(s, n))
  {
    DeviceStepShape(s, n);
  }

  lemma CpuStepOwes(s: State, asleep: bool, weak: bool, down: nat, j: nat)
    requires Shape(s) && down > 0 && j < LINES
    ensures var t := CpuStep(s, asleep, weak, down);
            Shape(t) && t.devices == s.devices
            && (t.timer[j] > 0 ==> s.timer[j] > 0)
            && (t.timer[j] > 0 ==> t.check || CpuOwes(t.cpu, j) || (t.check == s.check && !CpuOwes(s.cpu, j)))
  {
  }

  lemma CpuStepCounts(s: State, asleep: bool, weak: bool, down: nat)
    requires Shape(s) && OncePerArm(s) && down > 0
    ensures Shape(CpuStep(s, asleep, weak, down)) && OncePerArm(CpuStep(s, asleep, weak, down))
  {
  }

  lemma CpuStepKeeps(s: State, asleep: bool, weak: bool, down: nat)
    requires Inv(s) && down > 0
    ensures Inv(CpuStep(s, asleep, weak, down))
  {
    hide CpuStep, DeviceOwes, CpuOwes, Shape;
    CpuStepCounts(s, asleep, weak, down);
    var t := CpuStep(s, asleep, weak, down);
    forall j | 0 <= j < LINES && t.timer[j] > 0
      ensures Owed(t, j)
    {
      CpuStepOwes(s, asleep, weak, down, j);
    }
  }

  lemma CallKeeps(s: State, n: nat, line: nat, on: bool, delay: nat)
    requires Inv(s) && n < |s.devices| && s.devices[n] == Resting && line < LINES
    ensures Inv(s.(devices := s.devices[n := SeesEir(line, on, delay)]))
  {
    var t := s.(devices := s.devices[n := SeesEir(line, on, delay)]);
    forall j | 0 <= j < LINES && t.timer[j] > 0
      ensures Owed(t, j)
    {
      if !s.check && !CpuOwes(s.cpu, j) {
        var m :| 0 <= m < |s.devices| && DeviceOwes(s.devices[m], j);
        assert t.devices[m] == s.devices[m];
      }
    }
  }

  lemma StepKeeps(s: State, e: Event)
    requires Inv(s) && Enabled(s, e)
    ensures Inv(Step(s, e))
  {
    match e
    case Calls(n, line, on, delay) => CallKeeps(s, n, line, on, delay);
    case DeviceSteps(n) => DeviceStepKeeps(s, n);
    case CpuSteps(asleep, weak, down) => CpuStepKeeps(s, asleep, weak, down);
  }

  // ---- Runs ------------------------------------------------------------------------------------

  predicate Start(s: State) {
    && Shape(s) && s.cpu == Runs && (forall n :: 0 <= n < |s.devices| ==> s.devices[n] == Resting)
    && forall j :: 0 <= j < LINES ==> s.timer[j] == s.armed[j] == s.fired[j] == 0
  }

  ghost predicate Run(s: State, events: seq<Event>, r: State)
    decreases |events|
  {
    if events == [] then r == s else Shape(s) && Enabled(s, events[0]) && Run(Step(s, events[0]), events[1..], r)
  }

  lemma {:induction false} RunKeeps(s: State, events: seq<Event>, r: State)
    requires Inv(s) && Run(s, events, r)
    ensures Inv(r)
    decreases |events|
  {
    hide Step, Enabled, Doorbell, OncePerArm;
    if events != [] {
      StepKeeps(s, events[0]);
      RunKeeps(Step(s, events[0]), events[1..], r);
    }
  }

  /** Under every interleaving: countdowns raise no line more often than it was armed, and when every
      thread has come to rest a running timer has its doorbell rung. */
  lemma NoTimerForgotten(s: State, events: seq<Event>, r: State, j: nat)
    requires Start(s) && Run(s, events, r) && j < LINES
    ensures Shape(r)
    ensures r.fired[j] + (if r.timer[j] > 0 then 1 else 0) <= r.armed[j]
    ensures r.timer[j] > 0 ==> Owed(r, j)
    ensures r.timer[j] > 0 && r.cpu == Runs && (forall n :: 0 <= n < |r.devices| ==> r.devices[n] == Resting) ==>
              r.check
  {
    RunKeeps(s, events, r);
  }

  /** The processor's own steps never start a timer or raise its value: a line cancelled stays so
      until it is armed again. */
  lemma CountdownNeverRevives(s: State, asleep: bool, weak: bool, down: nat, j: nat)
    requires Shape(s) && down > 0 && j < LINES
    ensures CpuStep(s, asleep, weak, down).timer[j] <= s.timer[j]
    ensures CpuStep(s, asleep, weak, down).timer[j] < s.timer[j] ==> exists t :: s.cpu == Swaps(j, t) && t == s.timer[j]
    ensures CpuStep(s, asleep, weak, down).fired[j] > s.fired[j] ==> s.cpu == Fires(j)
    ensures CpuStep(s, asleep, weak, down).cpu == Fires(j) && s.cpu != Fires(j) ==>
              s.timer[j] > 0 && CpuStep(s, asleep, weak, down).timer[j] == 0
  {
  }

  // ---- On time ---------------------------------------------------------------------------------

  /** k steps of the processor alone, awake and with no spurious failure. */
  function Alone(s: State, k: nat, down: nat): State
    requires Shape(s) && down > 0
    decreases k
  {
    if k == 0 then s else AloneShape(s, down); Alone(CpuStep(s, false, false, down), k - 1, down)
  }

  lemma AloneShape(s: State, down: nat)
    requires Shape(s) && down > 0
    ensures Shape(CpuStep(s, false, false, down))
  {
  }

  lemma {:induction false} AloneAdds(s: State, k: nat, m: nat, down: nat)
    requires Shape(s) && down > 0
    ensures Shape(Alone(s, k, down)) && Alone(s, k + m, down) == Alone(Alone(s, k, down), m, down)
    decreases k
  {
    hide CpuStep;
    if k > 0 {
      AloneShape(s, down);
      AloneAdds(CpuStep(s, false, false, down), k - 1, m, down);
    }
  }

  /** What counting one line down does. */
  function LineCounted(s: State, j: nat, down: nat): State
    requires Shape(s) && j < LINES
  {
    var left := Less(s.timer[j], down);
    if s.timer[j] == 0 then s
    else if left > 0 then s.(timer := s.timer[j := left], check := true)
    else s.(timer := s.timer[j := 0], eir := s.eir[j := true], fired := s.fired[j := s.fired[j] + 1])
  }

  lemma CountsLine(s: State, j: nat, down: nat) returns (k: nat)
    requires Shape(s) && down > 0 && j < LINES && s.cpu == Counts(j)
    ensures Alone(s, k, down) == LineCounted(s, j, down).(cpu := Counts(j + 1))
  {
    var s1 := CpuStep(s, false, false, down);
    AloneShape(s, down);
    if s.timer[j] == 0 {
      k := 1;
      assert Alone(s1, 0, down) == s1;
    } else {
      var s2 := CpuStep(s1, false, false, down);
      AloneShape(s1, down);
      var s3 := CpuStep(s2, false, false, down);
      AloneShape(s2, down);
      k := 3;
      assert Alone(s3, 0, down) == s3 && Alone(s2, 1, down) == s3 && Alone(s1, 2, down) == s3;
    }
  }

  /** Lines from j on counted down by d, fired where they reach zero; the lines before it untouched. */
  ghost predicate CountedFrom(s: State, j: nat, d: nat, r: State)
    requires Shape(s) && Shape(r)
  {
    && r.devices == s.devices && r.armed == s.armed
    && (forall i :: 0 <= i < LINES ==>
          if i < j then r.timer[i] == s.timer[i] && r.fired[i] == s.fired[i] && r.eir[i] == s.eir[i]
          else
            && r.timer[i] == Less(s.timer[i], d)
            && r.fired[i] == s.fired[i] + (if 0 < s.timer[i] <= d then 1 else 0)
            && r.eir[i] == (s.eir[i] || 0 < s.timer[i] <= d))
  }

  lemma {:induction false} CountsFrom(s: State, j: nat, down: nat) returns (k: nat)
    requires Shape(s) && down > 0 && j <= LINES && s.cpu == Counts(j)
    ensures Shape(Alone(s, k, down)) && Alone(s, k, down).cpu == Runs && CountedFrom(s, j, down, Alone(s, k, down))
    decreases LINES - j
  {
    if j == LINES {
      k := 1;
      AloneShape(s, down);
      assert Alone(CpuStep(s, false, false, down), 0, down) == CpuStep(s, false, false, down);
    } else {
      var a := CountsLine(s, j, down);
      AloneAdds(s, a, 0, down);
      hide CpuStep, Alone;
      var t := Alone(s, a, down);
      var b := CountsFrom(t, j + 1, down);
      k := a + b;
      AloneAdds(s, a, b, down);
    }
  }

  predicate AtRest(s: State) {
    s.cpu == Runs && forall n :: 0 <= n < |s.devices| ==> s.devices[n] == Resting
  }

  /** With the devices at rest, a poll lowers every running timer by the step and raises exactly those
      that reach zero; with none running there may be no poll to make. */
  lemma PollCounts(s: State, down: nat) returns (k: nat)
    requires Inv(s) && down > 0 && AtRest(s)
    ensures Shape(Alone(s, k, down)) && AtRest(Alone(s, k, down)) && CountedFrom(s, 0, down, Alone(s, k, down))
  {
    if s.check {
      var s1 := CpuStep(s, false, false, down);
      AloneShape(s, down);
      var s2 := CpuStep(s1, false, false, down);
      AloneShape(s1, down);
      assert s2 == s.(check := false, cpu := Counts(0));
      var b := CountsFrom(s2, 0, down);
      k := 2 + b;
      assert Alone(s1, 1 + b, down) == Alone(s2, b, down);
    } else {
      k := 0;
      assert forall j :: 0 <= j < LINES ==> s.timer[j] == 0;
    }
  }

  lemma {:induction false} AloneKeeps(s: State, k: nat, down: nat)
    requires Inv(s) && down > 0
    ensures Inv(Alone(s, k, down))
    decreases k
  {
    hide CpuStep, Doorbell, OncePerArm;
    if k > 0 {
      AloneShape(s, down);
      CpuStepKeeps(s, false, false, down);
      AloneKeeps(CpuStep(s, false, false, down), k - 1, down);
    }
  }

  /** A line armed with a delay and left alone fires in the poll in which the counts reach it, once,
      and not before: after n polls it has delay - n * step left, or has fired. */
  lemma {:induction false} FiresOnTime(s: State, down: nat, n: nat) returns (k: nat)
    requires Inv(s) && down > 0 && AtRest(s)
    ensures var r := Alone(s, k, down);
            && Inv(r) && AtRest(r)
            && forall j :: 0 <= j < LINES ==>
                 && r.timer[j] == Less(s.timer[j], n * down)
                 && r.fired[j] == s.fired[j] + (if 0 < s.timer[j] <= n * down then 1 else 0)
                 && r.eir[j] == (s.eir[j] || 0 < s.timer[j] <= n * down)
  {
    if n == 0 {
      k := 0;
    } else {
      var a := FiresOnTime(s, down, n - 1);
      var t := Alone(s, a, down);
      var b := PollCounts(t, down);
      k := a + b;
      AloneAdds(s, a, b, down);
      AloneKeeps(t, b, down);
      assert n * down == (n - 1) * down + down;
      hide Alone, Inv, AtRest;
    }
  }

  // ---- One call, run alone ---------------------------------------------------------------------

  /** k steps of device thread n alone. */
  function DeviceAlone(s: State, n: nat, k: nat): State
    requires Shape(s) && n < |s.devices|
    decreases k
  {
    if k == 0 then s else DeviceStepShape(s, n); DeviceAlone(DeviceStep(s, n), n, k - 1)
  }

  lemma {:induction false} DeviceAloneAdds(s: State, n: nat, k: nat, m: nat)
    requires Shape(s) && n < |s.devices|
    ensures Shape(DeviceAlone(s, n, k)) && n < |DeviceAlone(s, n, k).devices|
    ensures DeviceAlone(s, n, k + m) == DeviceAlone(DeviceAlone(s, n, k), n, m)
    decreases k
  {
    hide DeviceStep;
    if k > 0 {
      DeviceStepShape(s, n);
      DeviceAloneAdds(DeviceStep(s, n), n, k - 1, m);
    }
  }

  /** Steps of one thread, one at a time. */
  lemma OneMore(s: State, n: nat, k: nat, t: State)
    requires Shape(s) && n < |s.devices| && DeviceAlone(s, n, k) == t && Shape(t) && n < |t.devices|
    ensures DeviceAlone(s, n, k + 1) == DeviceStep(t, n)
  {
    DeviceAloneAdds(s, n, k, 1);
    DeviceStepShape(t, n);
    assert DeviceAlone(DeviceStep(t, n), n, 0) == DeviceStep(t, n);
  }

  /** A timer is running at or after line j. */
  predicate AnyFrom(timer: seq<nat>, j: nat) { exists i :: j <= i < |timer| && timer[i] > 0 }

  lemma {:induction false} LooksThrough(s: State, n: nat, j: nat) returns (k: nat)
    requires Shape(s) && n < |s.devices| && j <= LINES && s.devices[n] == Looks(j)
    ensures DeviceAlone(s, n, k) == s.(check := s.check || AnyFrom(s.timer, j), devices := s.devices[n := Resting])
    decreases LINES - j
  {
    DeviceStepShape(s, n);
    var s1 := DeviceStep(s, n);
    if j == LINES {
      k := 1;
      assert DeviceAlone(s1, n, 0) == s1;
    } else {
      var s2 := if s.timer[j] > 0 then DeviceStep(s1, n) else s1;
      DeviceStepShape(s1, n);
      var m := LooksThrough(s2, n, j + 1);
      k := m + (if s.timer[j] > 0 then 2 else 1);
      assert s2 == s.(check := s.check || s.timer[j] > 0, devices := s.devices[n := Looks(j + 1)]);
      assert DeviceAlone(s1, n, k - 1) == DeviceAlone(s2, n, m);
    }
  }

  predicate Active(s: State, line: nat)
    requires Shape(s) && line < LINES
  {
    s.eir[line] || s.timer[line] > 0
  }

  /** What a call of irq_h leaves of s. */
  ghost predicate CallLeaves(s: State, line: nat, on: bool, delay: nat, r: State)
    requires Shape(s) && line < LINES
  {
    if on && !Active(s, line) then
      if delay > 0 then
        r == s.(timer := s.timer[line := delay], check := true, armed := s.armed[line := s.armed[line] + 1])
      else r == s.(eir := s.eir[line := true])
    else if !on && Active(s, line) then
      r == s.(timer := s.timer[line := 0], eir := s.eir[line := false],
              check := exists j :: 0 <= j < LINES && j != line && s.timer[j] > 0)
    else r == s
  }

  /** A call of irq_h that no other thread comes between: an assertion of an inactive line raises it, or
      arms its timer and rings; a release of an active one clears both and rings exactly if another
      line's timer runs; any other call changes nothing. */
  lemma CallAlone(s: State, n: nat, line: nat, on: bool, delay: nat) returns (k: nat)
    requires Shape(s) && Enabled(s, Calls(n, line, on, delay))
    ensures CallLeaves(s, line, on, delay, DeviceAlone(Step(s, Calls(n, line, on, delay)), n, k))
  {
    var s0 := Step(s, Calls(n, line, on, delay));
    var s1 := DeviceStep(s0, n);
    DeviceStepShape(s0, n);
    assert DeviceAlone(s1, n, 0) == s1;
    var s2 := if s.eir[line] then s1 else DeviceStep(s1, n);
    k := if s.eir[line] then 1 else 2;
    if !s.eir[line] {
      DeviceStepShape(s1, n);
      OneMore(s0, n, 1, s1);
    }
    assert s2 == s.(devices := s.devices[n := Decided(line, on, delay, Active(s, line))]);
    assert s.devices[n := Resting] == s.devices;
    if on && !Active(s, line) {
      var m := Asserts(s, s2, n, line, delay);
      DeviceAloneAdds(s0, n, k, m);
      k := k + m;
    } else if !on && Active(s, line) {
      var m := Releases(s, s2, n, line);
      DeviceAloneAdds(s0, n, k, m);
      k := k + m;
    }
  }

  lemma Asserts(s: State, t: State, n: nat, line: nat, delay: nat) returns (m: nat)
    requires Shape(s) && n < |s.devices| && s.devices[n] == Resting && line < LINES && !Active(s, line)
    requires t == s.(devices := s.devices[n := if delay > 0 then Arms(line, delay) else Raises(line)])
    ensures CallLeaves(s, line, true, delay, DeviceAlone(t, n, m))
  {
    var t1 := DeviceStep(t, n);
    DeviceStepShape(t, n);
    m := 1;
    assert DeviceAlone(t1, n, 0) == t1;
    assert s.devices[n := Resting] == s.devices;
    if delay > 0 {
      OneMore(t, n, 1, t1);
      m := 2;
    }
  }

  lemma Releases(s: State, t: State, n: nat, line: nat) returns (m: nat)
    requires Shape(s) && n < |s.devices| && s.devices[n] == Resting && line < LINES && Active(s, line)
    requires t == s.(devices := s.devices[n := Lowers(line)])
    ensures CallLeaves(s, line, false, 0, DeviceAlone(t, n, m))
  {
    var t1 := DeviceStep(t, n);
    DeviceStepShape(t, n);
    var t2 := DeviceStep(t1, n);
    DeviceStepShape(t1, n);
    var t3 := DeviceStep(t2, n);
    DeviceStepShape(t2, n);
    m := LooksThrough(t3, n, 0);
    assert t3 == s.(timer := s.timer[line := 0], eir := s.eir[line := false], check := false,
                    devices := s.devices[n := Looks(0)]);
    assert s.devices[n := Resting] == s.devices;
    OtherTimer(s.timer, line);
    assert DeviceAlone(t2, n, m + 1) == DeviceAlone(t3, n, m);
    assert DeviceAlone(t1, n, m + 2) == DeviceAlone(t3, n, m);
    m := m + 3;
  }

  lemma OtherTimer(timer: seq<nat>, line: nat)
    requires line < |timer| == LINES
    ensures AnyFrom(timer[line := 0], 0) <==> exists j :: 0 <= j < LINES && j != line && timer[j] > 0
  {
    if j :| 0 <= j < LINES && j != line && timer[j] > 0 { assert timer[line := 0][j] > 0; }
  }

  /** From a quiet state, a delayed assertion of an inactive line raises it after the polls that reach
      its delay and not before. */
  lemma DelayedLineRises(s: State, n: nat, line: nat, delay: nat, down: nat, polls: nat)
      returns (armed: State, k: nat, r: State)
    requires Inv(s) && AtRest(s) && n < |s.devices| && line < LINES && !Active(s, line) && delay > 0 && down > 0
    ensures CallLeaves(s, line, true, delay, armed) && Inv(armed)
    ensures r == Alone(armed, k, down) && Shape(r) && AtRest(r)
    ensures r.eir[line] <==> delay <= polls * down
    ensures r.fired[line] == s.fired[line] + (if delay <= polls * down then 1 else 0)
  {
    armed := s.(timer := s.timer[line := delay], check := true, armed := s.armed[line := s.armed[line] + 1]);
    assert Inv(armed) by { assert OncePerArm(armed); }
    k := FiresOnTime(armed, down, polls);
    r := Alone(armed, k, down);
  }

  /** A release before that leaves the line down, however many polls follow. */
  lemma CancelledStaysDown(s: State, n: nat, line: nat, down: nat, polls: nat) returns (freed: State, k: nat, r: State)
    requires Inv(s) && AtRest(s) && n < |s.devices| && line < LINES && Active(s, line) && down > 0
    ensures CallLeaves(s, line, false, 0, freed) && Inv(freed)
    ensures r == Alone(freed, k, down) && Shape(r) && AtRest(r)
    ensures !r.eir[line] && r.fired[line] == s.fired[line]
  {
    freed := s.(timer := s.timer[line := 0], eir := s.eir[line := false],
                check := exists j :: 0 <= j < LINES && j != line && s.timer[j] > 0);
    k := FiresOnTime(freed, down, polls);
    r := Alone(freed, k, down);
  }
}
