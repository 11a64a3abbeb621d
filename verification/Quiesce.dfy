/** QUIESCE's sleep and the threads that wake it, as interleaved atomic steps
    (src/cpu/AlphaCPU.cpp: quiesce, quiesce_wake; src/cpu/AlphaCPU.hpp: quiesce_notify, irq_h). The
    bound on each wait is not relied on. */
module Quiesce {

  /** The mutex. */
  datatype Owner = Free | HeldBySleeper | HeldBy(n: nat)

  /** A waking thread: it changes what the sleeper decides on, then quiesce_notify. A thread that
      releases a line takes the last five steps instead. */
  datatype Waker =
    | Resting
    | ClearsFlag // about to clear the watch flag
    | Raises // about to raise an enabled interrupt
    | Arms // about to start a delayed interrupt's timer
    | Rings // about to set check_timers
    | Loads // about to read m_quiescing
    | Locks // about to take the mutex
    | Notifies // about to notify, the mutex held
    | Unlocks
    | Lowers(lastInt: bool, lastTimer: bool) // about to lower its line: the last raised? its timer the last?
    | Cancels(lastTimer: bool) // about to cancel its timer
    | Unrings // about to clear check_timers
    | Rescans // about to look for timers still running
    | Rerings // found one: about to set check_timers

  datatype Sleeper =
    | Awake
    | Enters // about to take the mutex
    | Marks // about to set m_quiescing
    | SeesFlag // about to read the watch flag
    | SeesBell // about to read check_timers
    | ClearsBell
    | SeesTimers
    | PutsBack // a timer runs: about to set check_timers and leave
    | SeesInts // about to look for an enabled interrupt
    | Decides // nothing: about to wait, or to fire its own tick
    | Waits // on the condition variable, the mutex released
    | Wakes // notified: about to take the mutex
    | Ticks // its own tick, the mutex released
    | TickLocks // its tick raised an interrupt: about to take the mutex to notify itself
    | TickUnlocks
    | Leaves // about to clear m_quiescing
    | Exits // about to release the mutex

  /** armed: the watch flag. raised: an enabled interrupt. running, bell: a delayed interrupt counting
      down, and check_timers. */
  datatype State = State(armed: bool, raised: bool, running: bool, bell: bool, quiescing: bool,
                         owner: Owner, sleeper: Sleeper, wakers: seq<Waker>)

  // ---- Steps -----------------------------------------------------------------------------------

  /** tick chooses Decides' branch, and whether the tick raises; a wait may end unasked. */
  datatype Event =
    | Begins(n: nat, what: Waker)
    | WakerSteps(n: nat)
    | SleeperSteps(tick: bool)
    | WaitEnds | ArmsWatch | StartsQuiesce

  predicate Enabled(s: State, e: Event) {
    match e
    case Begins(n, what) =>
      n < |s.wakers| && s.wakers[n] == Resting
      && (what == ClearsFlag || what == Raises || what == Arms || what.Lowers?)
    case WakerSteps(n) => n < |s.wakers| && (s.wakers[n] == Locks ==> s.owner == Free)
    case SleeperSteps(_) => NeedsMutex(s.sleeper) ==> s.owner == Free
    case WaitEnds => s.sleeper == Waits
    case ArmsWatch => s.sleeper == Awake
    case StartsQuiesce => s.sleeper == Awake && s.armed
  }

  /** Where a waker goes, by what it reads. */
  function NextWaker(w: Waker, quiescing: bool, running: bool): Waker {
    match w
    case Resting => Resting
    case ClearsFlag => Loads
    case Raises => Loads
    case Arms => Rings
    case Rings => Loads
    case Loads => if quiescing then Locks else Resting
    case Locks => Notifies
    case Notifies => Unlocks
    case Unlocks => Resting
    case Lowers(_, lastTimer) => Cancels(lastTimer)
    case Cancels(_) => Unrings
    case Unrings => Rescans
    case Rescans => if running then Rerings else Resting
    case Rerings => Resting
  }

  /** What its step does to what is shared. */
  function Effect(s: State, n: nat, w: Waker): State {
    match w
    case ClearsFlag => s.(armed := false)
    case Raises => s.(raised := true)
    case Arms => s.(running := true)
    case Rings => s.(bell := true)
    case Locks => s.(owner := HeldBy(n))
    case Notifies => if s.sleeper == Waits then s.(sleeper := Wakes) else s
    case Unlocks => s.(owner := Free)
    case Lowers(lastInt, _) => s.(raised := s.raised && !lastInt)
    case Cancels(lastTimer) => s.(running := s.running && !lastTimer)
    case Unrings => s.(bell := false)
    case Rerings => s.(bell := true)
    case Resting => s
    case Loads => s
    case Rescans => s
  }

  function WakerStep(s: State, n: nat): State
    requires n < |s.wakers|
  {
    Effect(s, n, s.wakers[n]).(wakers := s.wakers[n := NextWaker(s.wakers[n], s.quiescing, s.running)])
  }

  predicate NeedsMutex(p: Sleeper) { p == Enters || p == Wakes || p == TickLocks }

  predicate GivesUpMutex(p: Sleeper) { p == Decides || p == TickUnlocks || p == Exits }

  /** Where the sleeper goes, by what it reads. */
  function NextSleeper(p: Sleeper, armed: bool, bell: bool, running: bool, raised: bool, tick: bool): Sleeper {
    match p
    case Awake => Awake
    case Enters => Marks
    case Marks => SeesFlag
    case SeesFlag => if armed then SeesBell else Leaves
    case SeesBell => if bell then ClearsBell else SeesInts
    case ClearsBell => SeesTimers
    case SeesTimers => if running then PutsBack else SeesInts
    case PutsBack => Leaves
    case SeesInts => if raised then Leaves else Decides
    case Decides => if tick then Ticks else Waits
    case Waits => Waits
    case Wakes => SeesFlag
    case Ticks => if tick then TickLocks else Wakes
    case TickLocks => TickUnlocks
    case TickUnlocks => Wakes
    case Leaves => Exits
    case Exits => Awake
  }

  function SleeperStep(s: State, tick: bool): State {
    var p := s.sleeper;
    s.(sleeper := NextSleeper(p, s.armed, s.bell, s.running, s.raised, tick),
       owner := if NeedsMutex(p) then HeldBySleeper else if GivesUpMutex(p) then Free else s.owner,
       quiescing := if p == Marks then true else if p == Leaves then false else s.quiescing,
       bell := if p == ClearsBell then false else if p == PutsBack then true else s.bell,
       raised := s.raised || (p == Ticks && tick),
       armed := s.armed && p != Exits)
  }

  function Step(s: State, e: Event): State
    requires Enabled(s, e)
  {
    match e
    case Begins(n, what) => s.(wakers := s.wakers[n := what])
    case WakerSteps(n) => WakerStep(s, n)
    case SleeperSteps(tick) => SleeperStep(s, tick)
    case WaitEnds => s.(sleeper := Wakes)
    case ArmsWatch => s.(armed := true)
    case StartsQuiesce => s.(sleeper := Enters)
  }

  // ---- The invariant ---------------------------------------------------------------------------

  /** A waker with its notify still to make. */
  predicate WillNotify(w: Waker) { w == Loads || w == Locks || w == Notifies }

  ghost predicate NotifyComing(s: State) {
    exists n :: 0 <= n < |s.wakers| && WillNotify(s.wakers[n])
  }

  /** The sleeper has found the flag set, and has found no interrupt, since it last took the mutex. */
  predicate PastFlag(p: Sleeper) {
    p == SeesBell || p == ClearsBell || p == SeesTimers || p == SeesInts || PastInts(p)
  }

  predicate PastInts(p: Sleeper) { p == Decides || p == Waits }

  predicate SleeperHolds(p: Sleeper) {
    match p
    case Awake => false
    case Enters => false
    case Waits => false
    case Wakes => false
    case Ticks => false
    case TickLocks => false
    case _ => true
  }

  predicate Looping(p: Sleeper) {
    match p
    case Awake => false
    case Enters => false
    case Marks => false
    case Exits => false
    case _ => true
  }

  ghost predicate Exclusive(s: State) {
    && (s.owner == HeldBySleeper <==> SleeperHolds(s.sleeper))
    && (s.owner.HeldBy? ==> s.owner.n < |s.wakers|)
    && forall n :: 0 <= n < |s.wakers| ==> (s.owner == HeldBy(n) <==> s.wakers[n] == Notifies || s.wakers[n] == Unlocks)
  }

  ghost predicate Inv(s: State) {
    && Exclusive(s)
    && (s.quiescing <==> Looping(s.sleeper))
    && (PastFlag(s.sleeper) && !s.armed ==> NotifyComing(s))
    && (PastInts(s.sleeper) && s.raised ==> NotifyComing(s))
  }

  lemma Keeps(s: State, t: State, n: nat)
    requires n < |s.wakers| == |t.wakers| && forall m :: 0 <= m < |s.wakers| && m != n ==> t.wakers[m] == s.wakers[m]
    requires NotifyComing(s) && (WillNotify(s.wakers[n]) ==> WillNotify(t.wakers[n]))
    ensures NotifyComing(t)
  {
    var m :| 0 <= m < |s.wakers| && WillNotify(s.wakers[m]);
    assert WillNotify(t.wakers[m]);
  }

  /** A waker's step loses a coming notify only by making it, or by having read that nobody sleeps. */
  lemma WakerStepNotify(s: State, n: nat)
    requires n < |s.wakers|
    ensures var t := WakerStep(s, n);
            && |t.wakers| == |s.wakers|
            && (forall m :: 0 <= m < |s.wakers| && m != n ==> t.wakers[m] == s.wakers[m])
            && (WillNotify(s.wakers[n]) && !WillNotify(t.wakers[n]) ==> s.wakers[n] == Notifies || !s.quiescing)
            && (!t.armed ==> !s.armed || WillNotify(t.wakers[n]))
            && (t.raised ==> s.raised || WillNotify(t.wakers[n]))
  {
  }

  /** What a waker's step does to the mutex and the sleeper. */
  lemma EffectParts(s: State, n: nat, w: Waker)
    ensures var t := Effect(s, n, w);
            && t.owner == (if w == Locks then HeldBy(n) else if w == Unlocks then Free else s.owner)
            && t.sleeper == (if w == Notifies && s.sleeper == Waits then Wakes else s.sleeper)
            && t.quiescing == s.quiescing
    ensures var v := NextWaker(w, s.quiescing, s.running);
            v == Notifies || v == Unlocks <==> w == Locks || w == Notifies
  {
  }

  lemma WaitsWithout()
    ensures !SleeperHolds(Waits) && !SleeperHolds(Wakes) && Looping(Waits) && Looping(Wakes)
  {
  }

  lemma WakerStepExclusive(s: State, n: nat)
    requires Exclusive(s) && n < |s.wakers| && (s.wakers[n] == Locks ==> s.owner == Free)
    ensures Exclusive(WakerStep(s, n))
  {
    EffectParts(s, n, s.wakers[n]);
    WaitsWithout();
    hide SleeperHolds, Effect, NextWaker;
  }

  lemma WakerStepKeeps(s: State, n: nat)
    requires Inv(s) && n < |s.wakers| && (s.wakers[n] == Locks ==> s.owner == Free)
    ensures Inv(WakerStep(s, n))
  {
    var t := WakerStep(s, n);
    WakerStepExclusive(s, n);
    WakerStepNotify(s, n);
    EffectParts(s, n, s.wakers[n]);
    WaitsWithout();
    assert s.wakers[n] == Notifies ==> !SleeperHolds(s.sleeper);
    hide Exclusive, Effect, NextWaker, WakerStep, Looping;
    WakerStepSleeper(s, n);
    if (PastFlag(t.sleeper) && !t.armed) || (PastInts(t.sleeper) && t.raised) {
      if WillNotify(t.wakers[n]) {
        assert NotifyComing(t);
      } else {
        Keeps(s, t, n);
      }
    }
  }

  lemma WakerStepSleeper(s: State, n: nat)
    requires Exclusive(s) && n < |s.wakers| && (s.quiescing <==> Looping(s.sleeper))
    ensures var t := WakerStep(s, n);
            && (t.quiescing <==> Looping(t.sleeper))
            && (t.sleeper == s.sleeper || t.sleeper == Wakes)
            && (PastFlag(t.sleeper) ==> t.sleeper == s.sleeper && s.quiescing && s.wakers[n] != Notifies)
  {
    EffectParts(s, n, s.wakers[n]);
    hide Effect, NextWaker;
  }

  /** The sleeper's places, one step apart. */
  lemma NextSleeperPlaces(p: Sleeper, armed: bool, bell: bool, running: bool, raised: bool, tick: bool)
    ensures var q := NextSleeper(p, armed, bell, running, raised, tick);
            && (SleeperHolds(q) <==> NeedsMutex(p) || (SleeperHolds(p) && !GivesUpMutex(p)))
            && (NeedsMutex(p) ==> !SleeperHolds(p)) && (GivesUpMutex(p) ==> SleeperHolds(p))
            && (Looping(q) <==> p == Marks || (Looping(p) && p != Leaves))
            && (PastFlag(q) ==> PastFlag(p) || (p == SeesFlag && armed))
            && (PastInts(q) ==> PastInts(p) || (p == SeesInts && !raised))
            && (p == Ticks ==> !PastInts(q)) && (p == Exits ==> !PastFlag(q))
  {
  }

  lemma SleeperStepExclusive(s: State, tick: bool)
    requires Exclusive(s) && (NeedsMutex(s.sleeper) ==> s.owner == Free)
    ensures Exclusive(SleeperStep(s, tick)) && SleeperStep(s, tick).wakers == s.wakers
  {
    NextSleeperPlaces(s.sleeper, s.armed, s.bell, s.running, s.raised, tick);
    hide NextSleeper, SleeperHolds, NeedsMutex, GivesUpMutex;
  }

  lemma NotifyByWakers(s: State, t: State)
    requires t.wakers == s.wakers
    ensures NotifyComing(s) <==> NotifyComing(t)
  {
  }

  lemma SleeperStepKeeps(s: State, tick: bool)
    requires Inv(s) && (NeedsMutex(s.sleeper) ==> s.owner == Free)
    ensures Inv(SleeperStep(s, tick))
  {
    SleeperStepExclusive(s, tick);
    NotifyByWakers(s, SleeperStep(s, tick));
    NextSleeperPlaces(s.sleeper, s.armed, s.bell, s.running, s.raised, tick);
    hide NotifyComing, Exclusive, NextSleeper, SleeperHolds, NeedsMutex, GivesUpMutex, PastFlag, PastInts, Looping;
  }

  lemma StepKeeps(s: State, e: Event)
    requires Inv(s) && Enabled(s, e)
    ensures Inv(Step(s, e))
  {
    match e
    case Begins(n, what) =>
      if NotifyComing(s) { Keeps(s, Step(s, e), n); }
    case WakerSteps(n) => WakerStepKeeps(s, n);
    case SleeperSteps(tick) => SleeperStepKeeps(s, tick);
    case WaitEnds =>
    case ArmsWatch =>
    case StartsQuiesce =>
  }

  // ---- Runs ------------------------------------------------------------------------------------

  ghost predicate Run(s: State, events: seq<Event>, r: State)
    decreases |events|
  {
    if events == [] then r == s else Enabled(s, events[0]) && Run(Step(s, events[0]), events[1..], r)
  }

  predicate Start(s: State) {
    s.owner == Free && s.sleeper == Awake && !s.quiescing && forall n :: 0 <= n < |s.wakers| ==> s.wakers[n] == Resting
  }

  lemma {:induction false} RunKeeps(s: State, events: seq<Event>, r: State)
    requires Inv(s) && Run(s, events, r)
    ensures Inv(r)
    decreases |events|
  {
    hide Inv, Enabled, Step;
    if events != [] {
      StepKeeps(s, events[0]);
      RunKeeps(Step(s, events[0]), events[1..], r);
    }
  }

  /** No wake-up is lost: in no reachable state does the sleeper wait with its flag clear or an enabled
      interrupt raised while no waker still has its notify to make. */
  lemma NoLostWakeUp(s: State, events: seq<Event>, r: State)
    requires Start(s) && Run(s, events, r) && r.sleeper == Waits && (!r.armed || r.raised)
    ensures NotifyComing(r)
  {
    RunKeeps(s, events, r);
  }
}
