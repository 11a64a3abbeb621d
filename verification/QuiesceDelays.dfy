/** QUIESCE and delayed interrupts. irq_h's release of a line rescans the timers and sets check_timers
    again without a notify (src/cpu/AlphaCPU.hpp): when a sleeper can miss it, exactly. */
module QuiesceDelays {
  import opened Quiesce

  /** The sleeper has looked at check_timers since it last took the mutex. */
  predicate PastBell(p: Sleeper) { p == SeesTimers || p == SeesInts || PastInts(p) }

  /** check_timers set behind the sleeper's look has a notify coming. */
  ghost predicate BellHeard(s: State) { PastBell(s.sleeper) && s.bell ==> NotifyComing(s) }

  /** A delayed interrupt's wake-up lost: the sleeper waits beside a running timer and check_timers,
      and nobody has a notify to make. */
  ghost predicate Lost(s: State) { s.sleeper == Waits && s.bell && s.running && !NotifyComing(s) }

  /** A released line's rescan sets check_timers behind the sleeper's look. */
  predicate RingsUnheard(s: State, e: Event) {
    e.WakerSteps? && e.n < |s.wakers| && s.wakers[e.n] == Rerings && PastBell(s.sleeper)
  }

  // ---- Runs without such a ring ----------------------------------------------------------------

  lemma BellStepWaker(s: State, n: nat)
    requires Inv(s) && BellHeard(s) && Enabled(s, WakerSteps(n)) && !RingsUnheard(s, WakerSteps(n))
    ensures BellHeard(WakerStep(s, n))
  {
    var t := WakerStep(s, n);
    WakerStepNotify(s, n);
    WakerStepSleeper(s, n);
    assert PastBell(t.sleeper) && t.bell ==> s.bell || WillNotify(t.wakers[n]) by { BellSetters(s, n); }
    hide Exclusive, Effect, NextWaker, WakerStep, Looping;
    if PastBell(t.sleeper) && t.bell {
      if WillNotify(t.wakers[n]) {
        assert NotifyComing(t);
      } else {
        assert PastFlag(t.sleeper);
        Keeps(s, t, n);
      }
    }
  }

  lemma BellSetters(s: State, n: nat)
    requires n < |s.wakers|
    ensures WakerStep(s, n).bell ==> s.bell || s.wakers[n] == Rerings || WillNotify(WakerStep(s, n).wakers[n])
    ensures WakerStep(s, n).sleeper == s.sleeper || WakerStep(s, n).sleeper == Wakes
  {
  }

  lemma BellStepSleeper(s: State, tick: bool)
    requires Inv(s) && BellHeard(s)
    ensures BellHeard(SleeperStep(s, tick))
  {
    NotifyByWakers(s, SleeperStep(s, tick));
    hide NotifyComing, Exclusive;
  }

  lemma BellStep(s: State, e: Event)
    requires Inv(s) && BellHeard(s) && Enabled(s, e) && !RingsUnheard(s, e)
    ensures BellHeard(Step(s, e))
  {
    match e
    case Begins(n, what) =>
      if NotifyComing(s) { Keeps(s, Step(s, e), n); }
    case WakerSteps(n) => BellStepWaker(s, n);
    case SleeperSteps(tick) => BellStepSleeper(s, tick);
    case WaitEnds =>
    case ArmsWatch =>
    case StartsQuiesce =>
  }

  /** A run in which no rescan rings behind the sleeper's look. */
  ghost predicate QuietRun(s: State, events: seq<Event>, r: State)
    decreases |events|
  {
    if events == [] then r == s
    else Enabled(s, events[0]) && !RingsUnheard(s, events[0]) && QuietRun(Step(s, events[0]), events[1..], r)
  }

  lemma {:induction false} QuietRunKeeps(s: State, events: seq<Event>, r: State)
    requires Inv(s) && BellHeard(s) && QuietRun(s, events, r)
    ensures Inv(r) && BellHeard(r)
    decreases |events|
  {
    hide Inv, Enabled, Step, BellHeard, RingsUnheard;
    if events != [] {
      StepKeeps(s, events[0]);
      BellStep(s, events[0]);
      QuietRunKeeps(Step(s, events[0]), events[1..], r);
    }
  }

  /** A delayed interrupt on its way wakes the sleeper too, over every run in which no rescan rings
      behind the sleeper's look: so whatever loses one has such a ring in it. */
  lemma NoDelayedWakeUpLost(s: State, events: seq<Event>, r: State)
    requires Start(s) && QuietRun(s, events, r) && r.sleeper == Waits && r.bell
    ensures NotifyComing(r)
  {
    QuietRunKeeps(s, events, r);
  }

  // ---- What such a ring does -------------------------------------------------------------------

  /** k steps of the sleeper alone. */
  function Alone(s: State, k: nat): State
    decreases k
  {
    if k == 0 then s else Alone(SleeperStep(s, false), k - 1)
  }

  /** The sleeper is waiting, or nothing is left that would keep it from it. */
  predicate MustWait(s: State) { PastInts(s.sleeper) || (s.sleeper == SeesInts && !s.raised) }

  /** The sleeper is on its way out, or there is no timer to be woken for. */
  predicate NeedNotWait(s: State) {
    || !s.running
    || s.sleeper == PutsBack || s.sleeper == Leaves || s.sleeper == Exits
    || s.sleeper == Awake || s.sleeper == SeesTimers
    || (s.sleeper == SeesInts && s.raised)
  }

  lemma {:induction false} StaysOut(s: State, k: nat)
    requires NeedNotWait(s)
    ensures NeedNotWait(Alone(s, k))
    decreases k
  {
    if k > 0 { StaysOut(SleeperStep(s, false), k - 1); }
  }

  /** The ring is lost, left to the sleeper, if and only if a timer runs and the sleeper must wait. */
  lemma UnheardRingIsLost(s: State, n: nat)
    requires Inv(s) && RingsUnheard(s, WakerSteps(n)) && !NotifyComing(s)
    ensures (exists k :: Lost(Alone(WakerStep(s, n), k))) <==> s.running && MustWait(s)
  {
    var t := WakerStep(s, n);
    assert t == s.(bell := true, wakers := s.wakers[n := Resting]);
    forall m | 0 <= m < |t.wakers|
      ensures !WillNotify(t.wakers[m])
    {
      if m != n { assert t.wakers[m] == s.wakers[m]; }
    }
    hide Inv;
    if s.running && MustWait(s) {
      GoesToWait(t);
    } else {
      forall k: nat
        ensures !Lost(Alone(t, k))
      {
        StaysOut(t, k);
      }
    }
  }

  lemma GoesToWait(t: State)
    requires t.running && t.bell && MustWait(t) && !NotifyComing(t)
    ensures exists k :: Lost(Alone(t, k))
  {
    var t1 := SleeperStep(t, false);
    var t2 := SleeperStep(t1, false);
    NotifyByWakers(t, t1);
    NotifyByWakers(t, t2);
    assert Alone(t, 0) == t && Alone(t1, 0) == t1 && Alone(t2, 0) == t2;
    assert Alone(t, 1) == t1 && Alone(t1, 1) == t2 && Alone(t, 2) == t2;
    hide NotifyComing;
    if t.sleeper == Waits {
      assert Lost(Alone(t, 0));
    } else if t.sleeper == Decides {
      assert Lost(Alone(t, 1));
    } else {
      assert Lost(Alone(t, 2));
    }
  }

  // ---- When a release can lose one -------------------------------------------------------------

  /** One thread about to release a line, the others at rest, the processor awake with its watch
      armed. */
  predicate Releasing(s: State, n: nat) {
    && n < |s.wakers| && s.wakers[n].Lowers? && (forall m :: 0 <= m < |s.wakers| && m != n ==> s.wakers[m] == Resting)
    && s.sleeper == Awake && s.owner == Free && !s.quiescing && s.armed
  }

  /** Another line's timer keeps running, and no interrupt stays raised. */
  predicate BesideTimer(s: State, n: nat)
    requires n < |s.wakers| && s.wakers[n].Lowers?
  {
    s.running && !s.wakers[n].lastTimer && (s.raised ==> s.wakers[n].lastInt)
  }

  /** Nothing else begins. */
  predicate NothingBegins(events: seq<Event>) { forall i :: 0 <= i < |events| ==> !events[i].Begins? }

  /** With an interrupt that stays raised the sleeper never comes to wait. */
  predicate StaysRaised(s: State) {
    s.raised && !PastInts(s.sleeper)
    && forall m :: 0 <= m < |s.wakers| ==> !(s.wakers[m].Lowers? && s.wakers[m].lastInt)
  }

  lemma StaysRaisedStep(s: State, e: Event)
    requires StaysRaised(s) && Enabled(s, e) && !e.Begins?
    ensures StaysRaised(Step(s, e))
  {
    if e.SleeperSteps? {
      NextSleeperPlaces(s.sleeper, s.armed, s.bell, s.running, s.raised, e.tick);
      hide NextSleeper;
    } else if e.WakerSteps? {
      StaysRaisedWaker(s, e.n);
    }
  }

  lemma StaysRaisedWaker(s: State, n: nat)
    requires StaysRaised(s) && n < |s.wakers|
    ensures StaysRaised(WakerStep(s, n))
  {
    assert !WakerStep(s, n).wakers[n].Lowers?;
  }

  /** With no other timer the release's rescan finds none and rings nothing. */
  predicate NoTimer(s: State, n: nat) {
    && n < |s.wakers| && (forall m :: 0 <= m < |s.wakers| && m != n ==> s.wakers[m] == Resting)
    && match s.wakers[n] {
         case Lowers(_, lastTimer) => lastTimer || !s.running
         case Cancels(lastTimer) => lastTimer || !s.running
         case Unrings => !s.running
         case Rescans => !s.running
         case Resting => !s.running
         case _ => false
       }
  }

  lemma NoTimerStep(s: State, n: nat, e: Event)
    requires NoTimer(s, n) && Enabled(s, e) && !e.Begins?
    ensures NoTimer(Step(s, e), n) && !RingsUnheard(s, e)
  {
    if e.WakerSteps? { NoTimerWaker(s, n, e.n); }
  }

  lemma NoTimerWaker(s: State, n: nat, m: nat)
    requires NoTimer(s, n) && m < |s.wakers|
    ensures NoTimer(WakerStep(s, m), n)
  {
  }

  lemma {:induction false} RaisedRun(s: State, events: seq<Event>, r: State)
    requires StaysRaised(s) && Run(s, events, r) && NothingBegins(events)
    ensures StaysRaised(r)
    decreases |events|
  {
    hide StaysRaised, Enabled, Step;
    if events != [] {
      StaysRaisedStep(s, events[0]);
      RaisedRun(Step(s, events[0]), events[1..], r);
    }
  }

  lemma {:induction false} NoTimerRun(s: State, n: nat, events: seq<Event>, r: State)
    requires NoTimer(s, n) && Run(s, events, r) && NothingBegins(events)
    ensures NoTimer(r, n) && QuietRun(s, events, r)
    decreases |events|
  {
    hide NoTimer, Enabled, Step, RingsUnheard;
    if events != [] {
      NoTimerStep(s, n, events[0]);
      NoTimerRun(Step(s, events[0]), n, events[1..], r);
    }
  }

  /** Without a timer beside it, or with an interrupt that stays raised, a release loses nothing. */
  lemma ReleaseSafe(s: State, n: nat, events: seq<Event>, r: State)
    requires Releasing(s, n) && !BesideTimer(s, n) && Run(s, events, r) && NothingBegins(events)
    ensures !(r.sleeper == Waits && r.bell && !NotifyComing(r))
  {
    if s.raised && !s.wakers[n].lastInt {
      RaisedRun(s, events, r);
    } else {
      NoTimerRun(s, n, events, r);
      QuietRunKeeps(s, events, r);
    }
  }

  lemma {:induction false} Extend(s: State, events: seq<Event>, r: State, e: Event)
    requires Run(s, events, r) && Enabled(r, e) && NothingBegins(events) && !e.Begins?
    ensures Run(s, events + [e], Step(r, e)) && NothingBegins(events + [e])
    decreases |events|
  {
    hide Enabled, Step;
    if events == [] {
      assert (events + [e])[1..] == [];
    } else {
      assert (events + [e])[1..] == events[1..] + [e];
      Extend(Step(s, events[0]), events[1..], r, e);
    }
  }

  /** A run, and one event more. */
  ghost predicate Reaches(s: State, events: seq<Event>, r: State) { Run(s, events, r) && NothingBegins(events) }

  lemma Go(s: State, events: seq<Event>, r: State, e: Event) returns (events': seq<Event>, r': State)
    requires Reaches(s, events, r) && Enabled(r, e) && !e.Begins?
    ensures Reaches(s, events', r') && r' == Step(r, e)
  {
    Extend(s, events, r, e);
    events', r' := events + [e], Step(r, e);
  }

  lemma GoWaker(s: State, events: seq<Event>, r: State, n: nat, w: Waker) returns (events': seq<Event>, r': State)
    requires Reaches(s, events, r) && n < |r.wakers| && r.wakers[n] == w && w != Locks
    ensures Reaches(s, events', r')
    ensures r' == Effect(r, n, w).(wakers := r.wakers[n := NextWaker(w, r.quiescing, r.running)])
  {
    hide Reaches, Effect, NextWaker;
    events', r' := Go(s, events, r, WakerSteps(n));
  }

  lemma EffectOfRelease(t: State, n: nat, w: Waker)
    ensures w.Lowers? ==>
              && Effect(t, n, w) == t.(raised := t.raised && !w.lastInt)
              && NextWaker(w, t.quiescing, t.running) == Cancels(w.lastTimer)
    ensures w.Cancels? ==>
              && Effect(t, n, w) == t.(running := t.running && !w.lastTimer)
              && NextWaker(w, t.quiescing, t.running) == Unrings
    ensures w == Unrings ==> Effect(t, n, w) == t.(bell := false) && NextWaker(w, t.quiescing, t.running) == Rescans
    ensures w == Rescans && t.running ==> Effect(t, n, w) == t && NextWaker(w, t.quiescing, t.running) == Rerings
    ensures w == Rerings ==> Effect(t, n, w) == t.(bell := true) && NextWaker(w, t.quiescing, t.running) == Resting
  {
  }

  /** The release up to its rescan's ring. */
  lemma ReleaseUpToRing(s: State, n: nat) returns (events: seq<Event>, r: State)
    requires Releasing(s, n) && BesideTimer(s, n)
    ensures Reaches(s, events, r) && r == s.(raised := false, bell := false, wakers := s.wakers[n := Rerings])
  {
    events, r := [], s;
    assert Reaches(s, events, r);
    hide Reaches, Effect, NextWaker;
    var w := s.wakers[n];
    EffectOfRelease(r, n, w);
    events, r := GoWaker(s, events, r, n, w);
    EffectOfRelease(r, n, Cancels(w.lastTimer));
    events, r := GoWaker(s, events, r, n, Cancels(w.lastTimer));
    EffectOfRelease(r, n, Unrings);
    events, r := GoWaker(s, events, r, n, Unrings);
    EffectOfRelease(r, n, Rescans);
    events, r := GoWaker(s, events, r, n, Rescans);
    assert r.wakers == s.wakers[n := Rerings];
  }

  /** The processor falls asleep meanwhile. */
  lemma FallsAsleep(s: State, events: seq<Event>, t: State) returns (events': seq<Event>, r: State)
    requires Reaches(s, events, t) && t.armed && !t.raised && !t.bell
             && !t.quiescing && t.owner == Free && t.sleeper == Awake
    ensures Reaches(s, events', r) && r == t.(quiescing := true, sleeper := Waits)
  {
    hide Reaches;
    events', r := Go(s, events, t, StartsQuiesce);
    events', r := Go(s, events', r, SleeperSteps(false));
    assert r == t.(owner := HeldBySleeper, sleeper := Marks);
    events', r := Go(s, events', r, SleeperSteps(false));
    assert r == t.(owner := HeldBySleeper, quiescing := true, sleeper := SeesFlag);
    events', r := Go(s, events', r, SleeperSteps(false));
    assert r == t.(owner := HeldBySleeper, quiescing := true, sleeper := SeesBell);
    events', r := Go(s, events', r, SleeperSteps(false));
    assert r == t.(owner := HeldBySleeper, quiescing := true, sleeper := SeesInts);
    events', r := Go(s, events', r, SleeperSteps(false));
    assert r == t.(owner := HeldBySleeper, quiescing := true, sleeper := Decides);
    events', r := Go(s, events', r, SleeperSteps(false));
  }

  /** The rescan overtaken by the sleeper. */
  lemma ReleaseLoses(s: State, n: nat) returns (events: seq<Event>, r: State)
    requires Releasing(s, n) && BesideTimer(s, n)
    ensures Reaches(s, events, r) && Lost(r)
  {
    hide Reaches, Effect, NextWaker;
    events, r := ReleaseUpToRing(s, n);
    events, r := FallsAsleep(s, events, r);
    EffectOfRelease(r, n, Rerings);
    events, r := GoWaker(s, events, r, n, Rerings);
    assert forall m :: 0 <= m < |r.wakers| ==> r.wakers[m] == Resting;
  }

  /** A release can lose a delayed interrupt's wake-up, with nothing else going on, if and only if
      another line's timer keeps running beside it and no interrupt stays raised. */
  lemma ReleaseLosesExactly(s: State, n: nat)
    requires Releasing(s, n)
    ensures (exists events, r :: Reaches(s, events, r) && Lost(r)) <==> BesideTimer(s, n)
  {
    hide BesideTimer, Run;
    if BesideTimer(s, n) {
      var events, r := ReleaseLoses(s, n);
    } else {
      forall events, r | Reaches(s, events, r)
        ensures !Lost(r)
      {
        ReleaseSafe(s, n, events, r);
      }
    }
  }

  /** It happens in a run from the start: timers armed before, one line released. */
  lemma DelayedWakeUpLost() returns (s: State, events: seq<Event>, r: State)
    ensures Start(s) && Run(s, events, r) && Lost(r)
  {
    s := State(true, false, true, true, false, Free, Awake, [Resting]);
    var e := Begins(0, Lowers(false, false));
    var t := Step(s, e);
    var later;
    later, r := ReleaseLoses(t, 0);
    events := [e] + later;
    assert events[1..] == later;
    hide Step, Lost;
  }
}
