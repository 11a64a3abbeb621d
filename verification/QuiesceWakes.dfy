/** What a wake-up of QUIESCE comes to: a sleeper that is notified leaves exactly when it has something
    to leave for, and a notify still to come gets it there. */
module QuiesceWakes {
  import opened Quiesce
  import opened QuiesceDelays

  /** What the sleeper leaves for: its watch flag cleared, a timer it was rung for, or an interrupt. */
  predicate HasCause(s: State) { !s.armed || (s.bell && s.running) || s.raised }

  /** Out of QUIESCE: awake, the mutex free, the watch disarmed, a running timer's bell still set. */
  predicate Out(s: State, r: State) {
    && r.sleeper == Awake && r.owner == Free && !r.quiescing && !r.armed
    && r.raised == s.raised && r.running == s.running && r.wakers == s.wakers
    && (s.bell && s.running ==> r.bell)
  }

  lemma GoSleeper(s: State, events: seq<Event>, r: State) returns (events': seq<Event>, r': State)
    requires Reaches(s, events, r) && (NeedsMutex(r.sleeper) ==> r.owner == Free)
    ensures Reaches(s, events', r') && r' == SleeperStep(r, false)
  {
    hide Reaches, SleeperStep;
    events', r' := Go(s, events, r, SleeperSteps(false));
  }

  lemma GoThread(s: State, events: seq<Event>, r: State, n: nat) returns (events': seq<Event>, r': State)
    requires Reaches(s, events, r) && n < |r.wakers| && (r.wakers[n] == Locks ==> r.owner == Free)
    ensures Reaches(s, events', r') && r' == WakerStep(r, n)
  {
    hide Reaches, WakerStep;
    events', r' := Go(s, events, r, WakerSteps(n));
  }

  /** A sleeper that holds the mutex and has yet to look: it leaves exactly when it has cause, and
      otherwise waits. */
  lemma LooksAndDecides(s: State, events: seq<Event>, t: State) returns (events': seq<Event>, r: State)
    requires Reaches(s, events, t) && t.sleeper == SeesFlag && t.owner == HeldBySleeper && t.quiescing
    ensures Reaches(s, events', r)
    ensures if HasCause(t) then Out(t, r) else r == t.(sleeper := Waits, owner := Free, bell := false)
  {
    hide Reaches;
    events', r := GoSleeper(s, events, t);
    if t.armed {
      events', r := GoSleeper(s, events', r);
      if t.bell {
        assert r == t.(sleeper := ClearsBell);
        events', r := GoSleeper(s, events', r);
        assert r == t.(sleeper := SeesTimers, bell := false);
        events', r := GoSleeper(s, events', r);
      }
      if t.bell && t.running {
        assert r == t.(sleeper := PutsBack, bell := false);
        events', r := GoSleeper(s, events', r);
        assert r == t.(sleeper := Leaves);
      } else {
        assert r == t.(sleeper := SeesInts, bell := false);
        events', r := GoSleeper(s, events', r);
        if !t.raised {
          assert r == t.(sleeper := Decides, bell := false);
          events', r := GoSleeper(s, events', r);
          return;
        }
        assert r == t.(sleeper := Leaves, bell := false);
      }
    }
    assert r == t.(sleeper := Leaves, bell := r.bell);
    events', r := Goes(s, events', r);
  }

  lemma Goes(s: State, events: seq<Event>, t: State) returns (events': seq<Event>, r: State)
    requires Reaches(s, events, t) && t.sleeper == Leaves
    ensures Reaches(s, events', r)
    ensures r == t.(sleeper := Awake, quiescing := false, owner := Free, armed := false)
  {
    hide Reaches;
    events', r := GoSleeper(s, events, t);
    assert r == t.(sleeper := Exits, quiescing := false);
    events', r := GoSleeper(s, events', r);
  }

  /** Left to itself from the moment it is notified, the sleeper leaves QUIESCE exactly when its watch
      flag is clear, an interrupt is raised or it was rung for a running timer; else it waits again. */
  lemma WokenDecides(s: State, events: seq<Event>, t: State) returns (events': seq<Event>, r: State)
    requires Reaches(s, events, t) && t.sleeper == Wakes && t.owner == Free && t.quiescing
    ensures Reaches(s, events', r)
    ensures if HasCause(t) then Out(t, r) else r == t.(sleeper := Waits, bell := false)
  {
    hide Reaches;
    events', r := GoSleeper(s, events, t);
    assert r == t.(sleeper := SeesFlag, owner := HeldBySleeper);
    events', r := LooksAndDecides(s, events', r);
  }

  /** And so for a QUIESCE that begins: it does not sleep at all when it has cause not to. */
  lemma QuiesceDecides(s: State) returns (events: seq<Event>, r: State)
    requires s.sleeper == Awake && s.armed && s.owner == Free && !s.quiescing
    ensures Reaches(s, events, r)
    ensures if HasCause(s) then Out(s, r) else r == s.(sleeper := Waits, quiescing := true, bell := false)
  {
    assert Reaches(s, [], s);
    hide Reaches;
    events, r := Go(s, [], s, StartsQuiesce);
    events, r := GoSleeper(s, events, r);
    assert r == s.(sleeper := Marks, owner := HeldBySleeper);
    events, r := GoSleeper(s, events, r);
    assert r == s.(sleeper := SeesFlag, owner := HeldBySleeper, quiescing := true);
    events, r := LooksAndDecides(s, events, r);
  }

  // ---- The notify that is coming ---------------------------------------------------------------

  lemma WakerMoves(t: State, n: nat)
    requires n < |t.wakers|
    ensures t.wakers[n] == Loads && t.quiescing ==> WakerStep(t, n) == t.(wakers := t.wakers[n := Locks])
    ensures t.wakers[n] == Locks ==> WakerStep(t, n) == t.(owner := HeldBy(n), wakers := t.wakers[n := Notifies])
    ensures t.wakers[n] == Notifies && t.sleeper == Waits ==>
              WakerStep(t, n) == t.(sleeper := Wakes, wakers := t.wakers[n := Unlocks])
    ensures t.wakers[n] == Unlocks ==> WakerStep(t, n) == t.(owner := Free, wakers := t.wakers[n := Resting])
  {
  }

  /** The state but for the wakers, the mutex and the sleeper. */
  predicate SameCause(s: State, r: State) {
    r.armed == s.armed && r.raised == s.raised && r.running == s.running && r.bell == s.bell
    && r.quiescing == s.quiescing && |r.wakers| == |s.wakers|
  }

  /** A waker that holds the mutex notifies and lets it go. */
  lemma HolderNotifies(s: State, events: seq<Event>, t: State, n: nat) returns (events': seq<Event>, r: State)
    requires Reaches(s, events, t) && t.sleeper == Waits && n < |t.wakers| && t.wakers[n] == Notifies
    ensures Reaches(s, events', r) && SameCause(t, r) && r.sleeper == Wakes && r.owner == Free
  {
    hide Reaches, WakerStep;
    WakerMoves(t, n);
    events', r := GoThread(s, events, t, n);
    WakerMoves(r, n);
    events', r := GoThread(s, events', r, n);
  }

  /** A notify still to come arrives: from every reachable state with the sleeper waiting, the wakers'
      own steps bring it to wake with the mutex free. */
  lemma NotifyArrives(s: State, n: nat) returns (events: seq<Event>, r: State)
    requires Inv(s) && s.sleeper == Waits && n < |s.wakers| && WillNotify(s.wakers[n])
    ensures Reaches(s, events, r) && SameCause(s, r) && r.sleeper == Wakes && r.owner == Free && r.quiescing
  {
    assert Reaches(s, [], s) && s.quiescing && s.owner != HeldBySleeper;
    events, r := [], s;
    hide Reaches, WakerStep, Inv, WillNotify;
    if s.owner.HeldBy? && s.owner.n < |s.wakers| && s.owner.n != n {
      var m := s.owner.n;
      assert s.wakers[m] == Notifies || s.wakers[m] == Unlocks by { HolderIs(s, m); }
      if s.wakers[m] == Notifies {
        events, r := HolderNotifies(s, events, r, m);
        return;
      }
      WakerMoves(r, m);
      events, r := GoThread(s, events, r, m);
    } else {
      OwnerIs(s, n);
    }
    if r.wakers[n] == Loads {
      WakerMoves(r, n);
      events, r := GoThread(s, events, r, n);
    }
    if r.wakers[n] == Locks {
      WakerMoves(r, n);
      events, r := GoThread(s, events, r, n);
    }
    events, r := HolderNotifies(s, events, r, n);
  }

  lemma HolderIs(s: State, m: nat)
    requires Inv(s) && m < |s.wakers| && s.owner == HeldBy(m)
    ensures s.wakers[m] == Notifies || s.wakers[m] == Unlocks
  {
  }

  lemma OwnerIs(s: State, n: nat)
    requires Inv(s) && n < |s.wakers| && s.sleeper == Waits && (s.owner == HeldBy(n) || !s.owner.HeldBy?)
    ensures s.owner == Free || (s.owner == HeldBy(n) && (s.wakers[n] == Notifies || s.wakers[n] == Unlocks))
  {
  }

  /** So no wake-up is lost, to the end: over every run, a sleeper that waits with its flag clear or an
      interrupt raised has a run of the threads' own steps on from there that takes it out of QUIESCE. */
  lemma WakeUpArrives(s: State, events: seq<Event>, t: State) returns (later: seq<Event>, r: State)
    requires Start(s) && Run(s, events, t) && t.sleeper == Waits && (!t.armed || t.raised)
    ensures Reaches(t, later, r) && r.sleeper == Awake && r.owner == Free && r.raised == t.raised
  {
    RunKeeps(s, events, t);
    NoLostWakeUp(s, events, t);
    var n :| 0 <= n < |t.wakers| && WillNotify(t.wakers[n]);
    later, r := NotifyArrives(t, n);
    hide Reaches;
    later, r := WokenDecides(t, later, r);
  }
}
