/**
  The clock and its timers: N timer threads and one clock thread share a mutex and two
  condition variables.  What a thread does between two waits, holding the mutex, is one
  atomic step of a transition system.  Histories (ticks, fires, cycles) are kept beside the
  fields of the source so that properties of whole runs can be stated.
*/
module ClockBarrier {
  import opened Division

  // ----- one timer

  /** `Idle` before registering, `Running` woken or about to run, `Parked` in the wait, `Finished` after the loop. */
  datatype Phase = Idle | Running | Parked | Finished

  datatype Timer = Timer(
    freq: int, count: int, stopped: bool, phase: Phase,
    ticks: nat,    // iterations of its loop
    fires: nat,    // calls of its action
    joined: nat,   // the cycle in which it registered
    steady: bool,  // its frequency has not been changed since then
    since: nat,    // ticks since it fired last, or since it registered
    calm: bool)    // changes since then, if any, did not restart it or go down to what had elapsed

  /** The part of an iteration that concerns the timer alone: count down, fire at zero. */
  function Ticked(t: Timer): Timer
  {
    var c := t.count - 1;
    if c <= 0 then t.(count := t.freq, ticks := t.ticks + 1, fires := t.fires + 1, since := 0, calm := true)
    else t.(count := c, ticks := t.ticks + 1, since := t.since + 1)
  }

  function Ticks(t: Timer, n: nat): Timer
  {
    if n == 0 then t else Ticked(Ticks(t, n - 1))
  }

  /** Changing the frequency; a restart takes the old frequency, as the source does. */
  function Changed(t: Timer, freq: int, restart: bool): Timer
  {
    var c := if restart then t.freq
             else if freq - (t.freq - t.count) <= 0 then 1
             else freq - (t.freq - t.count);
    t.(freq := freq, count := c, steady := false, calm := t.calm && !restart && freq > t.freq - t.count)
  }

  function Period(freq: int): (p: nat)
    ensures p >= 1
  {
    if freq < 1 then 1 else freq
  }

  /** Where a timer is that has ticked `ticks` times with one frequency. */
  ghost predicate OnSchedule(t: Timer)
  {
    && t.ticks == t.fires * Period(t.freq) + (if t.freq < 1 then 0 else t.freq - t.count)
    && (if t.freq < 1 then t.count == t.freq else 1 <= t.count <= t.freq)
  }

  lemma TickKeepsSchedule(t: Timer)
    requires OnSchedule(t)
    ensures OnSchedule(Ticked(t))
  {
    hide Period;
    OnePeriodMore(t.fires, Period(t.freq));
    ShortPeriod(t.freq);
  }

  lemma OnePeriodMore(n: nat, p: nat)
    ensures (n + 1) * p == n * p + p
  {
  }

  lemma ShortPeriod(freq: int)
    ensures freq >= 1 ==> Period(freq) == freq
    ensures freq < 1 ==> Period(freq) == 1
  {
  }

  /** A timer that fires every `p` ticks has fired `n / p` times, and its countdown says how far it is. */
  lemma ScheduleIsPeriodic(t: Timer)
    requires OnSchedule(t)
    ensures t.fires == t.ticks / Period(t.freq)
    ensures t.freq >= 1 ==> t.count == t.freq - t.ticks % t.freq
  {
    var p := Period(t.freq);
    var r := if t.freq < 1 then 0 else t.freq - t.count;
    Quotient(t.ticks, p, t.fires, r);
  }

  /** A timer that has counted down to `count` fires in exactly `count` ticks and not before. */
  lemma {:induction false} NextFire(t: Timer, n: nat)
    requires t.count >= 1 && n <= t.count
    ensures Ticks(t, n).fires == t.fires + if n == t.count then 1 else 0
    ensures n < t.count ==> Ticks(t, n).count == t.count - n && Ticks(t, n).since == t.since + n
    ensures Ticks(t, n).freq == t.freq
  {
    if n > 0 {
      NextFire(t, n - 1);
    }
  }

  /** The next fire is the tick number `n`, counted from the last one. */
  ghost predicate FiresAt(t: Timer, n: int)
  {
    n > t.since && forall m: nat :: m <= n - t.since ==>
      Ticks(t, m).fires == t.fires + if t.since + m == n then 1 else 0
  }

  lemma FiresWhenCounted(t: Timer)
    requires t.count >= 1
    ensures FiresAt(t, t.since + t.count)
    ensures forall n: int :: FiresAt(t, n) ==> n == t.since + t.count
  {
    forall m: nat | m <= t.count ensures Ticks(t, m).fires == t.fires + if m == t.count then 1 else 0 {
      NextFire(t, m);
    }
    forall n: int | FiresAt(t, n) ensures n == t.since + t.count {
      OneFireFirst(t, n);
    }
  }

  lemma OneFireFirst(t: Timer, n: int)
    requires t.count >= 1 && FiresAt(t, n)
    ensures n == t.since + t.count
  {
    var m: nat := if n - t.since < t.count then n - t.since else t.count;
    NextFire(t, m);
    assert Ticks(t, m).fires == t.fires + if t.since + m == n then 1 else 0;
  }

  /** The countdown says how long ago the last fire was. */
  ghost predicate OnBeat(t: Timer)
  {
    t.since == t.freq - t.count
  }

  /** Ticking keeps a timer on its beat, and firing brings any timer back to it. */
  lemma TickKeepsBeat(t: Timer)
    ensures OnBeat(t) || t.count <= 1 ==> OnBeat(Ticked(t))
  {
  }

  /**
    A change keeps a timer on its beat if and only if it goes above the ticks that have
    elapsed, or restarts a timer whose new frequency is that much above the old one.
  */
  lemma ChangeKeepsBeatExactly(t: Timer, freq: int, restart: bool)
    requires OnBeat(t)
    ensures OnBeat(Changed(t, freq, restart)) <==>
      if restart then freq == t.freq + t.since else freq > t.since
  {
  }

  /**
    After a change without restart the countdown is in range again, and the next fire comes
    `max(new, since + 1)` ticks after the last one if and only if the timer was on its beat,
    or both what the countdown takes for elapsed and what has elapsed leave one tick at most.
  */
  lemma ChangeShiftsFire(t: Timer, freq: int)
    requires 1 <= t.count <= t.freq && freq >= 1
    ensures var u := Changed(t, freq, false);
      && 1 <= u.count <= u.freq
      && (FiresAt(u, if freq < t.since + 1 then t.since + 1 else freq) <==>
            OnBeat(t) || (freq <= t.freq - t.count + 1 && freq <= t.since + 1))
  {
    FiresWhenCounted(Changed(t, freq, false));
  }

  /** Two changes within a period: ten ticks are asked for, the fire comes after sixteen. */
  lemma SecondChangeIsLate(t: Timer)
    requires t.freq == 10 && t.count == 3 && t.since == 7
    ensures OnBeat(t) && FiresAt(Changed(Changed(t, 2, false), 10, false), 16)
  {
    FiresWhenCounted(Changed(Changed(t, 2, false), 10, false));
  }

  /** A restart counts from the old frequency: the countdown is in range exactly if that is not above the new one. */
  lemma RestartKeepsRangeExactly(t: Timer, freq: int)
    requires 1 <= t.count <= t.freq && freq >= 1
    ensures 1 <= Changed(t, freq, true).count <= Changed(t, freq, true).freq <==> t.freq <= freq
    ensures FiresAt(Changed(t, freq, true), t.since + t.freq)
  {
    FiresWhenCounted(Changed(t, freq, true));
  }

  // ----- the protocol

  /** `Blocked` in the wait on the timers, `Runnable` otherwise. */
  datatype ClockPhase = Runnable | Blocked

  datatype State = State(
    consumed: int, total: int, clock: ClockPhase, timers: seq<Timer>,
    cycles: nat)   // broadcasts so far

  predicate MustWait(consumed: int, total: int)
  {
    consumed < total || total == 0
  }

  function WokenTimer(t: Timer): Timer
  {
    if t.phase == Parked then t.(phase := Running) else t
  }

  function Woken(ts: seq<Timer>): (r: seq<Timer>)
    ensures |r| == |ts|
  {
    seq(|ts|, i requires 0 <= i < |ts| => WokenTimer(ts[i]))
  }

  /** From one wait of the clock to the next: wait, or broadcast, start counting again, and test again. */
  function ClockRegion(s: State): State
  {
    if MustWait(s.consumed, s.total) then s.(clock := Blocked)
    else s.(clock := if MustWait(0, s.total) then Blocked else Runnable,
            consumed := 0, timers := Woken(s.timers), cycles := s.cycles + 1)
  }

  /** The head of a timer's loop: tick, report, signal the clock and wait; or leave without a signal. */
  function TimerLoop(s: State, i: nat): State
    requires i < |s.timers|
  {
    var t := s.timers[i];
    if t.stopped then
      s.(total := s.total - 1, timers := s.timers[i := t.(phase := Finished)])
    else
      s.(consumed := s.consumed + 1, clock := Runnable, timers := s.timers[i := Ticked(t).(phase := Parked)])
  }

  function Register(s: State, i: nat): State
    requires i < |s.timers|
  {
    var t := s.timers[i];
    s.(total := s.total + 1,
       timers := s.timers[i := t.(count := t.freq, phase := Running, ticks := 0, fires := 0, joined := s.cycles,
                                  steady := true, since := 0, calm := true)])
  }

  datatype Event =
    | ClockRuns
    | ClockWakes                  // a wakeup without a signal, which the clock's loop tolerates
    | Start(i: nat)
    | Wake(i: nat)
    | Stop(i: nat)
    | Change(i: nat, freq: int, restart: bool)

  ghost predicate Enabled(s: State, e: Event)
  {
    match e
    case ClockRuns => s.clock == Runnable
    case ClockWakes => s.clock == Blocked
    case Start(i) => i < |s.timers| && s.timers[i].phase == Idle
    case Wake(i) => i < |s.timers| && s.timers[i].phase == Running
    case Stop(i) => i < |s.timers|
    case Change(i, _, _) => i < |s.timers|
  }

  function Next(s: State, e: Event): State
    requires Enabled(s, e)
  {
    match e
    case ClockRuns => ClockRegion(s)
    case ClockWakes => s.(clock := Runnable)
    case Start(i) => TimerLoop(Register(s, i), i)
    case Wake(i) => TimerLoop(s, i)
    case Stop(i) => s.(timers := s.timers[i := s.timers[i].(stopped := true)])
    case Change(i, freq, restart) => s.(timers := s.timers[i := Changed(s.timers[i], freq, restart)])
  }

  ghost predicate Initial(s: State)
  {
    && s.consumed == s.total == s.cycles == 0 && s.clock == Runnable
    && forall t | t in s.timers :: t.phase == Idle
  }

  // ----- counting timers

  function Count(ts: seq<Timer>, phase: Phase): nat
  {
    if ts == [] then 0 else (if ts[|ts| - 1].phase == phase then 1 else 0) + Count(ts[..|ts| - 1], phase)
  }

  function One(t: Timer, phase: Phase): nat
  {
    if t.phase == phase then 1 else 0
  }

  lemma {:induction false} CountReplace(ts: seq<Timer>, i: nat, t: Timer, phase: Phase)
    requires i < |ts|
    ensures Count(ts[i := t], phase) + One(ts[i], phase) == Count(ts, phase) + One(t, phase)
  {
    var us := ts[i := t];
    if i < |ts| - 1 {
      assert us[..|us| - 1] == ts[..|ts| - 1][i := t];
      CountReplace(ts[..|ts| - 1], i, t, phase);
    } else {
      assert us[..|us| - 1] == ts[..|ts| - 1];
    }
  }

  lemma {:induction false} CountWoken(ts: seq<Timer>)
    ensures Count(Woken(ts), Parked) == 0
    ensures Count(Woken(ts), Running) == Count(ts, Running) + Count(ts, Parked)
  {
    if ts != [] {
      assert Woken(ts)[..|ts| - 1] == Woken(ts[..|ts| - 1]);
      CountWoken(ts[..|ts| - 1]);
    }
  }

  lemma {:induction false} CountSome(ts: seq<Timer>, phase: Phase)
    ensures Count(ts, phase) > 0 <==> exists i :: 0 <= i < |ts| && ts[i].phase == phase
  {
    if ts != [] {
      var front := ts[..|ts| - 1];
      CountSome(front, phase);
      if i :| 0 <= i < |ts| && ts[i].phase == phase {
        assert i < |front| ==> front[i].phase == phase;
      }
      if i :| 0 <= i < |front| && front[i].phase == phase {
        assert ts[i].phase == phase;
      }
    }
  }

  // ----- lockstep

  predicate Registered(t: Timer)
  {
    t.phase == Running || t.phase == Parked
  }

  /** A timer has ticked once in every cycle since it joined, and already in this one if it is parked. */
  ghost predicate InStep(t: Timer, cycles: nat)
  {
    Registered(t) ==> t.ticks + t.joined == cycles + One(t, Parked)
  }

  ghost predicate TimerFine(t: Timer, cycles: nat)
  {
    InStep(t, cycles) && (Registered(t) && t.steady ==> OnSchedule(t)) && (Registered(t) && t.calm ==> OnBeat(t))
  }

  /** The counters count: `consumed` the parked timers, `total` the registered ones. */
  ghost predicate Counters(s: State)
  {
    s.consumed == Count(s.timers, Parked) && s.total == Count(s.timers, Parked) + Count(s.timers, Running)
  }

  ghost predicate Inv(s: State)
  {
    Counters(s) && forall t | t in s.timers :: TimerFine(t, s.cycles)
  }

  lemma InitialInv(s: State)
    requires Initial(s)
    ensures Inv(s)
  {
    CountSome(s.timers, Parked);
    CountSome(s.timers, Running);
    assert forall i :: 0 <= i < |s.timers| ==> s.timers[i] in s.timers;
  }

  lemma OthersFine(ts: seq<Timer>, i: nat, t: Timer, cycles: nat)
    requires i < |ts| && TimerFine(t, cycles) && forall u | u in ts :: TimerFine(u, cycles)
    ensures forall u | u in ts[i := t] :: TimerFine(u, cycles)
  {
  }

  lemma LoopInv(s: State, i: nat)
    requires Inv(s) && i < |s.timers| && s.timers[i].phase == Running
    ensures Inv(TimerLoop(s, i))
  {
    hide OnSchedule;
    var t := s.timers[i];
    assert t in s.timers;
    var u := if t.stopped then t.(phase := Finished) else Ticked(t).(phase := Parked);
    CountReplace(s.timers, i, u, Parked);
    CountReplace(s.timers, i, u, Running);
    LoopTimerFine(t, s.cycles);
    OthersFine(s.timers, i, u, s.cycles);
  }

  lemma LoopTimerFine(t: Timer, cycles: nat)
    requires TimerFine(t, cycles) && t.phase == Running
    ensures TimerFine(if t.stopped then t.(phase := Finished) else Ticked(t).(phase := Parked), cycles)
  {
    if t.steady {
      TickKeepsSchedule(t);
    }
  }

  lemma RegisterInv(s: State, i: nat)
    requires Inv(s) && i < |s.timers| && s.timers[i].phase == Idle
    ensures Inv(Register(s, i))
  {
    var u := Register(s, i).timers[i];
    CountReplace(s.timers, i, u, Parked);
    CountReplace(s.timers, i, u, Running);
    OthersFine(s.timers, i, u, s.cycles);
  }

  lemma ChangeInv(s: State, i: nat, u: Timer)
    requires Inv(s) && i < |s.timers| && u.phase == s.timers[i].phase && TimerFine(u, s.cycles)
    ensures Inv(s.(timers := s.timers[i := u]))
  {
    hide TimerFine;
    CountReplace(s.timers, i, u, Parked);
    CountReplace(s.timers, i, u, Running);
    OthersFine(s.timers, i, u, s.cycles);
  }

  lemma ClockInv(s: State)
    requires Inv(s)
    ensures Inv(ClockRegion(s))
  {
    if !MustWait(s.consumed, s.total) {
      CountWoken(s.timers);
      CountSome(s.timers, Running);
      var us := Woken(s.timers);
      forall u | u in us ensures TimerFine(u, s.cycles + 1) {
        var i :| 0 <= i < |us| && us[i] == u;
        assert s.timers[i] in s.timers && s.timers[i].phase != Running;
      }
    }
  }

  lemma NextInv(s: State, e: Event)
    requires Inv(s) && Enabled(s, e)
    ensures Inv(Next(s, e))
  {
    hide Count, ClockRegion, Register, TimerLoop, Ticked;
    match e
    case ClockRuns => ClockInv(s);
    case ClockWakes =>
    case Start(i) =>
      RegisterInv(s, i);
      RegisteredRuns(s, i);
      LoopInv(Register(s, i), i);
    case Wake(i) => LoopInv(s, i);
    case Stop(i) =>
      assert s.timers[i] in s.timers;
      ChangeInv(s, i, s.timers[i].(stopped := true));
    case Change(i, freq, restart) =>
      assert s.timers[i] in s.timers;
      ChangeInv(s, i, Changed(s.timers[i], freq, restart));
  }

  lemma RegisteredRuns(s: State, i: nat)
    requires i < |s.timers|
    ensures |Register(s, i).timers| == |s.timers| && Register(s, i).timers[i].phase == Running
  {
  }

  // ----- stopped timers

  /** A broadcast wakes the parked timers and changes nothing else of any timer; without one no timer changes at all. */
  lemma BroadcastOnlyWakes(s: State, i: nat)
    requires i < |s.timers|
    ensures var s' := ClockRegion(s); var t := s.timers[i];
      && |s'.timers| == |s.timers|
      && s'.timers[i] ==
           if s.consumed < s.total || s.total == 0 || t.phase != Parked then t else t.(phase := Running)
  {
  }

  /** Events of a timer leave the others alone, and a stop or a change leaves the counters and the clock alone. */
  lemma OthersAreLeftAlone(s: State, e: Event, i: nat)
    requires Enabled(s, e) && i < |s.timers| && !e.ClockRuns? && (e.ClockWakes? || e.i != i)
    ensures |Next(s, e).timers| == |s.timers| && Next(s, e).timers[i] == s.timers[i] && Next(s, e).cycles == s.cycles
    ensures e.Stop? || e.Change? ==> Next(s, e) == s.(timers := Next(s, e).timers)
    ensures e.ClockWakes? ==> Next(s, e) == s.(clock := Runnable)
  {
  }

  /** Stopping sets the status and nothing else; no other event stops a timer, and none takes a stop back. */
  lemma StopIsTheOnlyStop(s: State, e: Event, i: nat)
    requires Enabled(s, e) && i < |s.timers|
    ensures |Next(s, e).timers| == |s.timers|
    ensures e == Stop(i) ==> Next(s, e).timers[i] == s.timers[i].(stopped := true)
    ensures Next(s, e).timers[i].stopped <==> s.timers[i].stopped || e == Stop(i)
  {
    if e == ClockRuns {
      BroadcastOnlyWakes(s, i);
    }
  }

  /** A stopped timer never ticks or fires again, and does not come back once it has left. */
  lemma StoppedNeverTicks(s: State, e: Event, i: nat)
    requires Enabled(s, e) && i < |s.timers| && s.timers[i].stopped && s.timers[i].phase != Idle
    ensures |Next(s, e).timers| == |s.timers|
    ensures var t, u := s.timers[i], Next(s, e).timers[i];
      && u.stopped && u.phase != Idle && u.ticks == t.ticks && u.fires == t.fires
      && (t.phase == Finished ==> u.phase == Finished)
  {
    if e == ClockRuns {
      BroadcastOnlyWakes(s, i);
    }
  }

  /** When it is woken it leaves: the counter of timers goes down by one, the other counter and the clock stay. */
  lemma StoppedLeaves(s: State, i: nat)
    requires Enabled(s, Wake(i)) && s.timers[i].stopped
    ensures var s' := Next(s, Wake(i));
      && s'.timers == s.timers[i := s.timers[i].(phase := Finished)]
      && s'.total == s.total - 1 && s'.consumed == s.consumed && s'.clock == s.clock && s'.cycles == s.cycles
  {
  }

  /** One that is stopped before it starts leaves at once, without a tick. */
  lemma StoppedBeforeStart(s: State, i: nat)
    requires Enabled(s, Start(i)) && s.timers[i].stopped
    ensures var s' := Next(s, Start(i));
      && s'.total == s.total && s'.consumed == s.consumed && s'.clock == s.clock
      && s'.timers[i].phase == Finished && s'.timers[i].ticks == 0 && s'.timers[i].fires == 0
  {
  }

  /** A timer that is not stopped ticks once when it is woken, reports, signals and parks. */
  lemma RunningTicks(s: State, i: nat)
    requires Enabled(s, Wake(i)) && !s.timers[i].stopped
    ensures var s' := Next(s, Wake(i)); var t, u := s.timers[i], s'.timers[i];
      && s'.consumed == s.consumed + 1 && s'.total == s.total && s'.clock == Runnable && s'.cycles == s.cycles
      && u.phase == Parked && u.ticks == t.ticks + 1 && u.fires == t.fires + (if t.count <= 1 then 1 else 0)
      && u.count == (if t.count <= 1 then t.freq else t.count - 1) && u.freq == t.freq
      && u.since == (if t.count <= 1 then 0 else t.since + 1)
  {
  }

  /** Starting a timer that is not stopped registers it, and makes its first tick from a full countdown. */
  lemma StartTicks(s: State, i: nat)
    requires Enabled(s, Start(i)) && !s.timers[i].stopped
    ensures var s' := Next(s, Start(i)); var t, u := s.timers[i], s'.timers[i];
      && s'.consumed == s.consumed + 1 && s'.total == s.total + 1 && s'.clock == Runnable && s'.cycles == s.cycles
      && u.phase == Parked && u.ticks == 1 && u.fires == (if t.freq <= 1 then 1 else 0) && u.freq == t.freq
      && u.count == (if t.freq <= 1 then t.freq else t.freq - 1) && u.since == (if t.freq <= 1 then 0 else 1)
  {
  }

  // ----- whole runs

  /** `es` takes the system through the states `ss`. */
  ghost predicate Trace(ss: seq<State>, es: seq<Event>)
  {
    && |ss| == |es| + 1
    && forall n {:trigger es[n]} :: 0 <= n < |es| ==> Enabled(ss[n], es[n]) && ss[n + 1] == Next(ss[n], es[n])
  }

  lemma {:induction false} EveryStateInv(ss: seq<State>, es: seq<Event>, n: nat)
    requires Trace(ss, es) && Initial(ss[0]) && n < |ss|
    ensures Inv(ss[n])
  {
    hide Inv, Next, Enabled, Initial;
    if n == 0 {
      InitialInv(ss[0]);
    } else {
      EveryStateInv(ss, es, n - 1);
      assert ss[n] == Next(ss[n - 1], es[n - 1]);
      NextInv(ss[n - 1], es[n - 1]);
    }
  }

  /**
    Barrier: in every reachable state the clock would broadcast exactly if at least one
    timer is registered and all of them are parked; the number that have reported never
    exceeds the number registered.
  */
  lemma BroadcastExactlyWhenAllParked(ss: seq<State>, es: seq<Event>, n: nat)
    requires Trace(ss, es) && Initial(ss[0]) && n < |ss|
    ensures var s := ss[n];
      && 0 <= s.consumed <= s.total
      && (!MustWait(s.consumed, s.total) <==>
            (exists i :: 0 <= i < |s.timers| && Registered(s.timers[i]))
            && forall i :: 0 <= i < |s.timers| && Registered(s.timers[i]) ==> s.timers[i].phase == Parked)
  {
    EveryStateInv(ss, es, n);
    CountSome(ss[n].timers, Parked);
    CountSome(ss[n].timers, Running);
  }

  /** A timer registers once; nothing later changes the cycle it joined in. */
  lemma JoinedIsKept(s: State, e: Event, i: nat)
    requires Enabled(s, e) && i < |s.timers| && s.timers[i].phase != Idle
    ensures |Next(s, e).timers| == |s.timers|
    ensures Next(s, e).timers[i].phase != Idle && Next(s, e).timers[i].joined == s.timers[i].joined
  {
  }

  lemma {:induction false} JoinedOnce(ss: seq<State>, es: seq<Event>, a: nat, b: nat, i: nat)
    requires Trace(ss, es) && a <= b < |ss| && i < |ss[a].timers| && ss[a].timers[i].phase != Idle
    ensures i < |ss[b].timers| && ss[b].timers[i].phase != Idle
    ensures ss[b].timers[i].joined == ss[a].timers[i].joined
    decreases b - a
  {
    hide Next, Enabled;
    if a < b {
      JoinedOnce(ss, es, a, b - 1, i);
      assert ss[b] == Next(ss[b - 1], es[b - 1]);
      JoinedIsKept(ss[b - 1], es[b - 1], i);
    }
  }

  /**
    Lockstep: between any two moments at which a timer is registered it has ticked once for
    every broadcast in between, give or take the tick of the current cycle, which it has
    made exactly if it is parked.  So in every full cycle each timer ticks exactly once.
  */
  lemma OneTickPerCycle(ss: seq<State>, es: seq<Event>, a: nat, b: nat, i: nat)
    requires Trace(ss, es) && Initial(ss[0]) && a <= b < |ss|
    requires i < |ss[a].timers| && Registered(ss[a].timers[i])
    requires i < |ss[b].timers| && Registered(ss[b].timers[i])
    ensures var t, u := ss[a].timers[i], ss[b].timers[i];
      u.ticks + One(t, Parked) == t.ticks + One(u, Parked) + ss[b].cycles - ss[a].cycles
  {
    EveryStateInv(ss, es, a);
    EveryStateInv(ss, es, b);
    JoinedOnce(ss, es, a, b, i);
    assert ss[a].timers[i] in ss[a].timers && ss[b].timers[i] in ss[b].timers;
  }

  /** Two timers that joined in the same cycle are never more than one tick apart. */
  lemma NeverTwoTicksApart(ss: seq<State>, es: seq<Event>, n: nat, i: nat, j: nat)
    requires Trace(ss, es) && Initial(ss[0]) && n < |ss| && i < |ss[n].timers| && j < |ss[n].timers|
    requires Registered(ss[n].timers[i]) && Registered(ss[n].timers[j])
    requires ss[n].timers[i].joined == ss[n].timers[j].joined
    ensures -1 <= ss[n].timers[i].ticks - ss[n].timers[j].ticks <= 1
  {
    EveryStateInv(ss, es, n);
    assert ss[n].timers[i] in ss[n].timers && ss[n].timers[j] in ss[n].timers;
  }

  /** In every run, a timer whose frequency was not changed has fired once for every full period of ticks. */
  lemma FiresOncePerPeriod(ss: seq<State>, es: seq<Event>, n: nat, i: nat)
    requires Trace(ss, es) && Initial(ss[0]) && n < |ss| && i < |ss[n].timers|
    requires Registered(ss[n].timers[i]) && ss[n].timers[i].steady
    ensures ss[n].timers[i].fires == ss[n].timers[i].ticks / Period(ss[n].timers[i].freq)
  {
    EveryStateInv(ss, es, n);
    assert ss[n].timers[i] in ss[n].timers;
    ScheduleIsPeriodic(ss[n].timers[i]);
  }

  /**
    In every run, changing the frequency of a timer in its range, for the first time since it
    fired last or after calm changes only, makes it fire at the tick `max(new, since + 1)`
    from that fire.
  */
  lemma CalmChangeComesOnTime(ss: seq<State>, es: seq<Event>, n: nat, i: nat, freq: int)
    requires Trace(ss, es) && Initial(ss[0]) && n < |ss| && i < |ss[n].timers|
    requires Registered(ss[n].timers[i]) && ss[n].timers[i].calm && InRange(ss[n].timers[i]) && freq >= 1
    ensures var t := ss[n].timers[i];
      FiresAt(Changed(t, freq, false), if freq < t.since + 1 then t.since + 1 else freq)
  {
    EveryStateInv(ss, es, n);
    assert ss[n].timers[i] in ss[n].timers;
    ChangeShiftsFire(ss[n].timers[i], freq);
  }

  // ----- countdowns in range

  /** The frequency is at least one, and the countdown of a registered timer between one and that. */
  ghost predicate InRange(t: Timer)
  {
    t.freq >= 1 && (Registered(t) ==> 1 <= t.count <= t.freq)
  }

  ghost predicate AllInRange(s: State)
  {
    forall i :: 0 <= i < |s.timers| ==> InRange(s.timers[i])
  }

  /** A change goes to a frequency of at least one, and does not restart a registered timer from a larger one. */
  ghost predicate Gentle(s: State, e: Event)
  {
    e.Change? && e.i < |s.timers| ==>
      e.freq >= 1 && (e.restart && Registered(s.timers[e.i]) ==> s.timers[e.i].freq <= e.freq)
  }

  lemma ChangeInRange(t: Timer, freq: int, restart: bool)
    requires InRange(t)
    ensures InRange(Changed(t, freq, restart)) <==> freq >= 1 && (restart && Registered(t) ==> t.freq <= freq)
  {
  }

  lemma OthersInRange(s: State, s': State, i: nat)
    requires AllInRange(s) && i < |s.timers| && |s'.timers| == |s.timers| && s'.timers == s.timers[i := s'.timers[i]]
    ensures AllInRange(s') <==> InRange(s'.timers[i])
  {
  }

  /** A step keeps every countdown in range if and only if it is not a change that is not gentle. */
  lemma RangeKeptExactly(s: State, e: Event)
    requires Enabled(s, e) && AllInRange(s)
    ensures AllInRange(Next(s, e)) <==> Gentle(s, e)
  {
    hide AllInRange;
    match e
    case ClockRuns => WokenInRange(s);
    case ClockWakes => SameTimersInRange(s, Next(s, e));
    case Start(i) =>
      TimerInRange(s, i);
      OthersInRange(s, Next(s, e), i);
    case Wake(i) =>
      TimerInRange(s, i);
      OthersInRange(s, Next(s, e), i);
    case Stop(i) =>
      TimerInRange(s, i);
      OthersInRange(s, Next(s, e), i);
    case Change(i, freq, restart) =>
      TimerInRange(s, i);
      ChangeInRange(s.timers[i], freq, restart);
      OthersInRange(s, Next(s, e), i);
  }

  lemma TimerInRange(s: State, i: nat)
    requires AllInRange(s) && i < |s.timers|
    ensures InRange(s.timers[i])
  {
  }

  lemma SameTimersInRange(s: State, s': State)
    requires s.timers == s'.timers
    ensures AllInRange(s) <==> AllInRange(s')
  {
  }

  lemma WokenInRange(s: State)
    requires AllInRange(s)
    ensures AllInRange(ClockRegion(s))
  {
  }

  /** In every run from timers in range: all countdowns stay in range if and only if every change is gentle. */
  lemma RangeInRunsExactly(ss: seq<State>, es: seq<Event>)
    requires Trace(ss, es) && AllInRange(ss[0])
    ensures (forall n :: 0 <= n < |ss| ==> AllInRange(ss[n])) <==> (forall n :: 0 <= n < |es| ==> Gentle(ss[n], es[n]))
  {
    hide AllInRange, Gentle, Next, Enabled;
    if forall n :: 0 <= n < |es| ==> Gentle(ss[n], es[n]) {
      forall n: nat | n < |ss| ensures AllInRange(ss[n]) {
        GentleRun(ss, es, n);
      }
    }
    if forall n :: 0 <= n < |ss| ==> AllInRange(ss[n]) {
      forall n: nat | n < |es| ensures Gentle(ss[n], es[n]) {
        assert Enabled(ss[n], es[n]) && ss[n + 1] == Next(ss[n], es[n]);
        RangeKeptExactly(ss[n], es[n]);
      }
    }
  }

  lemma {:induction false} GentleRun(ss: seq<State>, es: seq<Event>, n: nat)
    requires Trace(ss, es) && AllInRange(ss[0]) && n < |ss|
    requires forall m :: 0 <= m < n ==> Gentle(ss[m], es[m])
    ensures AllInRange(ss[n])
  {
    hide AllInRange, Gentle, Next, Enabled;
    if n > 0 {
      GentleRun(ss, es, n - 1);
      assert Enabled(ss[n - 1], es[n - 1]) && ss[n] == Next(ss[n - 1], es[n - 1]);
      RangeKeptExactly(ss[n - 1], es[n - 1]);
    }
  }

  /** What is not gentle: a restart of a timer in range from 10 to 2 leaves its countdown at 10. */
  lemma RestartLeavesRange(s: State, i: nat)
    requires AllInRange(s) && i < |s.timers| && Registered(s.timers[i]) && s.timers[i].freq == 10
    ensures !AllInRange(Next(s, Change(i, 2, true))) && Next(s, Change(i, 2, true)).timers[i].count == 10
  {
    RangeKeptExactly(s, Change(i, 2, true));
  }

  /** In every run, a stopped timer stays stopped, keeps its ticks and fires, and stays away once it has left. */
  lemma {:induction false} StoppedForGood(ss: seq<State>, es: seq<Event>, a: nat, b: nat, i: nat)
    requires Trace(ss, es) && a <= b < |ss| && i < |ss[a].timers|
    requires ss[a].timers[i].stopped && ss[a].timers[i].phase != Idle
    ensures i < |ss[b].timers|
    ensures var t, u := ss[a].timers[i], ss[b].timers[i];
      && u.stopped && u.phase != Idle && u.ticks == t.ticks && u.fires == t.fires
      && (t.phase == Finished ==> u.phase == Finished)
    decreases b - a
  {
    hide Next, Enabled;
    if a < b {
      StoppedForGood(ss, es, a, b - 1, i);
      assert Enabled(ss[b - 1], es[b - 1]) && ss[b] == Next(ss[b - 1], es[b - 1]);
      StoppedNeverTicks(ss[b - 1], es[b - 1], i);
    }
  }

  lemma CalmIsKept(s: State, e: Event, i: nat)
    requires Enabled(s, e) && i < |s.timers| && Registered(s.timers[i]) && s.timers[i].calm
    requires !(e.Change? && e.i == i)
    ensures i < |Next(s, e).timers|
    ensures Next(s, e).timers[i].calm && Next(s, e).timers[i].phase != Idle
  {
    if e == ClockRuns {
      BroadcastOnlyWakes(s, i);
    }
  }

  /** As long as nobody changes its frequency, a timer that has fired or registered is calm. */
  lemma {:induction false} UnchangedIsCalm(ss: seq<State>, es: seq<Event>, a: nat, b: nat, i: nat)
    requires Trace(ss, es) && 1 <= a <= b < |ss| && FiredOrJoined(ss[a - 1], es[a - 1], i)
    requires forall n :: a <= n < b ==> !(es[n].Change? && es[n].i == i)
    requires forall n :: a <= n <= b ==> i < |ss[n].timers| && Registered(ss[n].timers[i])
    ensures ss[b].timers[i].calm
    decreases b - a
  {
    hide Next, Enabled;
    if a < b {
      UnchangedIsCalm(ss, es, a, b - 1, i);
      assert Enabled(ss[b - 1], es[b - 1]) && ss[b] == Next(ss[b - 1], es[b - 1]);
      CalmIsKept(ss[b - 1], es[b - 1], i);
    } else {
      assert Enabled(ss[a - 1], es[a - 1]) && ss[a] == Next(ss[a - 1], es[a - 1]);
      FiredIsCalm(ss[a - 1], es[a - 1], i);
    }
  }

  /**
    In every run: a timer fires or registers, its frequency is then changed for the first time,
    without a restart; the next fire comes `max(new, since + 1)` ticks after that moment.
  */
  lemma FirstChangeComesOnTime(ss: seq<State>, es: seq<Event>, a: nat, b: nat, i: nat, freq: int)
    requires Trace(ss, es) && Initial(ss[0]) && 1 <= a <= b < |ss| && FiredOrJoined(ss[a - 1], es[a - 1], i)
    requires forall n :: a <= n < b ==> !(es[n].Change? && es[n].i == i)
    requires forall n :: a <= n <= b ==> i < |ss[n].timers| && Registered(ss[n].timers[i])
    requires InRange(ss[b].timers[i]) && freq >= 1
    ensures var t := ss[b].timers[i];
      FiresAt(Changed(t, freq, false), if freq < t.since + 1 then t.since + 1 else freq)
  {
    hide Next, Enabled, InRange, FiresAt, FiredOrJoined;
    UnchangedIsCalm(ss, es, a, b, i);
    CalmChangeComesOnTime(ss, es, b, i, freq);
  }

  /** The step registers the timer or makes it fire. */
  ghost predicate FiredOrJoined(s: State, e: Event, i: nat)
  {
    && Enabled(s, e) && i < |s.timers| && i < |Next(s, e).timers|
    && (e == Start(i) || Next(s, e).timers[i].fires > s.timers[i].fires)
  }

  lemma FiredIsCalm(s: State, e: Event, i: nat)
    requires FiredOrJoined(s, e, i)
    ensures Next(s, e).timers[i].calm
  {
    if e == ClockRuns {
      BroadcastOnlyWakes(s, i);
    }
  }

  lemma SteadyIsKept(s: State, e: Event, i: nat)
    requires Enabled(s, e) && i < |s.timers| && s.timers[i].phase != Idle && s.timers[i].steady
    requires !(e.Change? && e.i == i)
    ensures i < |Next(s, e).timers|
    ensures var t, u := s.timers[i], Next(s, e).timers[i]; u.steady && u.phase != Idle && u.freq == t.freq
  {
    if e == ClockRuns {
      BroadcastOnlyWakes(s, i);
    }
  }

  lemma StartIsSteady(s: State, i: nat)
    requires Enabled(s, Start(i))
    ensures i < |Next(s, Start(i)).timers|
    ensures var u := Next(s, Start(i)).timers[i]; u.steady && u.phase != Idle && u.freq == s.timers[i].freq
  {
  }

  lemma {:induction false} UnchangedIsSteady(ss: seq<State>, es: seq<Event>, a: nat, b: nat, i: nat)
    requires Trace(ss, es) && a < b < |ss| && es[a] == Start(i) && i < |ss[a].timers|
    requires forall n :: a < n < b ==> !(es[n].Change? && es[n].i == i)
    ensures i < |ss[b].timers| && ss[b].timers[i].phase != Idle
    ensures ss[b].timers[i].steady && ss[b].timers[i].freq == ss[a].timers[i].freq
    decreases b - a
  {
    hide Next, Enabled;
    assert Enabled(ss[b - 1], es[b - 1]) && ss[b] == Next(ss[b - 1], es[b - 1]);
    if a < b - 1 {
      UnchangedIsSteady(ss, es, a, b - 1, i);
      SteadyIsKept(ss[b - 1], es[b - 1], i);
    } else {
      StartIsSteady(ss[a], i);
    }
  }

  /**
    In every run: from its start on, as long as its frequency is not changed, a timer has fired
    once for every full period of its ticks.
  */
  lemma FiresPeriodicallyFromStart(ss: seq<State>, es: seq<Event>, a: nat, b: nat, i: nat)
    requires Trace(ss, es) && Initial(ss[0]) && a < b < |ss| && es[a] == Start(i) && i < |ss[a].timers|
    requires forall n :: a < n < b ==> !(es[n].Change? && es[n].i == i)
    requires i < |ss[b].timers| && Registered(ss[b].timers[i]) && ss[a].timers[i].freq >= 1
    ensures ss[b].timers[i].fires == ss[b].timers[i].ticks / ss[a].timers[i].freq
  {
    hide Next, Enabled;
    UnchangedIsSteady(ss, es, a, b, i);
    FiresOncePerPeriod(ss, es, b, i);
  }

  // ----- no lost wakeup

  /** A blocked clock has something to wait for. */
  ghost predicate Alert(s: State)
  {
    s.clock == Blocked ==> MustWait(s.consumed, s.total)
  }

  ghost predicate SomebodyRuns(s: State)
  {
    s.clock == Runnable || exists i :: 0 <= i < |s.timers| && s.timers[i].phase == Running
  }

  /** While a timer is registered, being alert is being able to go on. */
  lemma AlertIsLive(s: State)
    requires Inv(s) && s.total > 0
    ensures Alert(s) <==> SomebodyRuns(s)
  {
    CountSome(s.timers, Running);
  }

  /** The one step that loses the wakeup: the last unparked timer leaves, with the clock blocked and somebody parked. */
  ghost predicate LeavesUnnoticed(s: State, e: Event)
  {
    && e.Wake? && e.i < |s.timers| && s.timers[e.i].stopped
    && s.clock == Blocked && Count(s.timers, Running) == 1 && Count(s.timers, Parked) > 0
  }

  /** From an alert state a step leads to one that is not alert if and only if it is that one. */
  lemma AlertLostExactly(s: State, e: Event)
    requires Inv(s) && Enabled(s, e) && Alert(s)
    ensures Alert(Next(s, e)) <==> !LeavesUnnoticed(s, e)
  {
    NextInv(s, e);
    match e
    case Wake(i) =>
      var t := s.timers[i];
      var u := if t.stopped then t.(phase := Finished) else Ticked(t).(phase := Parked);
      CountReplace(s.timers, i, u, Running);
    case _ =>
  }

  /** In every run from the start: all states are alert if and only if no step is that one. */
  lemma AlertInRunsExactly(ss: seq<State>, es: seq<Event>)
    requires Trace(ss, es) && Initial(ss[0])
    ensures (forall n :: 0 <= n < |ss| ==> Alert(ss[n])) <==>
      (forall n :: 0 <= n < |es| ==> !LeavesUnnoticed(ss[n], es[n]))
  {
    hide Alert, LeavesUnnoticed, Next, Enabled, Inv, Initial;
    if forall n :: 0 <= n < |es| ==> !LeavesUnnoticed(ss[n], es[n]) {
      forall n: nat | n < |ss| ensures Alert(ss[n]) {
        NoticedRun(ss, es, n);
      }
    }
    if forall n :: 0 <= n < |ss| ==> Alert(ss[n]) {
      forall n: nat | n < |es| ensures !LeavesUnnoticed(ss[n], es[n]) {
        EveryStateInv(ss, es, n);
        assert Enabled(ss[n], es[n]) && ss[n + 1] == Next(ss[n], es[n]);
        AlertLostExactly(ss[n], es[n]);
      }
    }
  }

  lemma {:induction false} NoticedRun(ss: seq<State>, es: seq<Event>, n: nat)
    requires Trace(ss, es) && Initial(ss[0]) && n < |ss|
    requires forall m :: 0 <= m < n ==> !LeavesUnnoticed(ss[m], es[m])
    ensures Alert(ss[n])
  {
    hide LeavesUnnoticed, Next, Enabled, Inv;
    if n > 0 {
      NoticedRun(ss, es, n - 1);
      EveryStateInv(ss, es, n - 1);
      assert Enabled(ss[n - 1], es[n - 1]) && ss[n] == Next(ss[n - 1], es[n - 1]);
      AlertLostExactly(ss[n - 1], es[n - 1]);
    }
  }

  ghost predicate NobodyStopped(s: State)
  {
    forall t | t in s.timers :: !t.stopped
  }

  lemma StaysUnstopped(s: State, e: Event)
    requires Enabled(s, e) && NobodyStopped(s) && !e.Stop?
    ensures NobodyStopped(Next(s, e))
  {
    if e == ClockRuns {
      var us := Woken(s.timers);
      forall u | u in us ensures !u.stopped {
        var i :| 0 <= i < |us| && us[i] == u;
        assert s.timers[i] in s.timers;
      }
    }
  }

  lemma {:induction false} AlertInRuns(ss: seq<State>, es: seq<Event>, n: nat)
    requires Trace(ss, es) && Initial(ss[0]) && NobodyStopped(ss[0]) && n < |ss|
    requires forall e | e in es :: !e.Stop?
    ensures NobodyStopped(ss[n]) && Alert(ss[n])
  {
    hide Next, Enabled, Inv, NobodyStopped;
    if n > 0 {
      AlertInRuns(ss, es, n - 1);
      EveryStateInv(ss, es, n - 1);
      assert ss[n] == Next(ss[n - 1], es[n - 1]) && es[n - 1] in es;
      StaysUnstopped(ss[n - 1], es[n - 1]);
      UnstoppedKeepsAlert(ss[n - 1], es[n - 1]);
    }
  }

  lemma UnstoppedKeepsAlert(s: State, e: Event)
    requires Inv(s) && Enabled(s, e) && Alert(s) && NobodyStopped(s)
    ensures Alert(Next(s, e))
  {
    hide Next, Inv;
    AlertLostExactly(s, e);
    assert e.Wake? ==> s.timers[e.i] in s.timers;
  }

  /**
    No lost wakeup: in runs in which no timer is stopped, in every reachable state with a
    registered timer some thread can go on.
  */
  lemma NoLostWakeup(ss: seq<State>, es: seq<Event>, n: nat)
    requires Trace(ss, es) && Initial(ss[0]) && NobodyStopped(ss[0]) && n < |ss|
    requires forall e | e in es :: !e.Stop?
    requires ss[n].total > 0
    ensures SomebodyRuns(ss[n])
  {
    EveryStateInv(ss, es, n);
    AlertInRuns(ss, es, n);
    AlertIsLive(ss[n]);
  }

  // ----- progress

  /** Steps that are left before the next broadcast, at most. */
  ghost function Work(s: State): nat
  {
    2 * Count(s.timers, Running) + if s.clock == Runnable then 1 else 0
  }

  /** Every step of a registered thread that is not a broadcast uses some of it up. */
  lemma WorkShrinks(s: State, e: Event)
    requires Inv(s) && Enabled(s, e) && (e.ClockRuns? || e.Wake?) && Next(s, e).cycles == s.cycles
    ensures Work(Next(s, e)) < Work(s)
  {
    match e
    case ClockRuns =>
    case Wake(i) =>
      var t := s.timers[i];
      var u := if t.stopped then t.(phase := Finished) else Ticked(t).(phase := Parked);
      CountReplace(s.timers, i, u, Running);
  }

  lemma CyclesGrow(s: State, e: Event)
    requires Enabled(s, e)
    ensures Next(s, e).cycles >= s.cycles
  {
  }

  /**
    While no new timer joins and no wakeup comes without a signal, a run of the registered
    threads that is longer than the work left contains a broadcast.
  */
  lemma {:induction false} BroadcastComes(ss: seq<State>, es: seq<Event>)
    requires Trace(ss, es) && Inv(ss[0]) && forall e | e in es :: e.ClockRuns? || e.Wake?
    ensures ss[|es|].cycles >= ss[0].cycles && Inv(ss[|es|])
    ensures ss[|es|].cycles == ss[0].cycles ==> |es| + Work(ss[|es|]) <= Work(ss[0])
    decreases |es|
  {
    hide Next, Enabled, Inv, Work;
    if es != [] {
      var n := |es| - 1;
      assert es[n] in es && ss[n + 1] == Next(ss[n], es[n]) && Enabled(ss[n], es[n]);
      assert Trace(ss[..n + 1], es[..n]);
      BroadcastComes(ss[..n + 1], es[..n]);
      NextInv(ss[n], es[n]);
      CyclesGrow(ss[n], es[n]);
      if Next(ss[n], es[n]).cycles == ss[n].cycles {
        WorkShrinks(ss[n], es[n]);
      }
    }
  }

  // ----- what the hypotheses are for

  /** A timer's own wait is not in a loop: a wakeup without a broadcast always spoils the counters. */
  lemma SpuriousTimerWakeup(s: State, i: nat)
    requires Inv(s) && i < |s.timers| && s.timers[i].phase == Parked
    ensures !Counters(TimerLoop(s, i))
  {
    var t := s.timers[i];
    var u := if t.stopped then t.(phase := Finished) else Ticked(t).(phase := Parked);
    CountReplace(s.timers, i, u, Parked);
  }

  /** Stopping one of two timers can leave the clock and the other one waiting for each other for ever. */
  lemma StoppingCanDeadlock() returns (ss: seq<State>, es: seq<Event>)
    ensures Trace(ss, es) && Initial(ss[0])
    ensures ss[|es|].total == 1 && !SomebodyRuns(ss[|es|])
  {
    hide Count;
    var t := Timer(1, 0, false, Idle, 0, 0, 0, false, 0, false);
    var s0 := State(0, 0, Runnable, [t, t], 0);
    var s1 := Next(s0, ClockRuns);
    var s2 := Next(s1, Start(0));
    var s3 := Next(s2, Start(1));
    var s4 := Next(s3, ClockRuns);
    var s5 := Next(s4, Stop(1));
    var s6 := Next(s5, Wake(0));
    var s7 := Next(s6, ClockRuns);
    var s8 := Next(s7, Wake(1));
    ss := [s0, s1, s2, s3, s4, s5, s6, s7, s8];
    es := [ClockRuns, Start(0), Start(1), ClockRuns, Stop(1), Wake(0), ClockRuns, Wake(1)];
    assert s8.timers[0].phase == Parked && s8.timers[1].phase == Finished;
  }

  // ----- the objects and the code between two waits

  class Clock {
    var consumed: int
    var total: int

    constructor ()
      ensures consumed == 0 && total == 0
    {
      consumed, total := 0, 0;
    }

    /** The clock's thread, from one wait to the next; `broadcast` tells whether it woke the timers. */
    method Region() returns (broadcast: bool)
      requires 0 <= total
      modifies this
      ensures total == old(total) && MustWait(consumed, total)
      ensures broadcast <==> !MustWait(old(consumed), total)
      ensures forall s: State :: s.consumed == old(consumed) && s.total == total ==>
        && ClockRegion(s).consumed == consumed && ClockRegion(s).total == total && ClockRegion(s).clock == Blocked
        && ClockRegion(s).cycles == s.cycles + (if broadcast then 1 else 0)
        && ClockRegion(s).timers ==
             if broadcast
             then seq(|s.timers|, i requires 0 <= i < |s.timers| =>
               if s.timers[i].phase == Parked then s.timers[i].(phase := Running) else s.timers[i])
             else s.timers
    {
      broadcast := false;
      while !(consumed < total || total == 0)
        invariant total == old(total)
        invariant if broadcast then consumed == 0 && !MustWait(old(consumed), total) else consumed == old(consumed)
        decreases !broadcast
      {
        broadcast := true;
        consumed := 0;
      }
    }
  }

  const STATUS_RUNNING := 1
  const STATUS_TERMINATE := 2

  class TimerObject {
    const clock: Clock
    var freq: int
    var status: int
    var count: int

    constructor (clock: Clock, freq: int)
      ensures this.clock == clock && this.freq == freq && status == STATUS_RUNNING && count == 0
    {
      this.clock, this.freq, status, count := clock, freq, STATUS_RUNNING, 0;
    }

    /** The fields as they appear in the protocol, with histories from outside. */
    ghost predicate Shows(t: Timer)
      reads this
    {
      t.freq == freq && t.count == count && (t.stopped <==> status == STATUS_TERMINATE)
    }

    /** The head of the loop: a tick, or leaving.  `signal` is given exactly with a tick. */
    method Loop() returns (signal: bool, fired: bool)
      modifies this`count, clock
      ensures signal <==> status != STATUS_TERMINATE
      ensures forall s: State, i: nat
        | i < |s.timers| && old(Shows(s.timers[i]))
          && s.consumed == old(clock.consumed) && s.total == old(clock.total) ::
          var s' := TimerLoop(s, i);
          && Shows(s'.timers[i]) && s'.consumed == clock.consumed && s'.total == clock.total
          && s'.timers[i].phase == (if signal then Parked else Finished)
          && s'.timers[i].fires == s.timers[i].fires + if fired then 1 else 0
    {
      signal, fired := false, false;
      if status != STATUS_TERMINATE {
        count := count - 1;
        if count <= 0 {
          fired := true;
          count := freq;
        }
        clock.consumed := clock.consumed + 1;
        signal := true;
      } else {
        clock.total := clock.total - 1;
      }
    }

    /** A timer's thread up to its first wait. */
    method Begin() returns (signal: bool, fired: bool)
      modifies this`count, clock
      ensures signal <==> status != STATUS_TERMINATE
      ensures forall s: State, i: nat
        | i < |s.timers| && old(Shows(s.timers[i]))
          && s.consumed == old(clock.consumed) && s.total == old(clock.total) ::
          var s' := TimerLoop(Register(s, i), i);
          && Shows(s'.timers[i]) && s'.consumed == clock.consumed && s'.total == clock.total
          && s'.timers[i].phase == (if signal then Parked else Finished)
          && s'.timers[i].fires == if fired then 1 else 0
    {
      count := freq;
      clock.total := clock.total + 1;
      signal, fired := Loop();
    }

    method Stop()
      modifies this`status
      ensures forall t: Timer :: old(Shows(t)) ==> Shows(t.(stopped := true))
    {
      status := STATUS_TERMINATE;
    }

    method ChangeFreq(newFreq: int, restart: bool)
      modifies this`freq, this`count
      ensures forall t: Timer :: old(Shows(t)) ==> Shows(Changed(t, newFreq, restart))
    {
      if restart {
        count := freq;
      } else {
        var elapsed := freq - count;
        count := newFreq - elapsed;
        if count <= 0 {
          count := 1;
        }
      }
      freq := newFreq;
    }
  }
}
