/**
  Context switching: registers saved into and restored from a process control block, many
  processes on one hardware thread, and the theorem that each of them computes what it
  would compute alone.
*/
module Dispatch {
  import opened Options
  import opened Words
  import opened FreeBlocks
  import opened PageTables
  import opened Translation
  import opened Processor

  /** A snapshot keeps the signed registers as unsigned words. */
  datatype Snapshot = Snapshot(pc: uint32, ir: uint32, cc: uint32, r: seq<uint32>)

  datatype Pcb = Pcb(ptbr: int, snapshot: Snapshot)

  function Save(cpu: Cpu): Snapshot
  {
    Snapshot(cpu.pc, cpu.ir, U32(cpu.cc), seq(REGISTERS, i requires 0 <= i < REGISTERS => U32(cpu.r[i])))
  }

  function Restore(s: Snapshot): Cpu
    requires |s.r| == REGISTERS
  {
    Cpu(s.pc, s.ir, I32(s.cc), seq(REGISTERS, i requires 0 <= i < REGISTERS => I32(s.r[i])))
  }

  /** Unloading and loading again gives every register back, signs included. */
  lemma RestoreOfSave(cpu: Cpu)
    ensures Restore(Save(cpu)) == cpu
  {
    SignRoundTrip(cpu.cc);
    forall i | 0 <= i < REGISTERS ensures Restore(Save(cpu)).r[i] == cpu.r[i] {
      SignRoundTrip(cpu.r[i]);
    }
  }

  /** Each register goes to its own place: as it is if it is unsigned, modulo 2^32 if it is signed. */
  lemma SnapshotOf(cpu: Cpu, i: nat)
    requires i < 16
    ensures var s := Save(cpu);
      && s.pc == cpu.pc && s.ir == cpu.ir && |s.r| == 16
      && (s.cc - cpu.cc) % 0x1_0000_0000 == 0 && (s.r[i] - cpu.r[i]) % 0x1_0000_0000 == 0
  {
    assert |Save(cpu).r| == 16 && Save(cpu).r[i] == U32(cpu.r[i]);
    Congruent(cpu.cc);
    Congruent(cpu.r[i]);
  }

  lemma Congruent(x: int)
    ensures (U32(x) - x) % 0x1_0000_0000 == 0
  {
  }

  // ----- one hardware thread, many processes

  /** `current` is on the thread; the others are in their control blocks. */
  datatype System = System(machine: Machine, current: nat, pcbs: seq<Pcb>)

  ghost predicate Proper(s: System)
  {
    s.current < |s.pcbs| && forall p | p in s.pcbs :: |p.snapshot.r| == REGISTERS
  }

  datatype Event = Run | Switch(next: nat)

  /** Loading takes the table base and the registers, and flushes the TLB. */
  function Load(m: Machine, p: Pcb): Machine
    requires |p.snapshot.r| == REGISTERS
  {
    Machine(m.memory, Flushed(|m.tlb|), p.ptbr, Restore(p.snapshot))
  }

  /** A fresh control block starts its process at its program counter, on its own table, all else zero. */
  lemma FreshBlockStarts(m: Machine, ptbr: int, pc: uint32)
    ensures var p := Pcb(ptbr, Snapshot(pc, 0, 0, seq(REGISTERS, _ => 0)));
      Load(m, p) == Machine(m.memory, Flushed(|m.tlb|), ptbr, Cpu(pc, 0, 0, seq(REGISTERS, _ => 0)))
  {
    var p := Pcb(ptbr, Snapshot(pc, 0, 0, seq(REGISTERS, _ => 0)));
    assert Restore(p.snapshot).r == seq(REGISTERS, _ => 0);
  }

  function Unload(s: System): seq<Pcb>
    requires s.current < |s.pcbs|
  {
    s.pcbs[s.current := s.pcbs[s.current].(snapshot := Save(s.machine.cpu))]
  }

  function Perform(s: System, e: Event): (r: Option<System>)
    requires Proper(s) && (e.Switch? ==> e.next < |s.pcbs|)
    ensures r.Some? ==> Proper(r.value) && |r.value.pcbs| == |s.pcbs|
  {
    match e
    case Run =>
      (match Step(s.machine)
       case None => None
       case Some(m) => Some(s.(machine := m)))
    case Switch(next) =>
      var pcbs := Unload(s);
      Some(System(Load(s.machine, pcbs[next]), next, pcbs))
  }

  ghost predicate Schedule(es: seq<Event>, processes: nat)
  {
    forall e | e in es :: e.Switch? ==> e.next < processes
  }

  /** The events in order; a fault of the running process ends the run. */
  ghost function PerformAll(s: System, es: seq<Event>): (r: Option<System>)
    requires Proper(s) && Schedule(es, |s.pcbs|)
    ensures r.Some? ==> Proper(r.value) && |r.value.pcbs| == |s.pcbs|
    decreases |es|
  {
    if es == [] then Some(s)
    else
      assert es[|es| - 1] in es;
      match PerformAll(s, es[..|es| - 1])
      case None => None
      case Some(s') => Perform(s', es[|es| - 1])
  }

  /** Who is on the thread after the events. */
  ghost function OnThread(first: nat, es: seq<Event>): nat
    decreases |es|
  {
    if es == [] then first
    else match es[|es| - 1]
      case Run => OnThread(first, es[..|es| - 1])
      case Switch(next) => next
  }

  /** How many instructions of process `i` the events run. */
  ghost function Turns(first: nat, es: seq<Event>, i: nat): nat
    decreases |es|
  {
    if es == [] then 0
    else
      var before := es[..|es| - 1];
      Turns(first, before, i) + Bit(es[|es| - 1].Run? && OnThread(first, before) == i)
  }

  /** The registers of process `i`, wherever they are. */
  function CpuOf(s: System, i: nat): Cpu
    requires Proper(s) && i < |s.pcbs|
  {
    if i == s.current then s.machine.cpu
    else
      assert s.pcbs[i] in s.pcbs;
      Restore(s.pcbs[i].snapshot)
  }

  /** The process alone on a machine with the same memory and a flushed TLB. */
  function Alone(s: System, i: nat): Machine
    requires Proper(s) && i < |s.pcbs|
  {
    Machine(s.machine.memory, Flushed(|s.machine.tlb|), s.pcbs[i].ptbr, CpuOf(s, i))
  }

  /** Two memories hold the same in the frames of the table. */
  ghost predicate SameFrames(t: Table, m: Memory, m': Memory)
  {
    forall i :: 0 <= i < WORDS && Cover(FrameBlocks(t.frames), 4 * i) > 0 ==> m[i] == m'[i]
  }

  // ----- a step depends on its own frames only, and touches no others

  lemma LoadsAgree(t: Table, m: Memory, m': Memory, va: uint32)
    requires TableAt(m, t) && TableAt(m', t) && SameFrames(t, m, m')
    ensures ResolveByWalk(m, t.ptbr, va) == ResolveByWalk(m', t.ptbr, va)
    ensures match ResolveByWalk(m, t.ptbr, va) case None => true case Some(a) => m[Index(a)] == m'[Index(a)]
  {
    WalkOfTable(m, t, va);
    WalkOfTable(m', t, va);
    if PageOf(va) < |t.frames| {
      ResolvedAddress(m, t, va);
    }
  }

  lemma StoresAgree(t: Table, m: Memory, m': Memory, i: nat, value: uint32)
    requires SameFrames(t, m, m') && i < WORDS
    ensures SameFrames(t, m[i := value], m'[i := value])
  {
  }

  /** The step of a process is determined by its registers and its frames. */
  lemma StepIsLocal(t: Table, p: Plain, q: Plain)
    requires TableAt(p.memory, t) && TableAt(q.memory, t) && p.cpu == q.cpu && SameFrames(t, p.memory, q.memory)
    ensures match (PlainStep(t.ptbr, p), PlainStep(t.ptbr, q))
      case (None, None) => true
      case (Some(p'), Some(q')) => p'.cpu == q'.cpu && SameFrames(t, p'.memory, q'.memory)
      case _ => false
  {
    LoadsAgree(t, p.memory, q.memory, p.cpu.pc);
    match ResolveByWalk(p.memory, t.ptbr, p.cpu.pc) {
      case None =>
      case Some(f) =>
        var word := p.memory[Index(f)];
        match Execute(p.cpu.(ir := word), word) {
          case LoadWord(reg, va, cpu) => LoadsAgree(t, p.memory, q.memory, va);
          case StoreWord(value, va, cpu) =>
            LoadsAgree(t, p.memory, q.memory, va);
            match ResolveByWalk(p.memory, t.ptbr, va) {
              case None =>
              case Some(d) => StoresAgree(t, p.memory, q.memory, Index(d), value);
            }
          case _ =>
        }
    }
  }

  /** What one process stores, another does not see. */
  lemma OthersSeeNothing(k: Kernel, i: nat, j: nat, m: Memory, m': Memory)
    requires Sound(k) && i < |k.tables| && j < |k.tables| && i != j
    requires OnlyFramesOf(k.tables[i], m, m')
    ensures SameFrames(k.tables[j], m, m')
  {
    forall w | 0 <= w < WORDS && Cover(FrameBlocks(k.tables[j].frames), 4 * w) > 0 ensures m[w] == m'[w] {
      DistinctTables(k, i, j, 4 * w);
      CoverOfTable(k.tables[i], 4 * w);
      CoverOfTable(k.tables[j], 4 * w);
    }
  }

  // ----- the theorem

  /** Process `i` of the system is where its run alone is. */
  ghost predicate Tracks(t: Table, s: System, i: nat, alone: Option<Plain>)
    requires Proper(s) && i < |s.pcbs|
  {
    && alone.Some?
    && alone.value.cpu == CpuOf(s, i)
    && TableAt(alone.value.memory, t) && TableAt(s.machine.memory, t)
    && SameFrames(t, alone.value.memory, s.machine.memory)
    && s.pcbs[i].ptbr == t.ptbr
  }

  /** The system's processes own live tables, and the current one is on the thread properly. */
  ghost predicate Ready(k: Kernel, s: System)
  {
    && Sound(k) && Proper(s) && |s.pcbs| == |k.tables| && s.machine.memory == k.memory
    && (forall i :: 0 <= i < |s.pcbs| ==> s.pcbs[i].ptbr == k.tables[i].ptbr)
    && OnTable(k, s)
  }

  ghost predicate OnTable(k: Kernel, s: System)
  {
    && s.current < |k.tables|
    && s.machine.ptbr == k.tables[s.current].ptbr && Coherent(s.machine.tlb, k.tables[s.current])
  }

  ghost function AloneFor(s: System, i: nat, n: nat): Option<Plain>
    requires Proper(s) && i < |s.pcbs|
  {
    PlainSteps(s.pcbs[i].ptbr, Plain(s.machine.memory, CpuOf(s, i)), n)
  }

  lemma SwitchKeepsCpus(s: System, next: nat, i: nat)
    requires Proper(s) && next < |s.pcbs| && i < |s.pcbs|
    ensures CpuOf(Perform(s, Switch(next)).value, i) == CpuOf(s, i)
    ensures Perform(s, Switch(next)).value.pcbs[i].ptbr == s.pcbs[i].ptbr
  {
    RestoreOfSave(s.machine.cpu);
  }

  lemma SwitchCase(k: Kernel, s: System, next: nat)
    requires Sound(k) && Proper(s) && |s.pcbs| == |k.tables| && next < |s.pcbs|
    requires forall i :: 0 <= i < |s.pcbs| ==> s.pcbs[i].ptbr == k.tables[i].ptbr
    ensures OnTable(k, Perform(s, Switch(next)).value)
    ensures forall i: nat, alone :: i < |s.pcbs| && Tracks(k.tables[i], s, i, alone) ==>
      Tracks(k.tables[i], Perform(s, Switch(next)).value, i, alone)
  {
    FlushedIsCoherent(|s.machine.tlb|, k.tables[next]);
    forall i: nat, alone | i < |s.pcbs| && Tracks(k.tables[i], s, i, alone)
      ensures Tracks(k.tables[i], Perform(s, Switch(next)).value, i, alone)
    {
      SwitchKeepsCpus(s, next, i);
    }
  }

  /** One instruction of the current process: it moves on as it does alone, or faults as it does alone. */
  lemma RunCase(k: Kernel, s: System, alone: Plain)
    requires Sound(k) && Proper(s) && |s.pcbs| == |k.tables| && OnTable(k, s)
    requires Tracks(k.tables[s.current], s, s.current, Some(alone))
    ensures var t := k.tables[s.current];
      match Perform(s, Run)
      case None => PlainStep(t.ptbr, alone).None?
      case Some(s') =>
        && OnTable(k, s') && s'.current == s.current
        && OnlyFramesOf(t, s.machine.memory, s'.machine.memory)
        && Tracks(t, s', s.current, PlainStep(t.ptbr, alone))
  {
    var t := k.tables[s.current];
    var here := Plain(s.machine.memory, s.machine.cpu);
    StepRefines(t, s.machine);
    StepIsLocal(t, alone, here);
    if PlainStep(t.ptbr, alone).Some? {
      PlainStepIsolated(t, alone);
      PlainStepIsolated(t, here);
    }
  }

  /** The other processes are where they were. */
  lemma RunLeavesOthers(k: Kernel, s: System, s': System, i: nat, alone: Option<Plain>)
    requires Sound(k) && Proper(s) && |s.pcbs| == |k.tables|
    requires s.current < |k.tables| && i < |k.tables| && i != s.current
    requires s' == s.(machine := s'.machine) && OnlyFramesOf(k.tables[s.current], s.machine.memory, s'.machine.memory)
    requires Tracks(k.tables[i], s, i, alone)
    ensures Tracks(k.tables[i], s', i, alone)
  {
    OthersSeeNothing(k, s.current, i, s.machine.memory, s'.machine.memory);
    assert k.tables[s.current] in k.tables;
    StoresKeepTables(k.tables[s.current], k.tables[i], s.machine.memory, s'.machine.memory);
  }

  /** What the induction over the schedule carries. */
  ghost predicate Transparent(k: Kernel, s: System, es: seq<Event>)
    requires Ready(k, s) && Schedule(es, |s.pcbs|)
  {
    match PerformAll(s, es)
    case None => exists i: nat :: i < |s.pcbs| && AloneFor(s, i, Turns(s.current, es, i)).None?
    case Some(s') =>
      && OnTable(k, s') && s'.current == OnThread(s.current, es)
      && forall i: nat :: i < |s.pcbs| ==> Tracks(k.tables[i], s', i, AloneFor(s, i, Turns(s.current, es, i)))
  }

  lemma AtStart(k: Kernel, s: System)
    requires Ready(k, s)
    ensures Transparent(k, s, [])
  {
    forall i: nat | i < |s.pcbs| ensures Tracks(k.tables[i], s, i, AloneFor(s, i, 0)) {
      assert k.tables[i] in k.tables;
    }
  }

  lemma RunFaults(k: Kernel, s: System, before: seq<Event>, s': System)
    requires Ready(k, s) && Schedule(before, |s.pcbs|) && PerformAll(s, before) == Some(s')
    requires Transparent(k, s, before) && Perform(s', Run).None?
    ensures AloneFor(s, s'.current, Turns(s.current, before, s'.current) + 1).None?
  {
    hide Step, PlainSteps, PlainStep, TableAt, SameFrames, Sound;
    hide AloneFor, PerformAll, OnThread, Turns, Perform, OnTable;
    var c := s'.current;
    assert Tracks(k.tables[c], s', c, AloneFor(s, c, Turns(s.current, before, c)));
    AloneNext(s, c, Turns(s.current, before, c));
    RunCase(k, s', AloneFor(s, c, Turns(s.current, before, c)).value);
  }

  lemma AloneNext(s: System, i: nat, n: nat)
    requires Proper(s) && i < |s.pcbs| && AloneFor(s, i, n).Some?
    ensures AloneFor(s, i, n + 1) == PlainStep(s.pcbs[i].ptbr, AloneFor(s, i, n).value)
  {
    hide PlainStep;
  }

  lemma RunMoves(k: Kernel, s: System, before: seq<Event>, s': System, i: nat)
    requires Ready(k, s) && Schedule(before, |s.pcbs|) && PerformAll(s, before) == Some(s')
    requires Transparent(k, s, before) && Perform(s', Run).Some? && i < |s.pcbs|
    ensures var s'' := Perform(s', Run).value;
      && OnTable(k, s'') && s''.current == s'.current
      && Tracks(k.tables[i], s'', i, AloneFor(s, i, Turns(s.current, before, i) + Bit(s'.current == i)))
  {
    hide Step, PlainSteps, PlainStep, TableAt, SameFrames, Sound, OnlyFramesOf, AloneFor, PerformAll, OnThread, Turns;
    var c := s'.current;
    assert Tracks(k.tables[c], s', c, AloneFor(s, c, Turns(s.current, before, c)));
    RunCase(k, s', AloneFor(s, c, Turns(s.current, before, c)).value);
    if i == c {
      AloneNext(s, c, Turns(s.current, before, c));
    } else {
      assert Tracks(k.tables[i], s', i, AloneFor(s, i, Turns(s.current, before, i)));
      RunLeavesOthers(k, s', Perform(s', Run).value, i, AloneFor(s, i, Turns(s.current, before, i)));
    }
  }

  /** The three functions of a schedule that is one event longer. */
  lemma OneMoreEvent(s: System, before: seq<Event>, e: Event)
    requires Proper(s) && Schedule(before, |s.pcbs|) && (e.Switch? ==> e.next < |s.pcbs|)
    ensures Schedule(before + [e], |s.pcbs|)
    ensures PerformAll(s, before + [e]) ==
      match PerformAll(s, before) case None => None case Some(s') => Perform(s', e)
    ensures OnThread(s.current, before + [e]) == if e.Switch? then e.next else OnThread(s.current, before)
    ensures forall i: nat ::
      Turns(s.current, before + [e], i) ==
      Turns(s.current, before, i) + Bit(e.Run? && OnThread(s.current, before) == i)
  {
    hide Perform;
    var es := before + [e];
    assert es[..|es| - 1] == before && es[|es| - 1] == e;
  }

  lemma RunExtends(k: Kernel, s: System, before: seq<Event>, s': System)
    requires Ready(k, s) && Schedule(before, |s.pcbs|) && PerformAll(s, before) == Some(s')
    requires Transparent(k, s, before) && s'.current < |s.pcbs|
    ensures Transparent(k, s, before + [Run])
  {
    hide Step, PlainSteps, Tracks, OnTable, AloneFor, PerformAll, OnThread, Turns, Perform, Sound, Schedule;
    var es := before + [Run];
    OneMoreEvent(s, before, Run);
    if Perform(s', Run).None? {
      RunFaults(k, s, before, s');
      assert AloneFor(s, s'.current, Turns(s.current, es, s'.current)).None?;
    } else {
      forall i: nat | i < |s.pcbs|
        ensures Tracks(k.tables[i], Perform(s', Run).value, i, AloneFor(s, i, Turns(s.current, es, i)))
      {
        RunMoves(k, s, before, s', i);
      }
      RunMoves(k, s, before, s', s'.current);
    }
  }

  lemma SwitchExtends(k: Kernel, s: System, before: seq<Event>, s': System, next: nat)
    requires Ready(k, s) && Schedule(before, |s.pcbs|) && PerformAll(s, before) == Some(s')
    requires Transparent(k, s, before) && next < |s.pcbs|
    ensures Transparent(k, s, before + [Switch(next)])
  {
    hide Step, PlainSteps, Tracks, OnTable, AloneFor, PerformAll, OnThread, Turns, Sound, Schedule;
    OneMoreEvent(s, before, Switch(next));
    SwitchFromHere(k, s, before, s', next);
  }

  lemma SwitchFromHere(k: Kernel, s: System, before: seq<Event>, s': System, next: nat)
    requires Ready(k, s) && Schedule(before, |s.pcbs|) && PerformAll(s, before) == Some(s')
    requires Transparent(k, s, before) && next < |s.pcbs|
    ensures OnTable(k, Perform(s', Switch(next)).value)
    ensures forall i: nat :: i < |s.pcbs| ==>
      Tracks(k.tables[i], Perform(s', Switch(next)).value, i, AloneFor(s, i, Turns(s.current, before, i)))
  {
    hide PerformAll, Perform, OnTable, AloneFor, Turns, OnThread, Sound, TableAt, SameFrames;
    forall i: nat | i < |s.pcbs| ensures s'.pcbs[i].ptbr == k.tables[i].ptbr {
      assert Tracks(k.tables[i], s', i, AloneFor(s, i, Turns(s.current, before, i)));
    }
    SwitchCase(k, s', next);
  }

  lemma FaultExtends(k: Kernel, s: System, before: seq<Event>, e: Event)
    requires Ready(k, s) && Schedule(before + [e], |s.pcbs|) && Schedule(before, |s.pcbs|)
    requires PerformAll(s, before).None? && Transparent(k, s, before)
    ensures Transparent(k, s, before + [e])
  {
    hide Step, PlainSteps, Tracks, OnTable, AloneFor, PerformAll, OnThread, Perform, Sound;
    var es := before + [e];
    assert e in es;
    OneMoreEvent(s, before, e);
    var i: nat :| i < |s.pcbs| && AloneFor(s, i, Turns(s.current, before, i)).None?;
    StaysFaulted(s, i, Turns(s.current, before, i), Turns(s.current, es, i));
  }

  lemma StaysFaulted(s: System, i: nat, n: nat, n': nat)
    requires Proper(s) && i < |s.pcbs| && n <= n' <= n + 1 && AloneFor(s, i, n).None?
    ensures AloneFor(s, i, n').None?
  {
    hide PlainStep, CpuOf, Proper;
  }

  lemma {:induction false} EveryScheduleIsTransparent(k: Kernel, s: System, es: seq<Event>)
    requires Ready(k, s) && Schedule(es, |s.pcbs|)
    ensures Transparent(k, s, es)
    decreases |es|
  {
    hide Transparent, Ready;
    if es == [] {
      AtStart(k, s);
    } else {
      var before, e := es[..|es| - 1], es[|es| - 1];
      assert e in es && before + [e] == es;
      EveryScheduleIsTransparent(k, s, before);
      ExtendSchedule(k, s, before, e);
    }
  }

  lemma ExtendSchedule(k: Kernel, s: System, before: seq<Event>, e: Event)
    requires Ready(k, s) && Schedule(before + [e], |s.pcbs|) && Schedule(before, |s.pcbs|)
    requires Transparent(k, s, before)
    ensures Transparent(k, s, before + [e])
  {
    hide Step, PlainStep, Tracks;
    assert (before + [e])[|before|] == e;
    match PerformAll(s, before) {
      case None => FaultExtends(k, s, before, e);
      case Some(s') =>
        match e {
          case Switch(next) => SwitchExtends(k, s, before, s', next);
          case Run => RunExtends(k, s, before, s');
        }
    }
  }

  lemma AloneRefines(k: Kernel, s: System, i: nat, n: nat)
    requires Ready(k, s) && i < |s.pcbs|
    ensures Refines(k.tables[i], Steps(Alone(s, i), n), AloneFor(s, i, n))
  {
    assert k.tables[i] in k.tables;
    FlushedIsCoherent(|s.machine.tlb|, k.tables[i]);
    RunRefines(k.tables[i], Alone(s, i), n);
  }

  /**
    Context-switch transparency, for any number of processes and any schedule.  The
    interleaved run faults exactly if some process faults within its own turns when it
    runs alone; otherwise every process ends with the registers, the program counter,
    the condition code and the frame contents of its own uninterrupted run.
  */
  lemma ContextSwitchTransparency(k: Kernel, s: System, es: seq<Event>)
    requires Ready(k, s) && Schedule(es, |s.pcbs|)
    ensures PerformAll(s, es).None? <==>
      exists i: nat :: i < |s.pcbs| && Steps(Alone(s, i), Turns(s.current, es, i)).None?
    ensures PerformAll(s, es).Some? ==> forall i: nat :: i < |s.pcbs| ==>
      var alone := Steps(Alone(s, i), Turns(s.current, es, i));
      && alone.Some?
      && alone.value.cpu == CpuOf(PerformAll(s, es).value, i)
      && SameFrames(k.tables[i], alone.value.memory, PerformAll(s, es).value.machine.memory)
  {
    hide Step, PlainStep, TableAt, SameFrames, Coherent, OnTable, Alone, AloneFor;
    EveryScheduleIsTransparent(k, s, es);
    forall i: nat | i < |s.pcbs|
      ensures Refines(k.tables[i], Steps(Alone(s, i), Turns(s.current, es, i)), AloneFor(s, i, Turns(s.current, es, i)))
    {
      AloneRefines(k, s, i, Turns(s.current, es, i));
    }
  }

  /** Such systems exist: control blocks for the live tables of a sound allocator, one of them loaded. */
  lemma LoadedIsReady(k: Kernel, m: Machine, pcbs: seq<Pcb>, first: nat)
    requires Sound(k) && m.memory == k.memory && |pcbs| == |k.tables| && first < |pcbs|
    requires forall p | p in pcbs :: |p.snapshot.r| == REGISTERS
    requires forall i :: 0 <= i < |pcbs| ==> pcbs[i].ptbr == k.tables[i].ptbr
    ensures Ready(k, System(Load(m, pcbs[first]), first, pcbs))
  {
    FlushedIsCoherent(|m.tlb|, k.tables[first]);
  }
}
