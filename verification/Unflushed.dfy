/**
  The dispatcher as the source writes it: loading a process leaves the TLB alone.  Slots
  then belong to several tables, and a slot may answer for a process that did not fill it.
  The module says exactly which accesses go wrong, what holds in spite of them, and that
  runs without such an access are those of the dispatcher that flushes.
*/
module Unflushed {
  import opened Options
  import opened Words
  import opened FreeBlocks
  import opened PageTables
  import opened Translation
  import opened Processor
  import opened Dispatch

  // ----- one instruction

  /** Both accesses of the step miss the TLB or meet slots that process `j` filled itself. */
  ghost predicate StepMine(m: Machine, owner: Owners, j: nat)
  {
    && Mine(m.tlb, owner, j, m.cpu.pc)
    && match Fetched(m)
       case None => true
       case Some(f) => f.data.Some? ==> Mine(f.tlb, OwnersAfter(m.tlb, owner, j, m.cpu.pc), j, f.data.value)
  }

  /** Both accesses of the step get what the walk of the process's table gives. */
  ghost predicate StepRight(m: Machine)
  {
    && ResolvesRight(m.memory, m.ptbr, m.tlb, m.cpu.pc)
    && match Fetched(m)
       case None => true
       case Some(f) => f.data.Some? ==> ResolvesRight(m.memory, m.ptbr, f.tlb, f.data.value)
  }

  ghost function StepOwners(m: Machine, owner: Owners, j: nat): Owners
  {
    var after := OwnersAfter(m.tlb, owner, j, m.cpu.pc);
    match Fetched(m)
    case None => owner
    case Some(f) => if f.data.Some? then OwnersAfter(f.tlb, after, j, f.data.value) else after
  }

  /** Process `j` is on a machine whose TLB the live tables have filled. */
  ghost predicate OnMachine(k: Kernel, m: Machine, owner: Owners, j: nat)
  {
    Sound(k) && j < |k.tables| && m.memory == k.memory && m.ptbr == k.tables[j].ptbr && Owned(k.tables, m.tlb, owner)
  }

  lemma FetchKeepsOwners(k: Kernel, m: Machine, owner: Owners, j: nat)
    requires OnMachine(k, m, owner, j) && Fetched(m).Some?
    ensures Owned(k.tables, Fetched(m).value.tlb, OwnersAfter(m.tlb, owner, j, m.cpu.pc))
  {
    hide Sound, Resolve, Owned, OwnersAfter, Execute;
    AccessKeepsOwners(k, j, m.tlb, owner, m.cpu.pc);
  }

  /** A step goes right if and only if it meets no slot of somebody else. */
  lemma StepRightExactly(k: Kernel, m: Machine, owner: Owners, j: nat)
    requires OnMachine(k, m, owner, j)
    ensures StepRight(m) <==> StepMine(m, owner, j)
  {
    hide Sound, Owned, ResolvesRight, Mine, OwnersAfter, Fetched;
    AccessRightExactly(k, j, m.tlb, owner, m.cpu.pc);
    if Fetched(m).Some? {
      FetchKeepsOwners(k, m, owner, j);
      var f := Fetched(m).value;
      if f.data.Some? {
        AccessRightExactly(k, j, f.tlb, OwnersAfter(m.tlb, owner, j, m.cpu.pc), f.data.value);
      }
    }
  }

  /** A step that goes right is the step that walks the table. */
  lemma RightStepIsPlain(m: Machine)
    requires StepRight(m)
    ensures match (Step(m), PlainStep(m.ptbr, Plain(m.memory, m.cpu)))
      case (None, None) => true
      case (Some(m'), Some(p)) => m'.memory == p.memory && m'.cpu == p.cpu && m'.ptbr == m.ptbr
      case _ => false
  {
    hide Resolve, ResolveByWalk, Execute, Index;
  }

  /** What a store through a slot hits is a frame of the slot's owner. */
  lemma StepInSomeFrame(k: Kernel, m: Machine, owner: Owners, j: nat) returns (i: nat)
    requires OnMachine(k, m, owner, j) && Step(m).Some?
    ensures i < |k.tables| && OnlyFramesOf(k.tables[i], m.memory, Step(m).value.memory)
  {
    hide Sound, Resolve, ResolveByWalk, Owned, OwnersAfter, Execute, OnlyFramesOf, Index, TableAt;
    i := j;
    FetchKeepsOwners(k, m, owner, j);
    var f := Fetched(m).value;
    var e := Execute(m.cpu.(ir := f.word), f.word);
    if e.StoreWord? {
      var after := OwnersAfter(m.tlb, owner, j, m.cpu.pc);
      AccessKeepsOwners(k, j, f.tlb, after, e.va);
      i := OwnersAfter(f.tlb, after, j, e.va)(Slot(e.va, |f.tlb|));
      LiveAt(k, i);
      StoreStaysInside(k.memory, k.tables[i], e.va, e.value);
    } else {
      NoStore(m, f.word);
      OnlyItself(k.tables[i], m.memory);
    }
  }

  lemma LiveAt(k: Kernel, i: nat)
    requires Sound(k) && i < |k.tables|
    ensures TableAt(k.memory, k.tables[i])
  {
    assert k.tables[i] in k.tables;
  }

  lemma NoStore(m: Machine, word: uint32)
    requires Step(m).Some? && Fetched(m).Some? && Fetched(m).value.word == word
    requires !Execute(m.cpu.(ir := word), word).StoreWord?
    ensures Step(m).value.memory == m.memory
  {
    hide Resolve, Execute;
  }

  lemma OnlyItself(t: Table, m: Memory)
    ensures OnlyFramesOf(t, m, m)
  {
  }

  /** Right or wrong, a step harms no page table and no free block, and every slot keeps an owner. */
  lemma StepStaysOnMachine(k: Kernel, m: Machine, owner: Owners, j: nat)
    requires OnMachine(k, m, owner, j) && Step(m).Some?
    ensures OnMachine(k.(memory := Step(m).value.memory), Step(m).value, StepOwners(m, owner, j), j)
  {
    hide Sound, Resolve, ResolveByWalk, Owned, OwnersAfter, Execute, Index;
    var i := StepInSomeFrame(k, m, owner, j);
    UserSound(k, k.(memory := Step(m).value.memory), i);
    FetchKeepsOwners(k, m, owner, j);
    var f := Fetched(m).value;
    if f.data.Some? {
      AccessKeepsOwners(k, j, f.tlb, OwnersAfter(m.tlb, owner, j, m.cpu.pc), f.data.value);
    }
  }

  // ----- whole runs

  function LoadAsWritten(m: Machine, p: Pcb): Machine
    requires |p.snapshot.r| == REGISTERS
  {
    m.(ptbr := p.ptbr, cpu := Restore(p.snapshot))
  }

  /** The system, and who filled which slot. */
  datatype Traced = Traced(system: System, owner: Owners)

  ghost function PerformAsWritten(t: Traced, e: Event): (r: Option<Traced>)
    requires Proper(t.system) && (e.Switch? ==> e.next < |t.system.pcbs|)
    ensures r.Some? ==> Proper(r.value.system) && |r.value.system.pcbs| == |t.system.pcbs|
  {
    var s := t.system;
    match e
    case Run =>
      (match Step(s.machine)
       case None => None
       case Some(m) => Some(Traced(s.(machine := m), StepOwners(s.machine, t.owner, s.current))))
    case Switch(next) =>
      var pcbs := Unload(s);
      Some(Traced(System(LoadAsWritten(s.machine, pcbs[next]), next, pcbs), t.owner))
  }

  /** The process on the thread has filled every slot there is. */
  ghost function Started(s: System): Traced
  {
    Traced(s, _ => s.current)
  }

  /** The events in order. */
  ghost function RunAsWritten(s: System, es: seq<Event>): (r: Option<Traced>)
    requires Proper(s) && Schedule(es, |s.pcbs|)
    ensures r.Some? ==> Proper(r.value.system) && |r.value.system.pcbs| == |s.pcbs|
    decreases |es|
  {
    if es == [] then Some(Started(s))
    else
      assert es[|es| - 1] in es;
      match RunAsWritten(s, es[..|es| - 1])
      case None => None
      case Some(t) => PerformAsWritten(t, es[|es| - 1])
  }

  /** In every instruction of the run both accesses are right. */
  ghost predicate AllRight(s: System, es: seq<Event>)
    requires Proper(s) && Schedule(es, |s.pcbs|)
    decreases |es|
  {
    es == [] ||
    var before := es[..|es| - 1];
    && AllRight(s, before)
    && match RunAsWritten(s, before)
       case None => true
       case Some(t) => es[|es| - 1].Run? ==> StepRight(t.system.machine)
  }

  /** No instruction of the run meets a slot that another process filled. */
  ghost predicate AllMine(s: System, es: seq<Event>)
    requires Proper(s) && Schedule(es, |s.pcbs|)
    decreases |es|
  {
    es == [] ||
    var before := es[..|es| - 1];
    && AllMine(s, before)
    && match RunAsWritten(s, before)
       case None => true
       case Some(t) => es[|es| - 1].Run? ==> StepMine(t.system.machine, t.owner, t.system.current)
  }

  /** Processes own the live tables of an allocator that is sound with the present memory. */
  ghost predicate Held(k: Kernel, t: Traced)
  {
    var s := t.system;
    && Proper(s) && |s.pcbs| == |k.tables|
    && (forall i :: 0 <= i < |s.pcbs| ==> s.pcbs[i].ptbr == k.tables[i].ptbr)
    && OnMachine(k.(memory := s.machine.memory), s.machine, t.owner, s.current)
  }

  lemma StartHeld(k: Kernel, s: System)
    requires Ready(k, s)
    ensures Held(k, Started(s))
  {
    hide Sound;
    assert k.(memory := s.machine.memory) == k;
  }

  lemma EventKeepsHeld(k: Kernel, t: Traced, e: Event)
    requires Held(k, t) && (e.Switch? ==> e.next < |t.system.pcbs|)
    ensures match PerformAsWritten(t, e) case None => true case Some(t') => Held(k, t')
  {
    hide Sound, Step, Owned, StepOwners;
    var s := t.system;
    match e {
      case Switch(next) =>
      case Run =>
        if Step(s.machine).Some? {
          StepStaysOnMachine(k.(memory := s.machine.memory), s.machine, t.owner, s.current);
          assert k.(memory := s.machine.memory).(memory := Step(s.machine).value.memory)
              == k.(memory := Step(s.machine).value.memory);
        }
    }
  }

  /**
    Even without a flush, in every state of every schedule: stale slots lead into frames of
    other processes but never into a page table, so the allocator stays sound, and every
    active slot gives the frame that the table of its owner lists.
  */
  lemma {:induction false} EveryUnflushedRunIsSound(k: Kernel, s: System, es: seq<Event>)
    requires Ready(k, s) && Schedule(es, |s.pcbs|)
    ensures match RunAsWritten(s, es) case None => true case Some(t) => Held(k, t)
    decreases |es|
  {
    hide Sound, OnTable, Held, PerformAsWritten;
    if es == [] {
      StartHeld(k, s);
    } else {
      var before, e := es[..|es| - 1], es[|es| - 1];
      assert e in es;
      EveryUnflushedRunIsSound(k, s, before);
      match RunAsWritten(s, before) {
        case None =>
        case Some(t) => EventKeepsHeld(k, t, e);
      }
    }
  }

  /** All accesses of a run are right if and only if none meets a slot that another process filled. */
  lemma {:induction false} UnflushedRunRightExactly(k: Kernel, s: System, es: seq<Event>)
    requires Ready(k, s) && Schedule(es, |s.pcbs|)
    ensures AllRight(s, es) <==> AllMine(s, es)
    decreases |es|
  {
    hide Sound, OnTable, StepRight, StepMine, PerformAsWritten;
    if es != [] {
      var before, e := es[..|es| - 1], es[|es| - 1];
      assert e in es;
      UnflushedRunRightExactly(k, s, before);
      EveryUnflushedRunIsSound(k, s, before);
      match RunAsWritten(s, before) {
        case None =>
        case Some(t) =>
          StepRightExactly(k.(memory := t.system.machine.memory), t.system.machine, t.owner, t.system.current);
      }
    }
  }

  // ----- runs in which nothing goes wrong

  /** The same but for what the TLB remembers. */
  ghost predicate SameButTlb(a: Option<Traced>, b: Option<System>)
  {
    match (a, b)
    case (None, None) => true
    case (Some(t), Some(s)) =>
      && t.system.current == s.current && t.system.pcbs == s.pcbs
      && t.system.machine == s.machine.(tlb := t.system.machine.tlb)
      && |t.system.machine.tlb| == |s.machine.tlb|
    case _ => false
  }

  /** The same instruction on the two systems. */
  lemma RunBoth(k: Kernel, t: Traced, s: System)
    requires Held(k, t) && Proper(s) && OnTable(k, s) && SameButTlb(Some(t), Some(s))
    requires StepMine(t.system.machine, t.owner, t.system.current)
    ensures SameButTlb(PerformAsWritten(t, Run), Perform(s, Run))
  {
    hide Sound, Step, PlainStep, TableAt, Coherent, Owned, StepRight, StepMine, StepOwners;
    var m, j := t.system.machine, s.current;
    var here := k.(memory := m.memory);
    StepRightExactly(here, m, t.owner, j);
    RightStepIsPlain(m);
    LiveAt(here, j);
    StepRefines(k.tables[j], s.machine);
    if Step(m).Some? {
      StepKeepsSize(m);
      StepKeepsSize(s.machine);
    }
  }

  lemma StepKeepsSize(m: Machine)
    requires Step(m).Some?
    ensures |Step(m).value.tlb| == |m.tlb|
  {
    hide ResolveByWalk, Execute;
  }

  lemma SwitchBoth(t: Traced, s: System, next: nat)
    requires Proper(t.system) && Proper(s) && next < |s.pcbs| && SameButTlb(Some(t), Some(s))
    ensures SameButTlb(PerformAsWritten(t, Switch(next)), Perform(s, Switch(next)))
  {
    hide Save, Restore;
  }

  /** Without such an access, a run without flushes is the run with them. */
  lemma {:induction false} MineRunIsFlushed(k: Kernel, s: System, es: seq<Event>)
    requires Ready(k, s) && Schedule(es, |s.pcbs|) && AllMine(s, es)
    ensures SameButTlb(RunAsWritten(s, es), PerformAll(s, es))
    decreases |es|
  {
    hide Sound, OnTable, StepMine, PerformAsWritten, Perform, Held;
    if es != [] {
      var before, e := es[..|es| - 1], es[|es| - 1];
      assert e in es;
      MineRunIsFlushed(k, s, before);
      EveryUnflushedRunIsSound(k, s, before);
      EveryScheduleIsTransparent(k, s, before);
      match (RunAsWritten(s, before), PerformAll(s, before)) {
        case (Some(t), Some(s')) =>
          if e == Run {
            RunBoth(k, t, s');
          } else {
            SwitchBoth(t, s', e.next);
          }
        case _ =>
      }
    }
  }

  /**
    The dispatcher as written is transparent for every schedule in which no process meets a
    slot that another one filled: faults, registers and frames are those of the runs alone.
  */
  lemma UnflushedTransparency(k: Kernel, s: System, es: seq<Event>)
    requires Ready(k, s) && Schedule(es, |s.pcbs|) && AllMine(s, es)
    ensures RunAsWritten(s, es).None? <==>
      exists i: nat :: i < |s.pcbs| && Steps(Alone(s, i), Turns(s.current, es, i)).None?
    ensures RunAsWritten(s, es).Some? ==> forall i: nat :: i < |s.pcbs| ==>
      var alone := Steps(Alone(s, i), Turns(s.current, es, i));
      && alone.Some?
      && alone.value.cpu == CpuOf(RunAsWritten(s, es).value.system, i)
      && SameFrames(k.tables[i], alone.value.memory, RunAsWritten(s, es).value.system.machine.memory)
  {
    hide Ready, Steps, Alone, Turns, Restore, SameFrames, PerformAll, RunAsWritten;
    MineRunIsFlushed(k, s, es);
    ContextSwitchTransparency(k, s, es);
  }

  /** An instruction without a data access leaves the slot of its own page behind. */
  lemma FetchFillsSlot(m: Machine, va: uint32)
    requires Step(m).Some? && Fetched(m).value.data == None && PageOf(va) == PageOf(m.cpu.pc)
    ensures Lookup(Step(m).value.tlb, va).Some?
  {
  }

  /**
    A family of runs that do go wrong: a process executes an instruction that neither loads
    nor stores, another one is loaded whose program counter is in the same page, and its
    first fetch is wrong, whatever the tables hold.
  */
  lemma SamePageGoesWrong(k: Kernel, s: System, next: nat)
    requires Ready(k, s) && next < |s.pcbs| && next != s.current
    requires Step(s.machine).Some? && Fetched(s.machine).value.data == None
    requires PageOf(CpuOf(s, next).pc) == PageOf(s.machine.cpu.pc)
    ensures Schedule([Run, Switch(next)], |s.pcbs|)
    ensures match RunAsWritten(s, [Run, Switch(next)])
      case None => false
      case Some(t) => t.system.current == next && !StepRight(t.system.machine)
  {
    hide Sound, Step, Execute, Lookup, OwnersAfter, Owned, Coherent;
    var first := Started(s);
    var es := [Run, Switch(next)];
    assert es[..1] == [Run] && [Run][..0] == [];
    StartHeld(k, s);
    EventKeepsHeld(k, first, Run);
    var t := PerformAsWritten(first, Run).value;
    EventKeepsHeld(k, t, Switch(next));
    var u := PerformAsWritten(t, Switch(next)).value;
    var pc := CpuOf(s, next).pc;
    assert RunAsWritten(s, [Run]) == Some(t) && RunAsWritten(s, es) == Some(u);
    assert u.system.machine.cpu.pc == pc && u.system.machine.tlb == t.system.machine.tlb;
    OnlyOwner(s, Slot(pc, |u.system.machine.tlb|));
    FetchFillsSlot(s.machine, pc);
    ForeignHitIsWrong(k, u);
  }

  lemma OnlyOwner(s: System, slot: nat)
    requires Step(s.machine).Some? && Fetched(s.machine).value.data == None
    ensures StepOwners(s.machine, Started(s).owner, s.current)(slot) == s.current
  {
    hide Resolve, Execute, Lookup;
  }

  /** A fetch that meets a slot of somebody else. */
  lemma ForeignHitIsWrong(k: Kernel, t: Traced)
    requires Held(k, t)
    requires var m := t.system.machine;
      Lookup(m.tlb, m.cpu.pc).Some? && t.owner(Slot(m.cpu.pc, |m.tlb|)) != t.system.current
    ensures !StepRight(t.system.machine)
  {
    var m := t.system.machine;
    AccessRightExactly(k.(memory := m.memory), t.system.current, m.tlb, t.owner, m.cpu.pc);
  }
}
