/**
  The hardware objects: a memory management unit with its TLB array in front of a physical
  memory, a hardware thread with its registers, and process control blocks.  Each method
  is proved to be the step of `Translation`, `Processor` or `Dispatch` that it stands for.
*/
module Hardware {
  import opened Options
  import opened Division
  import opened Words
  import opened PhysicalMemories
  import opened PageTables
  import opened Translation
  import opened Processor
  import opened Dispatch
  import opened Unflushed

  class Mmu {
    const ps: PhysicalMemory
    const tlb: array<Pte>

    ghost predicate Valid()
      reads this
    {
      ps.memory.Length == ADDRESSES && tlb.Length > 0
    }

    ghost function Slots(): Tlb
      requires Valid()
      reads this, tlb
    {
      tlb[..]
    }

    constructor (ps: PhysicalMemory, size: nat)
      requires ps.memory.Length == ADDRESSES && size > 0
      ensures Valid() && this.ps == ps && fresh(tlb) && Slots() == Flushed(size)
    {
      this.ps := ps;
      tlb := new Pte[size](_ => Pte(0, 0, false));
    }

    /** The slot of the page, if it holds that page. */
    method GetMatch(va: uint32) returns (frame: Option<uint32>)
      requires Valid()
      ensures frame == Lookup(Slots(), va)
    {
      LeftOverIsRemainder(PageOf(va), tlb.Length);
      var e := tlb[PageOf(va) % tlb.Length];
      if e.active && FrameBase(e.virt) == FrameBase(va) {
        frame := Some(e.phys);
      } else {
        frame := None;
      }
    }

    method AddEntry(va: uint32, frame: uint32)
      requires Valid()
      modifies tlb
      ensures Slots() == Remember(old(Slots()), va, frame)
    {
      LeftOverIsRemainder(PageOf(va), tlb.Length);
      tlb[PageOf(va) % tlb.Length] := Pte(FrameBase(va), FrameBase(frame), true);
    }

    method Flush()
      requires Valid()
      modifies tlb
      ensures Slots() == Flushed(tlb.Length)
    {
      var i := 0;
      while i < tlb.Length
        invariant 0 <= i <= tlb.Length
        invariant forall j :: 0 <= j < i ==> tlb[j] == Pte(0, 0, false)
      {
        tlb[i] := Pte(0, 0, false);
        i := i + 1;
      }
    }

    /** The page-table walk; `None` is where the source calls `err`. */
    method ResolveFrame(ptbr: uint32, va: uint32) returns (frame: Option<uint32>)
      requires Valid()
      ensures frame == Walk(ps.Words(), ptbr, va)
    {
      var entries := ps.ReadWord(ptbr);
      if PageOf(va) >= entries {
        return None;
      }
      IndexWraps(EntryAddress(ptbr, PageOf(va)));
      var entry := ps.ReadWord(U32(EntryAddress(ptbr, PageOf(va))));
      frame := Some(FrameBase(entry));
    }

    method ResolveAddress(ptbr: uint32, va: uint32) returns (address: Option<uint32>)
      requires Valid()
      modifies tlb
      ensures match Resolve(ps.Words(), ptbr, old(Slots()), va)
        case None => address == None && Slots() == old(Slots())
        case Some(r) => address == Some(r.address) && Slots() == r.tlb
    {
      var frame := GetMatch(va);
      if frame == None {
        frame := ResolveFrame(ptbr, va);
        if frame == None {
          return None;
        }
        AddEntry(va, frame.value);
      }
      address := Some(Glue(frame.value, va));
    }

    /** So many words of virtual memory: the frame count rounds up. */
    method Malloc(words: nat) returns (ptbr: Option<int>)
      requires Valid() && ps.Valid()
      modifies ps.memory, ps.blocks, ps.blocks.repr
      ensures ps.Valid() && fresh(ps.blocks.repr - old(ps.blocks.repr))
      ensures match MallocTable(old(ps.Words()), old(ps.blocks.contents), FramesFor(words))
        case None => ptbr == None
        case Some(n) => ptbr == Some(n.table.ptbr) && ps.Words() == n.memory && ps.blocks.contents == n.free
    {
      hide MallocTable;
      var frames := words * 4 / 256;
      if words * 4 % 256 != 0 {
        frames := frames + 1;
      }
      ptbr := ps.PageTableMalloc(frames);
    }

    method Free(ptbr: uint32) returns (ok: bool)
      requires Valid() && ps.Valid()
      modifies ps.blocks, ps.blocks.repr
      ensures ps.Valid() && fresh(ps.blocks.repr - old(ps.blocks.repr))
      ensures match FreeTable(ps.Words(), old(ps.blocks.contents), ptbr)
        case None => !ok
        case Some(free) => ok && ps.blocks.contents == free
    {
      hide FreeTable;
      ok := ps.PageTableFree(ptbr);
    }
  }

  class Thread {
    var pc: uint32
    var ir: uint32
    var ptbr: uint32
    var cc: int32
    const r: array<int32>
    const mmu: Mmu

    ghost predicate Valid()
      reads this, mmu
    {
      && r.Length == REGISTERS && mmu.Valid()
      && r as object != mmu.tlb && r as object != mmu.ps.memory && mmu.tlb as object != mmu.ps.memory
    }

    ghost function Registers(): Cpu
      requires Valid()
      reads this, r, mmu
    {
      Cpu(pc, ir, cc, r[..])
    }

    /** The machine that the thread is, with the memory it shares. */
    ghost function State(): Machine
      requires Valid()
      reads this, r, mmu, mmu.tlb, mmu.ps.memory
    {
      Machine(mmu.ps.Words(), mmu.Slots(), ptbr, Registers())
    }

    constructor (ps: PhysicalMemory)
      requires ps.memory.Length == ADDRESSES
      ensures Valid() && mmu.ps == ps && fresh(r) && fresh(mmu) && fresh(mmu.tlb)
      ensures State() == Machine(ps.Words(), Flushed(20), 0, Cpu(0, 0, 0, seq(REGISTERS, _ => 0)))
    {
      pc, ir, ptbr, cc := 0, 0, 0, 0;
      r := new int32[REGISTERS](_ => 0);
      mmu := new Mmu(ps, 20);
    }

    /** Fetch, decode, execute; `false` is where the source calls `err` or traps. */
    method ExecuteCurrent() returns (ok: bool)
      requires Valid()
      modifies this, r, mmu.tlb, mmu.ps.memory
      ensures match Step(old(State()))
        case None => !ok
        case Some(s) => ok && State() == s
    {
      var fetched := mmu.ResolveAddress(ptbr, pc);
      if fetched == None {
        return false;
      }
      ir := mmu.ps.ReadWord(fetched.value);
      ok := ExecuteWord(ir);
    }

    method LoadRegister(reg: RegisterNumber, va: uint32) returns (ok: bool)
      requires Valid()
      modifies r, mmu.tlb
      ensures match Finish(old(State()), LoadWord(reg, va, old(Registers())))
        case None => !ok
        case Some(s) => ok && State() == s
    {
      var address := mmu.ResolveAddress(ptbr, va);
      if address == None {
        return false;
      }
      var word := mmu.ps.ReadWord(address.value);
      r[reg] := I32(word);
      ok := true;
    }

    method StoreRegister(reg: RegisterNumber, va: uint32) returns (ok: bool)
      requires Valid()
      modifies mmu.tlb, mmu.ps.memory
      ensures match Finish(old(State()), StoreWord(U32(r[reg]), va, Registers()))
        case None => !ok
        case Some(s) => ok && State() == s
    {
      var address := mmu.ResolveAddress(ptbr, va);
      if address == None {
        return false;
      }
      mmu.ps.WriteWord(address.value, U32(r[reg]));
      ok := true;
    }

    method ExecuteWord(word: uint32) returns (ok: bool)
      requires Valid() && ir == word
      modifies this, r, mmu.tlb, mmu.ps.memory
      ensures match Finish(old(State()), Execute(old(Registers()), word))
        case None => !ok
        case Some(s) => ok && State() == s
    {
      hide Resolve, Alu, Opcode, Register, AddressField, Difference, Taken;
      var op := Opcode(word);
      if op != OP_EXIT {
        pc := U32(pc + 4);
      }
      ok := true;
      if op == OP_LD {
        ok := LoadRegister(Register(word, 6), AddressField(word));
      } else if op == OP_ST {
        ok := StoreRegister(Register(word, 6), AddressField(word));
      } else if op == OP_CMP {
        cc := Difference(r[Register(word, 5)], r[Register(word, 4)]);
      } else if op < OP_CMP {
        var v := Alu(op, r[Register(word, 5)], r[Register(word, 4)]);
        if v == None {
          return false;
        }
        r[Register(word, 6)] := v.value;
      } else if op == OP_EXIT || Taken(op, cc) {
        pc := AddressField(word);
      }
    }

    /** Registers and table base from the control block, as the source loads them: the TLB stays as it is. */
    method DispLoadAsWritten(pcb: ControlBlock)
      requires Valid() && pcb.Valid() && pcb.r as object != r && pcb.r as object != mmu.tlb
      modifies this, r, pcb`status
      ensures State() == LoadAsWritten(old(State()), pcb.Value()) && pcb.status == PR_EXEC
      ensures pcb.Value() == old(pcb.Value())
    {
      ptbr := pcb.ptbr;
      ir := pcb.ir;
      pc := pcb.pc;
      cc := I32(pcb.cc);
      var i := 0;
      while i < REGISTERS
        invariant 0 <= i <= REGISTERS && pcb.r[..] == old(pcb.r[..])
        invariant forall j :: 0 <= j < i ==> r[j] == I32(pcb.r[j])
        modifies r
      {
        r[i] := I32(pcb.r[i]);
        i := i + 1;
      }
      pcb.status := PR_EXEC;
    }

    /** The same, and a flush, which module `Unflushed` shows to be needed. */
    method DispLoad(pcb: ControlBlock)
      requires Valid() && pcb.Valid() && pcb.r as object != r && pcb.r as object != mmu.tlb
      modifies this, r, mmu.tlb, pcb`status
      ensures State() == Load(old(State()), pcb.Value()) && pcb.status == PR_EXEC
      ensures pcb.Value() == old(pcb.Value())
    {
      DispLoadAsWritten(pcb);
      mmu.Flush();
    }

    method DispUnload(pcb: ControlBlock)
      requires Valid() && pcb.Valid() && pcb.r as object != r
      modifies pcb, pcb.r
      ensures pcb.Valid() && pcb.Value() == Pcb(old(pcb.ptbr), Save(Registers())) && pcb.status == PR_FINI
    {
      pcb.ir := ir;
      pcb.pc := pc;
      pcb.cc := U32(cc);
      var i := 0;
      while i < REGISTERS
        invariant 0 <= i <= REGISTERS && r[..] == old(r[..])
        invariant forall j :: 0 <= j < i ==> pcb.r[j] == U32(r[j])
        modifies pcb.r
      {
        pcb.r[i] := U32(r[i]);
        i := i + 1;
      }
      pcb.status := PR_FINI;
    }

    /** Saves the old process, if there is one, and loads the new one. */
    method DispDispatch(oldPcb: ControlBlock?, newPcb: ControlBlock)
      requires Valid() && newPcb.Valid() && Apart(newPcb)
      requires oldPcb != null ==> oldPcb.Valid() && Apart(oldPcb) && (oldPcb != newPcb ==> oldPcb.r != newPcb.r)
      modifies this, r, mmu.tlb, newPcb, newPcb.r, oldPcb, if oldPcb == null then {} else {oldPcb.r}
      ensures oldPcb != null ==> oldPcb.Valid() && oldPcb.Value() == Pcb(old(oldPcb.ptbr), Save(old(Registers())))
      ensures oldPcb != newPcb ==> newPcb.Value() == old(newPcb.Value())
      ensures State() == Load(old(State()), newPcb.Value())
    {
      if oldPcb != null {
        DispUnload(oldPcb);
      }
      DispLoad(newPcb);
    }

    /** The control block's register array is none of the thread's arrays. */
    ghost predicate Apart(pcb: ControlBlock)
      reads this, mmu, pcb
    {
      pcb.r as object != r && pcb.r as object != mmu.tlb && pcb.r as object != mmu.ps.memory
    }
  }

  const PR_UNDEFINED := 0
  const PR_EXEC := 1
  const PR_FINI := 2
  const PR_READY := 3

  class ControlBlock {
    var status: int
    var ptbr: uint32
    var pc: uint32
    var ir: uint32
    var cc: uint32
    const r: array<uint32>

    ghost predicate Valid()
    {
      r.Length == REGISTERS
    }

    ghost function Value(): Pcb
      reads this, r
    {
      Pcb(ptbr, Snapshot(pc, ir, cc, r[..]))
    }

    /** A snapshot that starts at `pc` with everything else zero. */
    constructor (ptbr: uint32, pc: uint32)
      ensures Valid() && fresh(r) && status == PR_UNDEFINED
      ensures Value() == Pcb(ptbr, Snapshot(pc, 0, 0, seq(REGISTERS, _ => 0)))
    {
      status := PR_UNDEFINED;
      this.ptbr, this.pc, ir, cc := ptbr, pc, 0, 0;
      r := new uint32[REGISTERS](_ => 0);
    }
  }
}
