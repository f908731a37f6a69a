/**
  The sixteen-instruction processor as a step function, once with the TLB in front of
  memory and once resolving every address by the page-table walk, and the refinement of
  the second by the first over whole runs.
*/
module Processor {
  import opened Options
  import opened Division
  import opened Words
  import opened FreeBlocks
  import opened PageTables
  import opened Translation

  const REGISTERS := 16

  type RegisterNumber = x: nat | x < REGISTERS

  type Registers = r: seq<int32> | |r| == REGISTERS witness seq(REGISTERS, _ => 0)

  datatype Cpu = Cpu(pc: uint32, ir: uint32, cc: int32, r: Registers)

  const OP_LD := 0
  const OP_ST := 1
  const OP_ADD := 2
  const OP_SUB := 3
  const OP_MUL := 4
  const OP_DIV := 5
  const OP_AND := 6
  const OP_OR := 7
  const OP_XOR := 8
  const OP_MOV := 9
  const OP_CMP := 10
  const OP_B := 11
  const OP_BEQ := 12
  const OP_BGT := 13
  const OP_BLT := 14
  const OP_EXIT := 15

  // ----- fields of an instruction

  /** The word shifted right by `k` nibbles. */
  function Shifted(word: uint32, k: nat): uint32
  {
    if k == 0 then word else Shifted(word, k - 1) / 16
  }

  /** The lowest `n` nibbles. */
  function Lowest(word: uint32, n: nat): (x: uint32)
    ensures x <= word
  {
    if n == 0 then 0 else word % 16 + 16 * Lowest(word / 16, n - 1)
  }

  /** Nibbles `right` to `left` of a word, counted from the least significant. */
  function Nibbles(word: uint32, left: nat, right: nat): uint32
    requires right <= left < 8
  {
    Lowest(Shifted(word, right), left - right + 1)
  }

  /** Nibble `k` alone. */
  function Nibble(word: uint32, k: nat): (x: nat)
    requires k < 8
    ensures x < 16
  {
    OneNibble(word, k);
    Nibbles(word, k, k)
  }

  lemma OneNibble(word: uint32, k: nat)
    requires k < 8
    ensures Nibbles(word, k, k) == Shifted(word, k) % 16
  {
    assert Lowest(Shifted(word, k) / 16, 0) == 0;
  }

  function Opcode(word: uint32): (x: nat)
    ensures x < 16
  {
    Nibble(word, 7)
  }

  /** A register number, in nibble 6, 5 or 4. */
  function Register(word: uint32, nibble: nat): RegisterNumber
    requires nibble < 8
  {
    Nibble(word, nibble)
  }

  function AddressField(word: uint32): uint32
  {
    Nibbles(word, 5, 0)
  }

  /** The address field is the lower twenty-four bits. */
  lemma SixNibblesOf(x: uint32)
    ensures AddressField(x) == U24(x)
  {
    var x1 := x / 16;
    var x2 := x1 / 16;
    var x3 := x2 / 16;
    var x4 := x3 / 16;
    var x5 := x4 / 16;
    assert Lowest(x5, 1) == x5 % 16 && Lowest(x4, 2) == x4 % 16 + 16 * Lowest(x5, 1);
    assert Lowest(x2, 4) == x2 % 16 + 16 * Lowest(x3, 3) && Lowest(x, 6) == x % 16 + 16 * Lowest(x1, 5);
    RemainderSplit(x4, 16);
    RemainderSplit(x3, 0x100);
    RemainderSplit(x2, 0x1000);
    RemainderSplit(x1, 0x1_0000);
    RemainderSplit(x, 0x10_0000);
  }

  // ----- arithmetic

  /** Division rounds towards zero. */
  function TruncatedQuotient(x: int, y: int): int
    requires y != 0
  {
    var q: int := TimesIn(if x < 0 then -x else x, if y < 0 then -y else y);
    if (x < 0) == (y < 0) then q else -q
  }

  /** The processor traps on a zero divisor and on the one quotient that is out of range. */
  predicate Divides(x: int32, y: int32)
  {
    y != 0 && !(x == -0x8000_0000 && y == -1)
  }

  function BitOf(op: nat, p: nat, q: nat): (r: nat)
  {
    if op == OP_AND then (if p == 1 && q == 1 then 1 else 0)
    else if op == OP_OR then (if p == 1 || q == 1 then 1 else 0)
    else if p == q then 0 else 1
  }

  /** AND, OR or XOR of the lowest `n` bits. */
  function Bitwise(op: nat, x: nat, y: nat, n: nat): nat
  {
    if n == 0 then 0 else BitOf(op, x % 2, y % 2) + 2 * Bitwise(op, x / 2, y / 2, n - 1)
  }

  function Alu(op: nat, x: int32, y: int32): Option<int32>
  {
    if op == OP_ADD then Some(I32(x + y))
    else if op == OP_SUB then Some(Difference(x, y))
    else if op == OP_MUL then Some(I32(Product(x, y)))
    else if op == OP_DIV then (if Divides(x, y) then Some(I32(TruncatedQuotient(x, y))) else None)
    else if op == OP_MOV then Some(x)
    else Some(I32(Bitwise(op, U32(x), U32(y), 32)))
  }

  /** What is left is smaller than the divisor and has the sign of `x`. */
  lemma TruncatedQuotientIs(x: int, y: int)
    requires y != 0
    ensures var r := x - TruncatedQuotient(x, y) * y;
      && (if x < 0 then r <= 0 else r >= 0)
      && -(if y < 0 then -y else y) < r < (if y < 0 then -y else y)
  {
    hide TimesIn;
    var a: nat, b: nat := if x < 0 then -x else x, if y < 0 then -y else y;
    TimesInLeaves(a, b);
    ProductSigns(TimesIn(a, b), b);
  }

  // ----- one instruction, up to its memory access

  datatype Effect =
    | Done(cpu: Cpu)
    | LoadWord(reg: RegisterNumber, va: uint32, cpu: Cpu)
    | StoreWord(value: uint32, va: uint32, cpu: Cpu)
    | Trap

  /** The condition code: a 32-bit subtraction that wraps around. */
  function Difference(x: int32, y: int32): int32
  {
    I32(x - y)
  }

  predicate Taken(op: nat, cc: int32)
  {
    op == OP_B || (op == OP_BEQ && cc == 0) || (op == OP_BGT && cc > 0) || (op == OP_BLT && cc < 0)
  }

  /** The instruction `word` on a processor whose IR holds it already. */
  function Execute(cpu: Cpu, word: uint32): Effect
  {
    var op := Opcode(word);
    var next := cpu.(pc := U32(cpu.pc + 4));
    if op == OP_LD then LoadWord(Register(word, 6), AddressField(word), next)
    else if op == OP_ST then StoreWord(U32(cpu.r[Register(word, 6)]), AddressField(word), next)
    else if op == OP_CMP then Done(next.(cc := Difference(cpu.r[Register(word, 5)], cpu.r[Register(word, 4)])))
    else if op < OP_CMP then
      (match Alu(op, cpu.r[Register(word, 5)], cpu.r[Register(word, 4)])
       case None => Trap
       case Some(v) => Done(next.(r := cpu.r[Register(word, 6) := v])))
    else if op == OP_EXIT then Done(cpu.(pc := AddressField(word)))
    else if Taken(op, cpu.cc) then Done(cpu.(pc := AddressField(word)))
    else Done(next)
  }

  // ----- the machine with a TLB

  datatype Machine = Machine(memory: Memory, tlb: Tlb, ptbr: int, cpu: Cpu)

  /** The memory access that an instruction leaves to be made. */
  function Finish(s: Machine, e: Effect): Option<Machine>
  {
    match e
    case Trap => None
    case Done(cpu) => Some(s.(cpu := cpu))
    case LoadWord(reg, va, cpu) =>
      (match Resolve(s.memory, s.ptbr, s.tlb, va)
       case None => None
       case Some(d) => Some(s.(tlb := d.tlb, cpu := cpu.(r := cpu.r[reg := I32(s.memory[Index(d.address)])]))))
    case StoreWord(value, va, cpu) =>
      (match Resolve(s.memory, s.ptbr, s.tlb, va)
       case None => None
       case Some(d) => Some(s.(memory := s.memory[Index(d.address) := value], tlb := d.tlb, cpu := cpu)))
  }

  /** Fetch, execute, and where the instruction asks for it one load or store. */
  function Step(s: Machine): Option<Machine>
  {
    match Resolve(s.memory, s.ptbr, s.tlb, s.cpu.pc)
    case None => None
    case Some(f) =>
      var word := s.memory[Index(f.address)];
      Finish(s.(tlb := f.tlb), Execute(s.cpu.(ir := word), word))
  }

  /** So many steps; a trap or an address outside the table ends the run. */
  function Steps(s: Machine, n: nat): Option<Machine>
  {
    if n == 0 then Some(s) else match Steps(s, n - 1) case None => None case Some(s') => Step(s')
  }

  /** The virtual address that the instruction loads from or stores to, if it does. */
  function DataAddress(e: Effect): Option<uint32>
  {
    match e
    case LoadWord(_, va, _) => Some(va)
    case StoreWord(_, va, _) => Some(va)
    case _ => None
  }

  /** The machine after a fetch, and the data access that the fetched word asks for. */
  datatype Fetch = Fetch(word: uint32, tlb: Tlb, data: Option<uint32>)

  function Fetched(m: Machine): Option<Fetch>
  {
    match Resolve(m.memory, m.ptbr, m.tlb, m.cpu.pc)
    case None => None
    case Some(f) =>
      var word := m.memory[Index(f.address)];
      Some(Fetch(word, f.tlb, DataAddress(Execute(m.cpu.(ir := word), word))))
  }

  // ----- the machine without one

  datatype Plain = Plain(memory: Memory, cpu: Cpu)

  function PlainStep(ptbr: int, s: Plain): Option<Plain>
  {
    match ResolveByWalk(s.memory, ptbr, s.cpu.pc)
    case None => None
    case Some(f) =>
      var word := s.memory[Index(f)];
      match Execute(s.cpu.(ir := word), word)
      case Trap => None
      case Done(cpu) => Some(s.(cpu := cpu))
      case LoadWord(reg, va, cpu) =>
        (match ResolveByWalk(s.memory, ptbr, va)
         case None => None
         case Some(d) => Some(s.(cpu := cpu.(r := cpu.r[reg := I32(s.memory[Index(d)])]))))
      case StoreWord(value, va, cpu) =>
        (match ResolveByWalk(s.memory, ptbr, va)
         case None => None
         case Some(d) => Some(Plain(s.memory[Index(d) := value], cpu)))
  }

  function PlainSteps(ptbr: int, s: Plain, n: nat): Option<Plain>
  {
    if n == 0 then Some(s) else match PlainSteps(ptbr, s, n - 1) case None => None case Some(s') => PlainStep(ptbr, s')
  }

  // ----- isolation

  /** A resolved store goes to a word of one of the table's own frames. */
  lemma StoreStaysInside(m: Memory, t: Table, va: uint32, value: uint32)
    requires TableAt(m, t) && ResolveByWalk(m, t.ptbr, va).Some?
    ensures OnlyFramesOf(t, m, m[Index(ResolveByWalk(m, t.ptbr, va).value) := value])
  {
    WalkOfTable(m, t, va);
    ResolvedAddress(m, t, va);
  }

  lemma PlainStepIsolated(t: Table, s: Plain)
    requires TableAt(s.memory, t) && PlainStep(t.ptbr, s).Some?
    ensures OnlyFramesOf(t, s.memory, PlainStep(t.ptbr, s).value.memory)
    ensures TableAt(PlainStep(t.ptbr, s).value.memory, t)
  {
    var word := s.memory[Index(ResolveByWalk(s.memory, t.ptbr, s.cpu.pc).value)];
    match Execute(s.cpu.(ir := word), word) {
      case StoreWord(value, va, cpu) => StoreStaysInside(s.memory, t, va, value);
      case _ =>
    }
    StoresKeepTables(t, t, s.memory, PlainStep(t.ptbr, s).value.memory);
  }

  // ----- refinement

  ghost predicate Refines(t: Table, s: Option<Machine>, p: Option<Plain>)
  {
    match (s, p)
    case (None, None) => true
    case (Some(a), Some(b)) =>
      a.memory == b.memory && a.cpu == b.cpu && a.ptbr == t.ptbr && TableAt(a.memory, t) && Coherent(a.tlb, t)
    case _ => false
  }

  lemma StepRefines(t: Table, s: Machine)
    requires TableAt(s.memory, t) && Coherent(s.tlb, t) && s.ptbr == t.ptbr
    ensures Refines(t, Step(s), PlainStep(t.ptbr, Plain(s.memory, s.cpu)))
  {
    ResolveIsWalk(s.memory, t, s.tlb, s.cpu.pc);
    match Resolve(s.memory, s.ptbr, s.tlb, s.cpu.pc) {
      case None =>
      case Some(f) =>
        var word := s.memory[Index(f.address)];
        match Execute(s.cpu.(ir := word), word) {
          case LoadWord(reg, va, cpu) => ResolveIsWalk(s.memory, t, f.tlb, va);
          case StoreWord(value, va, cpu) => ResolveIsWalk(s.memory, t, f.tlb, va);
          case _ =>
        }
    }
    if PlainStep(t.ptbr, Plain(s.memory, s.cpu)).Some? {
      PlainStepIsolated(t, Plain(s.memory, s.cpu));
    }
  }

  /**
    From a coherent TLB, a flushed one for instance, every run of the machine with the TLB
    has the same registers, the same memory and the same end as the run that walks the
    page table for every address.
  */
  lemma {:induction false} RunRefines(t: Table, s: Machine, n: nat)
    requires TableAt(s.memory, t) && Coherent(s.tlb, t) && s.ptbr == t.ptbr
    ensures Refines(t, Steps(s, n), PlainSteps(t.ptbr, Plain(s.memory, s.cpu), n))
  {
    hide Step, PlainStep;
    if n > 0 {
      RunRefines(t, s, n - 1);
      match Steps(s, n - 1) {
        case None =>
        case Some(s') => StepRefines(t, s');
      }
    }
  }

  /** No run of a process changes a word outside the frames of its own table. */
  lemma {:induction false} RunIsolated(t: Table, s: Machine, n: nat)
    requires TableAt(s.memory, t) && Coherent(s.tlb, t) && s.ptbr == t.ptbr && Steps(s, n).Some?
    ensures OnlyFramesOf(t, s.memory, Steps(s, n).value.memory)
  {
    hide Step, PlainStep;
    if n > 0 {
      RunIsolated(t, s, n - 1);
      RunRefines(t, s, n - 1);
      var s' := Steps(s, n - 1).value;
      StepRefines(t, s');
      PlainStepIsolated(t, Plain(s'.memory, s'.cpu));
    }
  }

  /** So a process running on a live table is one of the user steps that keep the allocator sound. */
  lemma RunIsUserStep(k: Kernel, i: nat, s: Machine, n: nat)
    requires Sound(k) && i < |k.tables| && s.memory == k.memory && s.ptbr == k.tables[i].ptbr
    requires Coherent(s.tlb, k.tables[i]) && Steps(s, n).Some?
    ensures UserStep(k, k.(memory := Steps(s, n).value.memory), i)
    ensures Sound(k.(memory := Steps(s, n).value.memory))
  {
    assert k.tables[i] in k.tables;
    RunIsolated(k.tables[i], s, n);
    UserSound(k, k.(memory := Steps(s, n).value.memory), i);
  }

  // ----- compare and branch

  /**
    After a comparison exactly one of the three conditions holds: equality for equal operands,
    and the other two in the signed order if and only if the difference fits 32 bits.
  */
  lemma CompareAndBranch(x: int32, y: int32)
    ensures var cc := Difference(x, y);
      && Bit(Taken(OP_BEQ, cc)) + Bit(Taken(OP_BGT, cc)) + Bit(Taken(OP_BLT, cc)) == 1
      && (Taken(OP_BEQ, cc) <==> x == y)
      && ((Taken(OP_BGT, cc) <==> x > y) && (Taken(OP_BLT, cc) <==> x < y) <==> -0x8000_0000 <= x - y < 0x8000_0000)
  {
  }

  /** What a branch after a comparison of `x` and `y` depends on. */
  predicate Branches(op: nat, x: int32, y: int32)
  {
    var fits := -0x8000_0000 <= x - y < 0x8000_0000;
    || op == OP_B || (op == OP_BEQ && x == y)
    || (op == OP_BGT && (if fits then x > y else x < y))
    || (op == OP_BLT && (if fits then x < y else x > y))
  }

  /**
    Two steps of the machine, a CMP and a branch: the branch goes to its address if and only
    if the compared registers are in the order it asks for, the signed one if their difference
    fits 32 bits and the opposite one otherwise.  Nothing else but IR, CC and the TLB changes.
  */
  lemma CompareThenBranch(s: Machine)
    requires Fetched(s).Some? && Opcode(Fetched(s).value.word) == OP_CMP && Step(s).Some?
    requires var s1 := Step(s).value;
      Fetched(s1).Some? && OP_B <= Opcode(Fetched(s1).value.word) <= OP_BLT && Step(s1).Some?
    ensures var w, s1 := Fetched(s).value.word, Step(s).value;
      var v, s2 := Fetched(s1).value.word, Step(s1).value;
      && s2.memory == s.memory && s2.ptbr == s.ptbr && s2.cpu.r == s.cpu.r
      && s2.cpu.pc ==
           if Branches(Opcode(v), s.cpu.r[Register(w, 5)], s.cpu.r[Register(w, 4)]) then AddressField(v)
           else U32(U32(s.cpu.pc + 4) + 4)
  {
    hide Resolve, Opcode, Register, AddressField, Alu, Difference, Taken;
    var w, s1 := Fetched(s).value.word, Step(s).value;
    var x, y := s.cpu.r[Register(w, 5)], s.cpu.r[Register(w, 4)];
    BranchTaken(Opcode(Fetched(s1).value.word), x, y);
  }

  lemma BranchTaken(op: nat, x: int32, y: int32)
    requires OP_B <= op <= OP_BLT
    ensures Taken(op, Difference(x, y)) <==> Branches(op, x, y)
  {
    CompareAndBranch(x, y);
  }
}
