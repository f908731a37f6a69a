/**
  What each instruction of the processor does, stated over steps of the machine without the
  functions that compute it: opcode, registers and address are the digits that make up the
  fetched word, results are congruences, remainders and machine operators.
*/
module Instructions {
  import opened Options
  import opened Division
  import opened Words
  import opened PageTables
  import opened Translation
  import opened Processor
  import opened Logic

  // ----- the fields of a word

  /** The word is an opcode, a target register, two source registers and a rest. */
  predicate OnRegisters(w: uint32, op: nat, d: nat, a: nat, b: nat)
  {
    && d < 16 && a < 16 && b < 16
    && 0 <= w - (op * 0x1000_0000 + d * 0x100_0000 + a * 0x10_0000 + b * 0x1_0000) < 0x1_0000
  }

  /** The word is an opcode, a register and an address. */
  predicate OnAddress(w: uint32, op: nat, d: nat, va: uint32)
  {
    d < 16 && va < 0x100_0000 && w == op * 0x1000_0000 + d * 0x100_0000 + va
  }

  /** Every word is both, in one way only. */
  lemma EveryWordDecodes(w: uint32) returns (op: nat, d: nat, a: nat, b: nat, va: uint32)
    ensures op < 16 && OnRegisters(w, op, d, a, b) && OnAddress(w, op, d, va)
  {
    op, d, va := w / 0x1000_0000, w / 0x100_0000 % 16, w % 0x100_0000;
    a, b := va / 0x10_0000, va / 0x1_0000 % 16;
  }

  lemma FourNibbles(w: uint32, x: uint32)
    requires 0 <= w - 0x1_0000 * x < 0x1_0000
    ensures Shifted(w, 4) == x
  {
    TwoShifts(w, 0);
    TwoShifts(w, 2);
  }

  lemma TwoShifts(w: uint32, k: nat)
    ensures Shifted(w, k + 2) == Shifted(w, k) / 16 / 16 && Shifted(w, 0) == w
  {
    assert Shifted(w, k + 1) == Shifted(w, k) / 16;
  }

  lemma RegisterFields(w: uint32, op: nat, d: nat, a: nat, b: nat)
    requires OnRegisters(w, op, d, a, b)
    ensures op < 16 && Opcode(w) == op && Register(w, 6) == d && Register(w, 5) == a && Register(w, 4) == b
  {
    hide Nibbles;
    FourNibbles(w, op * 0x1000 + d * 0x100 + a * 0x10 + b);
    assert Shifted(w, 5) == op * 0x100 + d * 0x10 + a;
    assert Shifted(w, 6) == op * 0x10 + d;
    assert Shifted(w, 7) == op;
    OneNibble(w, 7);
    OneNibble(w, 6);
    OneNibble(w, 5);
    OneNibble(w, 4);
  }

  lemma AddressFields(w: uint32, op: nat, d: nat, va: uint32)
    requires OnAddress(w, op, d, va)
    ensures op < 16 && Opcode(w) == op && Register(w, 6) == d && AddressField(w) == va
  {
    hide Opcode, Register, AddressField, OnRegisters;
    var a, b := RegistersOfAddress(w, op, d, va);
    RegisterFields(w, op, d, a, b);
    SixNibblesOf(w);
    LowDigits(w, 0x10 * op + d, va);
  }

  lemma LowDigits(w: uint32, high: nat, va: uint32)
    requires va < 0x100_0000 && w == high * 0x100_0000 + va
    ensures U24(w) == va
  {
  }

  lemma RegistersOfAddress(w: uint32, op: nat, d: nat, va: uint32) returns (a: nat, b: nat)
    requires OnAddress(w, op, d, va)
    ensures OnRegisters(w, op, d, a, b)
  {
    a, b := va / 0x10_0000, va / 0x1_0000 % 16;
  }

  lemma SignedReading(x: int, v: int)
    requires v == I32(x)
    ensures (v - x) % 0x1_0000_0000 == 0
  {
  }

  // ----- instructions that leave memory alone

  /** The next word to be executed is `w`. */
  ghost predicate Fetches(s: Machine, w: uint32)
  {
    Fetched(s).Some? && Fetched(s).value.word == w
  }

  /** The step of `w` ends with these PC and CC and with `v` in register `d`; else only IR and the TLB change. */
  ghost predicate Leaves(s: Machine, w: uint32, pc: int, cc: int, d: nat, v: int)
  {
    match Step(s)
    case None => false
    case Some(s') =>
      && s'.memory == s.memory && s'.ptbr == s.ptbr && |s'.tlb| == |s.tlb|
      && s'.cpu.pc == pc && s'.cpu.ir == w && s'.cpu.cc == cc
      && forall i: nat :: i < 16 ==> s'.cpu.r[i] == if i == d then v else s.cpu.r[i]
  }

  function NextPc(s: Machine): (pc: uint32)
    ensures pc == U32(s.cpu.pc + 4)
  {
    (s.cpu.pc + 4) % 0x1_0000_0000
  }

  lemma FetchKeepsSize(s: Machine)
    requires Fetched(s).Some?
    ensures |Fetched(s).value.tlb| == |s.tlb|
  {
    hide Walk, Lookup, Execute;
  }

  /** An instruction that leaves a value in a register is a step that does. */
  lemma StepOfResult(s: Machine, w: uint32, d: nat, a: nat, b: nat, op: nat)
    requires Fetches(s, w) && OnRegisters(w, op, d, a, b) && 2 <= op <= 9
    ensures match Alu(op, s.cpu.r[a], s.cpu.r[b])
      case None => Step(s) == None
      case Some(v) => Leaves(s, w, NextPc(s), s.cpu.cc, d, v)
  {
    hide Resolve, Opcode, Register, AddressField, Alu, U32, NextPc;
    RegisterFields(w, op, d, a, b);
    FetchKeepsSize(s);
  }

  /** Addition, subtraction and multiplication, opcodes 2 to 4: what they leave is congruent to the exact result. */
  lemma Arithmetic(s: Machine, w: uint32, op: nat, d: nat, a: nat, b: nat) returns (v: int)
    requires Fetches(s, w) && OnRegisters(w, op, d, a, b) && 2 <= op <= 4
    ensures Leaves(s, w, NextPc(s), s.cpu.cc, d, v)
    ensures var x: int, y: int := s.cpu.r[a], s.cpu.r[b];
      var exact := if op == 2 then x + y else if op == 3 then x - y else x * y;
      (v - exact) % 0x1_0000_0000 == 0
  {
    hide Leaves, I32, Product;
    StepOfResult(s, w, d, a, b, op);
    var x: int, y: int := s.cpu.r[a], s.cpu.r[b];
    ProductIsTimes(x, y);
    var exact := if op == 2 then x + y else if op == 3 then x - y else x * y;
    v := I32(exact);
    SignedReading(exact, v);
  }

  lemma {:induction false} TimesInBound(x: nat, y: nat)
    requires y > 0
    ensures TimesIn(x, y) <= x && (y > 1 && x > 0 ==> TimesIn(x, y) < x)
    decreases x
  {
    if x >= y {
      TimesInBound(x - y, y);
    }
  }

  /** The quotient of two registers is a register value, but for the one exception. */
  lemma QuotientFits(x: int, y: int)
    requires -0x8000_0000 <= x < 0x8000_0000 && -0x8000_0000 <= y < 0x8000_0000 && Divides(x, y)
    ensures I32(TruncatedQuotient(x, y)) == TruncatedQuotient(x, y)
  {
    hide TimesIn;
    TimesInBound(if x < 0 then -x else x, if y < 0 then -y else y);
  }

  /**
    Division, opcode 5, traps on a zero divisor and on the one quotient out of range, and on
    nothing else; otherwise it leaves the quotient, rounded towards zero.
  */
  lemma Dividing(s: Machine, w: uint32, d: nat, a: nat, b: nat) returns (v: int)
    requires Fetches(s, w) && OnRegisters(w, 5, d, a, b)
    ensures var x: int, y: int := s.cpu.r[a], s.cpu.r[b];
      if y == 0 || (x == -0x8000_0000 && y == -1) then Step(s) == None
      else
        && Leaves(s, w, NextPc(s), s.cpu.cc, d, v)
        && (if x < 0 then x <= v * y else v * y <= x)
        && -(if y < 0 then -y else y) < x - v * y < (if y < 0 then -y else y)
  {
    hide Leaves, I32, TruncatedQuotient;
    StepOfResult(s, w, d, a, b, 5);
    var x, y := s.cpu.r[a], s.cpu.r[b];
    v := 0;
    if Divides(x, y) {
      QuotientFits(x, y);
      TruncatedQuotientIs(x, y);
      v := TruncatedQuotient(x, y);
    }
  }

  /** The operators of AND, OR and XOR. */
  function Operator(op: nat, x: bv32, y: bv32): bv32
  {
    if op == 6 then x & y else if op == 7 then x | y else x ^ y
  }

  lemma OperatorIsOperated(op: nat, x: bv32, y: bv32)
    requires 6 <= op <= 8
    ensures Operator(op, x, y) == Operated(op, x, y)
  {
    hide Operator, And, Or, Xor;
    OperatorAnd(x, y);
    OperatorOr(x, y);
    OperatorXor(x, y);
  }

  lemma OperatorAnd(x: bv32, y: bv32)
    ensures Operator(6, x, y) == And(x, y)
  {
  }

  lemma OperatorOr(x: bv32, y: bv32)
    ensures Operator(7, x, y) == Or(x, y)
  {
  }

  lemma OperatorXor(x: bv32, y: bv32)
    ensures Operator(8, x, y) == Xor(x, y)
  {
  }

  /** AND, OR and XOR, opcodes 6 to 8, on the words `x` and `y` that the source registers hold. */
  lemma Logical(s: Machine, w: uint32, op: nat, d: nat, a: nat, b: nat, x: bv32, y: bv32) returns (v: int)
    requires Fetches(s, w) && OnRegisters(w, op, d, a, b) && 6 <= op <= 8
    requires x as int == U32(s.cpu.r[a]) && y as int == U32(s.cpu.r[b])
    ensures Leaves(s, w, NextPc(s), s.cpu.cc, d, v)
    ensures v % 0x1_0000_0000 == Operator(op, x, y) as int
  {
    hide Leaves, Alu, U32, Operator;
    StepOfResult(s, w, d, a, b, op);
    v := LogicValue(op, s.cpu.r[a], s.cpu.r[b], x, y);
  }

  lemma LogicValue(op: nat, p: int32, q: int32, x: bv32, y: bv32) returns (v: int32)
    requires 6 <= op <= 8 && x as int == U32(p) && y as int == U32(q)
    ensures Alu(op, p, q) == Some(v) && v % 0x1_0000_0000 == Operator(op, x, y) as int
  {
    hide I32, U32, Bitwise, Operated, Operator;
    LogicIsOperator(op, x, y, U32(p), U32(q));
    OperatorIsOperated(op, x, y);
    var z: int := Operator(op, x, y) as int;
    WordRange(Operator(op, x, y));
    SameWord(z);
    v := I32(z);
  }

  lemma WordRange(a: bv32)
    ensures 0 <= a as int < 0x1_0000_0000
  {
  }

  lemma SameWord(z: int)
    requires 0 <= z < 0x1_0000_0000
    ensures I32(z) % 0x1_0000_0000 == z
  {
  }

  /** MOV, opcode 9. */
  lemma Moving(s: Machine, w: uint32, d: nat, a: nat, b: nat)
    requires Fetches(s, w) && OnRegisters(w, 9, d, a, b)
    ensures Leaves(s, w, NextPc(s), s.cpu.cc, d, s.cpu.r[a])
  {
    hide Leaves;
    StepOfResult(s, w, d, a, b, 9);
  }

  /** CMP, opcode 10: the condition code is congruent to the difference, and no register changes. */
  lemma Comparing(s: Machine, w: uint32, d: nat, a: nat, b: nat) returns (cc: int)
    requires Fetches(s, w) && OnRegisters(w, 10, d, a, b)
    ensures Leaves(s, w, NextPc(s), cc, 0, s.cpu.r[0])
    ensures var x: int, y: int := s.cpu.r[a], s.cpu.r[b];
      (cc - (x - y)) % 0x1_0000_0000 == 0
  {
    hide Resolve, Opcode, Register, AddressField, I32, U32, NextPc;
    RegisterFields(w, 10, d, a, b);
    FetchKeepsSize(s);
    var x: int, y: int := s.cpu.r[a], s.cpu.r[b];
    cc := I32(x - y);
    SignedReading(x - y, cc);
  }

  /** B, BEQ, BGT, BLT and EXIT, opcodes 11 to 15: where the program goes on. */
  lemma Branching(s: Machine, w: uint32, op: nat, d: nat, va: uint32)
    requires Fetches(s, w) && OnAddress(w, op, d, va) && 11 <= op
    ensures var cc: int := s.cpu.cc;
      var taken := op == 11 || op == 15 || (op == 12 && cc == 0) || (op == 13 && cc > 0) || (op == 14 && cc < 0);
      Leaves(s, w, if taken then va else NextPc(s), cc, 0, s.cpu.r[0])
  {
    hide Resolve, Opcode, Register, AddressField, U32, NextPc;
    AddressFields(w, op, d, va);
    FetchKeepsSize(s);
  }

  // ----- instructions that use memory, on a live table

  /** The process on the machine owns the table, and the TLB is coherent with it. */
  ghost predicate Runs(s: Machine, t: Table)
  {
    TableAt(s.memory, t) && Coherent(s.tlb, t) && s.ptbr == t.ptbr
  }

  /** The place in memory of the word at a virtual address that the table maps. */
  function Place(t: Table, va: uint32): int
    requires va / 256 < |t.frames|
  {
    (t.frames[va / 256] + va % 256) / 4
  }

  lemma PlaceOfAddress(t: Table, va: uint32, m: Memory)
    requires TableAt(m, t) && va / 256 < |t.frames|
    ensures 0 <= Place(t, va) < WORDS && ResolveByWalk(m, t.ptbr, va) == Some(t.frames[va / 256] + va % 256)
    ensures Index(t.frames[va / 256] + va % 256) == Place(t, va)
  {
    assert t.frames[va / 256] in t.frames;
    ResolvedAddress(m, t, va);
  }

  lemma NoPlace(t: Table, va: uint32, m: Memory)
    requires TableAt(m, t) && va / 256 >= |t.frames|
    ensures ResolveByWalk(m, t.ptbr, va) == None
  {
    WalkOfTable(m, t, va);
  }

  /** An access of the process: the place that the table gives, or a failure. */
  lemma AccessOnTable(s: Machine, t: Table, tlb: Tlb, va: uint32)
    requires TableAt(s.memory, t) && Coherent(tlb, t)
    ensures match Resolve(s.memory, t.ptbr, tlb, va)
      case None => va / 256 >= |t.frames|
      case Some(r) =>
        && va / 256 < |t.frames| && Index(r.address) == Place(t, va) < WORDS
        && Coherent(r.tlb, t) && |r.tlb| == |tlb|
  {
    hide Resolve, ResolveByWalk, TableAt, Coherent, Place, Index;
    ResolveIsWalk(s.memory, t, tlb, va);
    if va / 256 < |t.frames| {
      PlaceOfAddress(t, va, s.memory);
    } else {
      NoPlace(t, va, s.memory);
    }
  }

  /** The fetched word stands where the table maps the program counter. */
  lemma FetchOnTable(s: Machine, t: Table)
    requires Runs(s, t)
    ensures match Fetched(s)
      case None => s.cpu.pc / 256 >= |t.frames| && Step(s) == None
      case Some(f) =>
        && s.cpu.pc / 256 < |t.frames| && Place(t, s.cpu.pc) < WORDS && f.word == s.memory[Place(t, s.cpu.pc)]
        && Coherent(f.tlb, t) && |f.tlb| == |s.tlb|
  {
    hide Resolve, TableAt, Coherent, Place, Index, Execute;
    AccessOnTable(s, t, s.tlb, s.cpu.pc);
  }

  /** LD, opcode 0: a register gets the signed reading of the word that the table maps, or the step fails. */
  lemma Loading(s: Machine, t: Table, w: uint32, d: nat, va: uint32)
    requires Runs(s, t) && Fetches(s, w) && OnAddress(w, 0, d, va)
    ensures if va / 256 >= |t.frames| then Step(s) == None
      else
        && 0 <= Place(t, va) < WORDS
        && var v: int := s.memory[Place(t, va)];
           Leaves(s, w, NextPc(s), s.cpu.cc, d, if v < 0x8000_0000 then v else v - 0x1_0000_0000)
  {
    hide Resolve, TableAt, Coherent, Opcode, Register, AddressField, Place, Index, U32, NextPc, I32, Alu;
    AddressFields(w, 0, d, va);
    FetchOnTable(s, t);
    AccessOnTable(s, t, Fetched(s).value.tlb, va);
    if va / 256 < |t.frames| {
      SignedWord(s.memory[Place(t, va)]);
    }
  }

  lemma SignedWord(v: uint32)
    ensures I32(v) == if v < 0x8000_0000 then v else v - 0x1_0000_0000
  {
  }

  /** ST, opcode 1: the word that the table maps gets the value of the register, or the step fails. */
  lemma Storing(s: Machine, t: Table, w: uint32, d: nat, va: uint32)
    requires Runs(s, t) && Fetches(s, w) && OnAddress(w, 1, d, va)
    ensures if va / 256 >= |t.frames| then Step(s) == None
      else
        && 0 <= Place(t, va) < WORDS
        && match Step(s)
           case None => false
           case Some(s') =>
             && s'.memory == s.memory[Place(t, va) := U32(s.cpu.r[d])]
             && s'.cpu == s.cpu.(pc := NextPc(s), ir := w)
             && Runs(s', t)
  {
    hide Resolve, TableAt, Coherent, Opcode, Register, AddressField, Place, Index, U32, NextPc, PlainStep;
    AddressFields(w, 1, d, va);
    FetchOnTable(s, t);
    AccessOnTable(s, t, Fetched(s).value.tlb, va);
    StepRefines(t, s);
  }

  /** A register that is stored and loaded again from the same address comes back, in whatever register. */
  lemma StoreThenLoad(s: Machine, t: Table, w: uint32, d: nat, w': uint32, d': nat, va: uint32)
    requires Runs(s, t) && Fetches(s, w) && OnAddress(w, 1, d, va) && Step(s).Some?
    requires Fetches(Step(s).value, w') && OnAddress(w', 0, d', va)
    ensures var s1 := Step(s).value;
      && Step(s1).Some? && Step(s1).value.memory == s1.memory
      && Step(s1).value.cpu.r[d'] == s.cpu.r[d]
  {
    hide Step, Fetches, Runs, Place, OnAddress;
    Storing(s, t, w, d, va);
    Loading(Step(s).value, t, w', d', va);
    SmallFields(w, 1, d, va);
    SmallFields(w', 0, d', va);
  }

  lemma SmallFields(w: uint32, op: nat, d: nat, va: uint32)
    requires OnAddress(w, op, d, va)
    ensures d < 16
  {
  }
}
