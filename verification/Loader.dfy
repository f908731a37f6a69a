/**
  Loading a program: hexadecimal lines are parsed, stored word by word at ascending
  virtual addresses, and what the processor fetches and decodes afterwards is what the
  lines said.
*/
module Loader {
  import opened Options
  import opened Division
  import opened Words
  import opened FreeBlocks
  import opened PageTables
  import opened Translation
  import opened Processor
  import opened Unflushed
  import opened Hardware

  // ----- hexadecimal

  function Digit(c: char): (d: Option<uint8>)
    ensures d.Some? ==> d.value < 16
  {
    if '0' <= c <= '9' then Some(c as int - '0' as int)
    else if 'A' <= c <= 'F' then Some(c as int - 'A' as int + 10)
    else if 'a' <= c <= 'f' then Some(c as int - 'a' as int + 10)
    else None
  }

  /** The number that the digits spell in base sixteen. */
  function Spelled(ds: seq<nat>): nat
  {
    if ds == [] then 0 else 16 * Spelled(ds[..|ds| - 1]) + ds[|ds| - 1]
  }

  function Pow16(n: nat): (p: nat)
    ensures p > 0
  {
    if n == 0 then 1 else 16 * Pow16(n - 1)
  }

  predicate AllDigits(s: string)
  {
    forall c | c in s :: Digit(c).Some?
  }

  function DigitsOf(s: string): (ds: seq<nat>)
    requires AllDigits(s)
    ensures |ds| == |s| && forall i :: 0 <= i < |ds| ==> ds[i] < 16
  {
    seq(|s|, i requires 0 <= i < |s| => assert s[i] in s; Digit(s[i]).value as nat)
  }

  /** A line counts if its first eight characters are digits; the rest of it is not looked at. */
  predicate Parses(line: string)
  {
    |line| >= 8 && AllDigits(line[..8])
  }

  lemma {:induction false} SpelledBound(ds: seq<nat>)
    requires forall i :: 0 <= i < |ds| ==> ds[i] < 16
    ensures Spelled(ds) < Pow16(|ds|)
    decreases |ds|
  {
    if ds != [] {
      SpelledBound(ds[..|ds| - 1]);
    }
  }

  lemma Pow16Of8()
    ensures Pow16(8) == 0x1_0000_0000
  {
    assert Pow16(4) == 16 * 16 * 16 * 16 * Pow16(0);
    assert Pow16(8) == 16 * 16 * 16 * 16 * Pow16(4);
  }

  function WordOf(line: string): uint32
    requires Parses(line)
  {
    SpelledBound(DigitsOf(line[..8]));
    Pow16Of8();
    Spelled(DigitsOf(line[..8]))
  }

  /** What `current_data` holds after `i` characters: their digits, shifted to the top of the word. */
  function Accumulated(line: string, i: nat): nat
    requires i <= |line| && i <= 8 && AllDigits(line[..i])
  {
    Spelled(DigitsOf(line[..i])) * Pow16(8 - i)
  }

  lemma Accumulate(line: string, i: nat)
    requires i < |line| && i < 8 && AllDigits(line[..i]) && Digit(line[i]).Some?
    ensures AllDigits(line[..i + 1])
    ensures Accumulated(line, i + 1) == Accumulated(line, i) + Digit(line[i]).value * Pow16(7 - i)
  {
    assert line[..i + 1] == line[..i] + [line[i]];
    var ds := DigitsOf(line[..i + 1]);
    assert ds[..i] == DigitsOf(line[..i]);
    ShiftedSum(Spelled(ds[..i]), ds[i], Pow16(7 - i));
  }

  lemma ShiftedSum(v: nat, d: nat, p: nat)
    ensures (16 * v + d) * p == v * (16 * p) + d * p
  {
  }

  lemma NothingAccumulated(line: string)
    ensures Accumulated(line, 0) == 0
  {
    assert line[..0] == "";
  }

  lemma AllAccumulated(line: string)
    requires Parses(line)
    ensures Accumulated(line, 8) == WordOf(line)
  {
    assert Pow16(0) == 1;
  }

  lemma NotADigit(line: string, i: nat)
    requires i < 8 && i < |line| && Digit(line[i]).None?
    ensures !Parses(line)
  {
    if |line| >= 8 {
      assert line[..8][i] in line[..8];
    }
  }

  /** Each nibble is put at its place in the word, from the top; eight of them make the word. */
  method HexStringToInt32(line: string) returns (r: Option<uint32>)
    ensures r == if Parses(line) then Some(WordOf(line)) else None
  {
    hide Accumulated, Pow16, WordOf;
    NothingAccumulated(line);
    var data := 0;
    var i := 0;
    while i < |line|
      invariant 0 <= i <= |line| && i < 8
      invariant AllDigits(line[..i])
      invariant data == Accumulated(line, i)
    {
      var nibble := Digit(line[i]);
      if nibble == None {
        NotADigit(line, i);
        return None;
      }
      Accumulate(line, i);
      data := data + nibble.value * Pow16(7 - i);
      i := i + 1;
      if i == 8 {
        AllAccumulated(line);
        return Some(data);
      }
    }
    r := None;
  }

  // ----- digits and nibbles

  /** Shifting the word drops its last digits. */
  lemma {:induction false} ShiftedSpelled(ds: seq<nat>, word: uint32, k: nat)
    requires word == Spelled(ds) && k <= |ds| && forall i :: 0 <= i < |ds| ==> ds[i] < 16
    ensures Shifted(word, k) == Spelled(ds[..|ds| - k])
  {
    if k > 0 {
      ShiftedSpelled(ds, word, k - 1);
      var es := ds[..|ds| - k + 1];
      assert es[..|es| - 1] == ds[..|ds| - k];
    } else {
      assert ds[..|ds|] == ds;
    }
  }

  /** Digit `k` of a line is nibble `7 - k` of the word: parsing and decoding undo each other. */
  lemma NibbleOfLine(line: string, k: nat)
    requires Parses(line) && k < 8
    ensures assert line[..8][k] in line[..8]; Nibbles(WordOf(line), 7 - k, 7 - k) == Digit(line[k]).value
  {
    assert line[..8][k] in line[..8];
    var ds := DigitsOf(line[..8]);
    ShiftedSpelled(ds, WordOf(line), 7 - k);
    OneNibble(WordOf(line), 7 - k);
    assert ds[..k + 1][..k] == ds[..k];
  }

  function HexChar(d: nat): char
    requires d < 16
  {
    if d < 10 then (d + '0' as int) as char else (d - 10 + 'A' as int) as char
  }

  /** A word as eight digits, the way program files hold it. */
  function HexLine(word: uint32): string
  {
    seq(8, i requires 0 <= i < 8 => HexChar(Nibble(word, 7 - i)))
  }

  lemma {:induction false} SpelledPrefix(word: uint32, n: nat, ds: seq<nat>)
    requires |ds| == n <= 8 && forall i :: 0 <= i < n ==> ds[i] == Shifted(word, 7 - i) % 16
    ensures Spelled(ds) == Shifted(word, 8 - n)
    decreases n
  {
    if n == 0 {
      EightShifts(word);
    } else {
      SpelledPrefix(word, n - 1, ds[..n - 1]);
      assert Shifted(word, 9 - n) == Shifted(word, 8 - n) / 16;
    }
  }

  lemma EightShifts(word: uint32)
    ensures Shifted(word, 8) == 0
  {
    FourShifts(word, 0);
    FourShifts(word, 4);
  }

  lemma FourShifts(word: uint32, k: nat)
    ensures Shifted(word, k + 4) == Shifted(word, k) / 16 / 16 / 16 / 16
  {
    assert Shifted(word, k + 2) == Shifted(word, k) / 16 / 16;
  }

  /** Writing a word out and parsing it gives the word back. */
  lemma ParseOfHexLine(word: uint32)
    ensures Parses(HexLine(word)) && WordOf(HexLine(word)) == word
  {
    var line := HexLine(word);
    assert line[..8] == line;
    forall i | 0 <= i < 8 ensures Digit(line[i]) == Some(Shifted(word, 7 - i) % 16) {
      OneNibble(word, 7 - i);
      assert line[i] == HexChar(Nibble(word, 7 - i));
    }
    forall c | c in line ensures Digit(c).Some? {
    }
    SpelledPrefix(word, 8, DigitsOf(line));
  }

  // ----- lines in capitals or small letters

  const SMALL := "0123456789abcdef"
  const CAPITAL := "0123456789ABCDEF"

  /** What a digit is: one of sixteen characters, a letter in either case. */
  lemma DigitExactly(c: char, k: nat)
    requires k < 16
    ensures Digit(c) == Some(k) <==> c == SMALL[k] || c == CAPITAL[k]
  {
  }

  /** The line spells the word: its first eight characters are the nibbles, from the most significant. */
  ghost predicate Spells(line: string, word: uint32)
  {
    && |line| >= 8
    && forall i: nat :: i < 8 ==> line[i] == SMALL[Nibble(word, 7 - i)] || line[i] == CAPITAL[Nibble(word, 7 - i)]
  }

  lemma DigitSpelled(line: string, word: uint32, i: nat)
    requires Spells(line, word) && i < 8
    ensures Digit(line[i]) == Some(Nibble(word, 7 - i))
  {
    hide Nibble, Digit;
    DigitExactly(line[i], Nibble(word, 7 - i));
  }

  lemma SpelledParses(line: string, word: uint32)
    requires Spells(line, word)
    ensures Parses(line) && WordOf(line) == word
  {
    hide Spells, Nibble, Nibbles, Digit, Shifted;
    SpellsLong(line, word);
    forall i: nat | i < 8 ensures Digit(line[i]) == Some(Shifted(word, 7 - i) % 16) {
      DigitSpelled(line, word, i);
      NibbleIsLast(word, 7 - i);
    }
    AllDigitsFrom(line);
    SpelledPrefix(word, 8, DigitsOf(line[..8]));
    NoShiftLeft(word);
  }

  lemma NibbleIsLast(word: uint32, k: nat)
    requires k < 8
    ensures Nibble(word, k) == Shifted(word, k) % 16
  {
    OneNibble(word, k);
  }

  lemma NoShiftLeft(word: uint32)
    ensures Shifted(word, 0) == word
  {
  }

  lemma SpellsLong(line: string, word: uint32)
    requires Spells(line, word)
    ensures |line| >= 8
  {
  }

  lemma AllDigitsFrom(line: string)
    requires |line| >= 8 && forall i: nat :: i < 8 ==> Digit(line[i]).Some?
    ensures AllDigits(line[..8])
  {
    hide Digit;
  }

  /**
    A line parses to a word if and only if its first eight characters spell the word, each
    letter in whatever case.
  */
  lemma ParsesExactly(line: string, word: uint32)
    ensures Parses(line) && WordOf(line) == word <==> Spells(line, word)
  {
    hide Spells, WordOf, Parses;
    if Spells(line, word) {
      SpelledParses(line, word);
    }
    if Parses(line) && WordOf(line) == word {
      ParsedIsSpelled(line);
    }
  }

  lemma ParsedIsSpelled(line: string)
    requires Parses(line)
    ensures Spells(line, WordOf(line))
  {
    hide Digit, WordOf, Nibble, Nibbles;
    forall i: nat | i < 8
      ensures line[i] == SMALL[Nibble(WordOf(line), 7 - i)] || line[i] == CAPITAL[Nibble(WordOf(line), 7 - i)]
    {
      NibbleOfLine(line, i);
      SameNibble(WordOf(line), 7 - i);
      DigitExactly(line[i], Nibble(WordOf(line), 7 - i));
    }
  }

  lemma SameNibble(word: uint32, k: nat)
    requires k < 8
    ensures Nibble(word, k) == Nibbles(word, k, k)
  {
  }

  // ----- the load loop

  /** Memory and TLB so far, and whether a line was refused. */
  datatype Loaded = Loaded(memory: Memory, tlb: Tlb, refused: bool)

  /**
    The first `n` lines, each parsed and stored at the next virtual word, up to the first one
    that does not parse.  `None` is where the source calls `err`, which ends the program.
  */
  function LoadLines(m: Memory, ptbr: int, tlb: Tlb, lines: seq<string>, n: nat): Option<Loaded>
    requires n <= |lines|
  {
    if n == 0 then Some(Loaded(m, tlb, false)) else
      match LoadLines(m, ptbr, tlb, lines, n - 1)
      case None => None
      case Some(l) => if l.refused then Some(l) else StoredLine(l, ptbr, lines[n - 1], n - 1)
  }

  /** One more line, the word number `i`. */
  function StoredLine(l: Loaded, ptbr: int, line: string, i: nat): Option<Loaded>
  {
    if !Parses(line) then Some(l.(refused := true)) else
      match Resolve(l.memory, ptbr, l.tlb, U32(4 * i))
      case None => None
      case Some(r) => Some(Loaded(l.memory[Index(r.address) := WordOf(line)], r.tlb, false))
  }

  /** The loop over the lines of a file; the flush after it is reached only if no line was refused. */
  method LoadFile(mmu: Mmu, ptbr: uint32, lines: seq<string>) returns (ok: Option<bool>)
    requires mmu.Valid() && mmu.tlb as object != mmu.ps.memory
    modifies mmu.tlb, mmu.ps.memory
    ensures match LoadLines(old(mmu.ps.Words()), ptbr, old(mmu.Slots()), lines, |lines|)
      case None => ok == None
      case Some(l) =>
        && ok == Some(!l.refused) && mmu.ps.Words() == l.memory
        && mmu.Slots() == if l.refused then l.tlb else Flushed(mmu.tlb.Length)
  {
    hide Resolve, Parses, WordOf;
    ghost var m, tlb := mmu.ps.Words(), mmu.Slots();
    var i := 0;
    var va: uint32 := 0;
    while i < |lines|
      invariant 0 <= i <= |lines| && va == U32(4 * i)
      invariant LoadLines(m, ptbr, tlb, lines, i) == Some(Loaded(mmu.ps.Words(), mmu.Slots(), false))
    {
      var word := HexStringToInt32(lines[i]);
      if word == None {
        EndIsKept(m, ptbr, tlb, lines, i + 1);
        return Some(false);
      }
      var address := mmu.ResolveAddress(ptbr, va);
      if address == None {
        EndIsKept(m, ptbr, tlb, lines, i + 1);
        return None;
      }
      mmu.ps.WriteWord(address.value, word.value);
      NextAddress(i);
      va := U32(va + 4);
      i := i + 1;
    }
    mmu.Flush();
    ok := Some(true);
  }

  lemma NextAddress(i: nat)
    ensures U32(U32(4 * i) + 4) == U32(4 * (i + 1))
  {
  }

  /** Once a line was refused, or an address, the lines behind it are not looked at. */
  lemma {:induction false} EndIsKept(m: Memory, ptbr: int, tlb: Tlb, lines: seq<string>, n: nat)
    requires n <= |lines|
    requires match LoadLines(m, ptbr, tlb, lines, n) case None => true case Some(l) => l.refused
    ensures LoadLines(m, ptbr, tlb, lines, |lines|) == LoadLines(m, ptbr, tlb, lines, n)
    decreases |lines| - n
  {
    hide StoredLine;
    if n < |lines| {
      EndIsKept(m, ptbr, tlb, lines, n + 1);
    }
  }

  // ----- what is loaded is what is fetched

  /** The frames of a live table are all different. */
  lemma FramesOfOneTable(k: Kernel, i: nat, p: nat, q: nat)
    requires Sound(k) && i < |k.tables| && p < q < |k.tables[i].frames|
    ensures k.tables[i].frames[p] != k.tables[i].frames[q]
  {
    var t := k.tables[i];
    var a := t.frames[p];
    CoverOfLive(k.tables, i, a);
    CoverOfTable(t, a);
    if t.frames[q] == a {
      assert FrameBlocks(t.frames)[p].Has(a) && FrameBlocks(t.frames)[q].Has(a);
      TwoHolders(FrameBlocks(t.frames), p, q, a);
      assert false;
    }
  }

  ghost predicate AllDifferentFrames(t: Table)
  {
    forall p, q :: 0 <= p < q < |t.frames| ==> t.frames[p] != t.frames[q]
  }

  /** Word `i` of the program is at this index in memory. */
  function WordIndex(t: Table, i: nat): (x: nat)
    requires 4 * i / 256 < |t.frames|
    ensures x < WORDS
  {
    Index(t.frames[4 * i / 256] + 4 * i % 256)
  }

  lemma WordPlace(f: int, offset: int)
    requires 0 <= f && f + 255 < ADDRESSES && f % 256 == 0 && 0 <= offset < 256 && offset % 4 == 0
    ensures 4 * Index(f + offset) == f + offset
  {
    hide Index;
    var x := 64 * (f / 256) + offset / 4;
    assert f + offset == 4 * x;
    IndexOfWord(x);
  }

  lemma SamePlace(f: int, g: int, x: int, y: int)
    requires f % 256 == 0 && g % 256 == 0 && 0 <= x < 256 && 0 <= y < 256 && f + x == g + y
    ensures f == g && x == y
  {
  }

  /** Different words of the program are different words of memory. */
  lemma WordsApart(t: Table, i: nat, j: nat)
    requires GoodTable(t) && AllDifferentFrames(t) && i < j
    requires 4 * i / 256 < |t.frames| && 4 * j / 256 < |t.frames|
    ensures WordIndex(t, i) != WordIndex(t, j)
  {
    var p, q := 4 * i / 256, 4 * j / 256;
    assert t.frames[p] in t.frames && t.frames[q] in t.frames;
    WordPlace(t.frames[p], 4 * i % 256);
    WordPlace(t.frames[q], 4 * j % 256);
    assert p <= q;
    if WordIndex(t, i) == WordIndex(t, j) {
      SamePlace(t.frames[p], t.frames[q], 4 * i % 256, 4 * j % 256);
    }
  }

  /** A program word that the table maps; its virtual address does not wrap. */
  lemma ProgramFits(t: Table, words: nat, i: nat)
    requires GoodTable(t) && i < words && FramesFor(words) <= |t.frames|
    ensures 4 * i / 256 < |t.frames| && U32(4 * i) == 4 * i
  {
    EveryWordIsMapped(words, i);
  }

  /** Virtual word `i` resolves to its place, whatever the TLB remembers. */
  lemma ResolveWord(t: Table, m: Memory, tlb: Tlb, words: nat, i: nat)
    requires TableAt(m, t) && Coherent(tlb, t) && i < words && FramesFor(words) <= |t.frames|
    ensures 4 * i / 256 < |t.frames|
    ensures match Resolve(m, t.ptbr, tlb, U32(4 * i))
      case None => false
      case Some(r) => Index(r.address) == WordIndex(t, i) && Coherent(r.tlb, t)
    ensures WalkedWord(t, m, i)
  {
    hide Resolve, Coherent, TableAt;
    GoodAtPlace(m, t);
    ProgramFits(t, words, i);
    ResolveIsWalk(m, t, tlb, U32(4 * i));
    WalkWord(t, m, i);
  }

  ghost predicate WalkedWord(t: Table, m: Memory, i: nat)
    requires 4 * i / 256 < |t.frames|
  {
    match ResolveByWalk(m, t.ptbr, U32(4 * i))
    case None => false
    case Some(a) => Index(a) == WordIndex(t, i)
  }

  lemma WalkWord(t: Table, m: Memory, i: nat)
    requires TableAt(m, t) && 4 * i / 256 < |t.frames| && U32(4 * i) == 4 * i
    ensures WalkedWord(t, m, i)
  {
    hide ResolveByWalk, TableAt;
    ResolvedAddress(m, t, 4 * i);
  }

  /** Storing there leaves the table alone. */
  lemma StoreLine(t: Table, m: Memory, words: nat, i: nat, value: uint32)
    requires TableAt(m, t) && i < words && FramesFor(words) <= |t.frames|
    ensures 4 * i / 256 < |t.frames| && U32(4 * i) == 4 * i && WalkedWord(t, m, i)
    ensures var m' := m[WordIndex(t, i) := value]; TableAt(m', t) && OnlyFramesOf(t, m, m')
  {
    hide ResolveByWalk, WordIndex;
    ProgramFits(t, words, i);
    WalkWord(t, m, i);
    StoreStaysInside(m, t, U32(4 * i), value);
    StoresKeepTables(t, t, m, m[WordIndex(t, i) := value]);
  }

  /** The first `n` words of the program are where the table maps them. */
  ghost predicate Holds(m: Memory, t: Table, lines: seq<string>, n: nat)
    requires n <= |lines|
  {
    forall i: nat :: i < n ==> Parses(lines[i]) && 4 * i / 256 < |t.frames| && m[WordIndex(t, i)] == WordOf(lines[i])
  }

  lemma HoldsOneMore(m: Memory, t: Table, lines: seq<string>, n: nat)
    requires GoodTable(t) && AllDifferentFrames(t) && n < |lines| && Holds(m, t, lines, n)
    requires Parses(lines[n]) && 4 * n / 256 < |t.frames|
    ensures Holds(m[WordIndex(t, n) := WordOf(lines[n])], t, lines, n + 1)
  {
    hide Parses, WordOf, WordIndex;
    forall i: nat | i < n ensures WordIndex(t, i) != WordIndex(t, n) {
      WordsApart(t, i, n);
    }
  }

  // ----- a TLB that earlier loads have used

  /** After `n` words, whoever fills slot `s` first has been asked for: it is page `s`. */
  predicate Touched(n: nat, s: nat)
  {
    64 * s < n
  }

  /** No slot answers for the page for which the first `n` words ask it first. */
  ghost predicate Silent(tlb: Tlb, n: nat)
  {
    forall s: nat :: s < |tlb| && Touched(n, s) ==> Lookup(tlb, U32(256 * s)).None?
  }

  /** Who has filled which slot after `n` words of table `j`. */
  ghost function LoadOwners(m: Memory, ptbr: int, tlb: Tlb, owner: Owners, j: nat, lines: seq<string>, n: nat): Owners
    requires n <= |lines|
  {
    if n == 0 then owner else
      var before := LoadOwners(m, ptbr, tlb, owner, j, lines, n - 1);
      match LoadLines(m, ptbr, tlb, lines, n - 1)
      case None => before
      case Some(l) =>
        if l.refused || !Parses(lines[n - 1]) then before else OwnersAfter(l.tlb, before, j, U32(4 * (n - 1)))
  }

  /** Each of the first `n` words was stored at the address that the walk gives. */
  ghost predicate StoredRight(m: Memory, ptbr: int, tlb: Tlb, lines: seq<string>, n: nat)
    requires n <= |lines|
  {
    n == 0 || (StoredRight(m, ptbr, tlb, lines, n - 1) &&
      match LoadLines(m, ptbr, tlb, lines, n - 1)
      case None => true
      case Some(l) => ResolvesRight(l.memory, ptbr, l.tlb, U32(4 * (n - 1))))
  }

  /** Slots that the load has asked for are its own, the others as they were. */
  ghost predicate SlotsAfter(n: nat, j: nat, tlb: Tlb, owner: Owners, tlb': Tlb, owner': Owners)
  {
    && |tlb'| == |tlb|
    && forall s: nat :: s < |tlb| ==>
         if Touched(n, s) then owner'(s) == j else tlb'[s] == tlb[s] && owner'(s) == owner(s)
  }

  /** Table `j`, just allocated, has room for the lines, which all parse, and has filled no slot of the TLB. */
  ghost predicate ReadyToLoad(k: Kernel, j: nat, tlb: Tlb, owner: Owners, lines: seq<string>)
  {
    && Sound(k) && j < |k.tables| && AllDifferentFrames(k.tables[j]) && FramesFor(|lines|) <= |k.tables[j].frames|
    && (forall i :: 0 <= i < |lines| ==> Parses(lines[i]))
    && Owned(k.tables, tlb, owner)
    && forall s :: 0 <= s < |tlb| && tlb[s].active ==> owner(s) != j
  }

  /** The state of the load after `n` lines in which all went right. */
  ghost predicate LoadedWell(k: Kernel, j: nat, tlb: Tlb, owner: Owners, lines: seq<string>, n: nat)
    requires j < |k.tables| && n <= |lines|
  {
    var t := k.tables[j];
    match LoadLines(k.memory, t.ptbr, tlb, lines, n)
    case None => false
    case Some(l) =>
      var owner' := LoadOwners(k.memory, t.ptbr, tlb, owner, j, lines, n);
      && !l.refused && Sound(k.(memory := l.memory)) && Holds(l.memory, t, lines, n)
      && Owned(k.tables, l.tlb, owner') && SlotsAfter(n, j, tlb, owner, l.tlb, owner')
  }

  /** The slot of word `n`: asked for already, or asked for the first time and for its own page. */
  lemma SlotOfWord(n: nat, va: uint32, size: nat)
    requires size > 0 && va == 4 * n
    ensures var s := Slot(va, size);
      Touched(n, s) || (n == 64 * s && FrameBase(va) == va == 256 * s && PageOf(va) == s)
  {
    assert PageOf(va) == n / 64;
  }

  lemma SlotOfPage(s: nat, size: nat)
    requires s < size && 256 * s < 0x1_0000_0000
    ensures Slot(256 * s, size) == s
  {
  }

  /** Whether the next word is stored right is decided by what its slot held before the load. */
  lemma NextWordExactly(j: nat, tlb: Tlb, owner: Owners, tlb': Tlb, owner': Owners, n: nat, va: uint32)
    requires SlotsAfter(n, j, tlb, owner, tlb', owner') && va == 4 * n
    requires forall s :: 0 <= s < |tlb| && tlb[s].active ==> owner(s) != j
    ensures Silent(tlb, n) ==> (Mine(tlb', owner', j, va) <==> Silent(tlb, n + 1))
    ensures Mine(tlb', owner', j, va) && Lookup(tlb', va).Some? ==> Touched(n, Slot(va, |tlb|))
  {
    hide FrameBase;
    var s := Slot(va, |tlb|);
    SlotOfWord(n, va, |tlb|);
    if Touched(n, s) {
      NoNewSlot(n, va, |tlb|);
    } else {
      SlotOfPage(s, |tlb|);
      assert Lookup(tlb', va) == Lookup(tlb, U32(256 * s));
      assert Touched(n + 1, s);
      forall r: nat | Touched(n + 1, r) && !Touched(n, r) ensures r == s {
      }
    }
  }

  lemma NoNewSlot(n: nat, va: uint32, size: nat)
    requires size > 0 && va == 4 * n && Touched(n, Slot(va, size))
    ensures forall r: nat :: r < size && Touched(n + 1, r) ==> Touched(n, r)
  {
    forall r: nat | r < size && Touched(n + 1, r) ensures Touched(n, r) {
      if 64 * r == n {
        SlotOfPage(r, size);
      }
    }
  }

  lemma SlotsAfterWord(j: nat, tlb: Tlb, owner: Owners, tlb': Tlb, owner': Owners, n: nat, va: uint32, frame: uint32)
    requires SlotsAfter(n, j, tlb, owner, tlb', owner') && va == 4 * n && Mine(tlb', owner', j, va)
    requires Lookup(tlb', va).Some? ==> Touched(n, Slot(va, |tlb|))
    ensures var tlb'' := if Lookup(tlb', va).Some? then tlb' else Remember(tlb', va, frame);
      SlotsAfter(n + 1, j, tlb, owner, tlb'', OwnersAfter(tlb', owner', j, va))
  {
    hide FrameBase, Lookup;
    SlotOfWord(n, va, |tlb|);
    if Touched(n, Slot(va, |tlb|)) {
      NoNewSlot(n, va, |tlb|);
    }
  }

  lemma GoodAtPlace(m: Memory, t: Table)
    requires TableAt(m, t)
    ensures GoodTable(t)
  {
  }

  lemma NothingStored(k: Kernel, j: nat, tlb: Tlb, owner: Owners, lines: seq<string>)
    requires ReadyToLoad(k, j, tlb, owner, lines)
    ensures LoadedWell(k, j, tlb, owner, lines, 0) && Silent(tlb, 0)
  {
    hide Sound, Owned;
    assert k.(memory := k.memory) == k;
  }

  /** The store of one word that resolves as by the walk. */
  lemma StoreWordRight(k: Kernel, j: nat, tlb: Tlb, words: nat, i: nat, value: uint32)
    requires Sound(k) && j < |k.tables| && i < words && FramesFor(words) <= |k.tables[j].frames|
    requires ResolvesRight(k.memory, k.tables[j].ptbr, tlb, U32(4 * i))
    ensures var t := k.tables[j];
      && 4 * i / 256 < |t.frames| && U32(4 * i) == 4 * i
      && match Resolve(k.memory, t.ptbr, tlb, U32(4 * i))
         case None => false
         case Some(r) =>
           Index(r.address) == WordIndex(t, i) && Sound(k.(memory := k.memory[Index(r.address) := value]))
  {
    hide Resolve, ResolveByWalk, TableAt, Sound, WordIndex;
    var t := k.tables[j];
    LiveAt(k, j);
    StoreLine(t, k.memory, words, i, value);
    UserSound(k, k.(memory := k.memory[WordIndex(t, i) := value]), j);
  }

  /** The next word is stored right if and only if no slot that it asks for first answers; the load then stays well. */
  lemma LoadNextWord(k: Kernel, j: nat, tlb: Tlb, owner: Owners, lines: seq<string>, n: nat)
    requires ReadyToLoad(k, j, tlb, owner, lines) && n < |lines|
    requires LoadedWell(k, j, tlb, owner, lines, n) && Silent(tlb, n)
    ensures var l := LoadLines(k.memory, k.tables[j].ptbr, tlb, lines, n).value;
      ResolvesRight(l.memory, k.tables[j].ptbr, l.tlb, U32(4 * n)) <==> Silent(tlb, n + 1)
    ensures Silent(tlb, n + 1) ==> LoadedWell(k, j, tlb, owner, lines, n + 1)
  {
    hide Sound, Resolve, ResolvesRight, Holds, SlotsAfter, Owned, Silent, Mine, OwnersAfter, Parses, WordOf, WordIndex;
    var t := k.tables[j];
    var l := LoadLines(k.memory, t.ptbr, tlb, lines, n).value;
    var own := LoadOwners(k.memory, t.ptbr, tlb, owner, j, lines, n);
    var here := k.(memory := l.memory);
    LiveAt(k, j);
    GoodAtPlace(k.memory, t);
    ProgramFits(t, |lines|, n);
    AccessRightExactly(here, j, l.tlb, own, 4 * n);
    NextWordExactly(j, tlb, owner, l.tlb, own, n, 4 * n);
    if Silent(tlb, n + 1) {
      StoreWordRight(here, j, l.tlb, |lines|, n, WordOf(lines[n]));
      AccessKeepsOwners(here, j, l.tlb, own, 4 * n);
      HoldsOneMore(l.memory, t, lines, n);
      WordKeepsSlots(here, j, tlb, owner, l.tlb, own, n, 4 * n);
    }
  }

  lemma WordKeepsSlots(k: Kernel, j: nat, tlb: Tlb, owner: Owners, tlb': Tlb, owner': Owners, n: nat, va: uint32)
    requires j < |k.tables| && Resolve(k.memory, k.tables[j].ptbr, tlb', va).Some? && va == 4 * n
    requires SlotsAfter(n, j, tlb, owner, tlb', owner') && Mine(tlb', owner', j, va)
    requires forall s :: 0 <= s < |tlb| && tlb[s].active ==> owner(s) != j
    ensures var r := Resolve(k.memory, k.tables[j].ptbr, tlb', va).value;
      SlotsAfter(n + 1, j, tlb, owner, r.tlb, OwnersAfter(tlb', owner', j, va))
  {
    hide SlotsAfter, OwnersAfter, Remember, Slot, Glue;
    NextWordExactly(j, tlb, owner, tlb', owner', n, va);
    var frame := if Lookup(tlb', va).Some? then 0 else Walk(k.memory, k.tables[j].ptbr, va).value;
    SlotsAfterWord(j, tlb, owner, tlb', owner', n, va, frame);
  }

  /** The load loop from any TLB that other tables have filled, word for word. */
  lemma {:induction false} LoadPrefix(k: Kernel, j: nat, tlb: Tlb, owner: Owners, lines: seq<string>, n: nat)
    requires ReadyToLoad(k, j, tlb, owner, lines) && n <= |lines|
    ensures StoredRight(k.memory, k.tables[j].ptbr, tlb, lines, n) <==> Silent(tlb, n)
    ensures Silent(tlb, n) ==> LoadedWell(k, j, tlb, owner, lines, n)
  {
    hide Sound, Owned, Parses, LoadedWell, ResolvesRight, Silent;
    if n == 0 {
      NothingStored(k, j, tlb, owner, lines);
    } else {
      LoadPrefix(k, j, tlb, owner, lines, n - 1);
      SilentBefore(tlb, n);
      if Silent(tlb, n - 1) {
        LoadNextWord(k, j, tlb, owner, lines, n - 1);
        WellHasResult(k, j, tlb, owner, lines, n - 1);
      }
    }
  }

  lemma WellHasResult(k: Kernel, j: nat, tlb: Tlb, owner: Owners, lines: seq<string>, n: nat)
    requires j < |k.tables| && n <= |lines| && LoadedWell(k, j, tlb, owner, lines, n)
    ensures LoadLines(k.memory, k.tables[j].ptbr, tlb, lines, n).Some?
  {
  }

  lemma SilentBefore(tlb: Tlb, n: nat)
    requires n > 0
    ensures Silent(tlb, n) ==> Silent(tlb, n - 1)
  {
    hide Lookup;
  }

  /** The word that a virtual address names. */
  function WordRead(m: Memory, ptbr: int, tlb: Tlb, pc: uint32): Option<uint32>
  {
    match Resolve(m, ptbr, tlb, pc)
    case None => None
    case Some(r) => Some(m[Index(r.address)])
  }

  lemma OwnedByOthers(k: Kernel, k1: Kernel, tlb: Tlb, owner: Owners)
    requires |k1.tables| == |k.tables| + 1 && k1.tables[..|k.tables|] == k.tables && Owned(k.tables, tlb, owner)
    ensures Owned(k1.tables, tlb, owner)
    ensures forall s :: 0 <= s < |tlb| && tlb[s].active ==> owner(s) != |k.tables|
  {
    hide FilledBy;
    assert forall i :: 0 <= i < |k.tables| ==> k1.tables[i] == k.tables[i];
  }

  /** A table that was just allocated stands in memory, with frames that are all different and map every word. */
  lemma FreshTable(k: Kernel, k1: Kernel, words: nat)
    requires Sound(k) && MallocStep(k, k1, words)
    ensures Sound(k1) && |k1.tables| == |k.tables| + 1 && k1.tables[..|k.tables|] == k.tables
    ensures var t := k1.tables[|k.tables|];
      TableAt(k1.memory, t) && AllDifferentFrames(t) && |t.frames| == FramesFor(words)
  {
    var j := |k.tables|;
    NewTableIsGood(k.free, FramesFor(words), k.memory);
    MallocSound(k, k1, words);
    var t := k1.tables[j];
    assert t in k1.tables;
    forall p, q | 0 <= p < q < |t.frames| ensures t.frames[p] != t.frames[q] {
      FramesOfOneTable(k1, j, p, q);
    }
  }

  /**
    Load, then fetch: a table is allocated for the lines of a program, the load loop writes
    them through a TLB that other tables may have filled, and every word is stored where the
    table maps it if and only if no slot of the TLB answers when it is first asked.  Then
    the allocator stays sound, and a fetch at virtual address `4 * i` through
    any TLB that is coherent with the table, of whatever size, gives the word that line `i`
    spells, for every line, across frame boundaries.
  */
  lemma LoadThenFetch(k: Kernel, k1: Kernel, used: Tlb, owner: Owners, lines: seq<string>, tlb: Tlb)
    requires Sound(k) && MallocStep(k, k1, |lines|) && Owned(k.tables, used, owner)
    requires Coherent(tlb, k1.tables[|k.tables|])
    requires forall i :: 0 <= i < |lines| ==> Parses(lines[i])
    ensures StoredRight(k1.memory, k1.tables[|k.tables|].ptbr, used, lines, |lines|) <==> Silent(used, |lines|)
    ensures Silent(used, |lines|) ==>
      var ptbr := k1.tables[|k.tables|].ptbr;
      match LoadLines(k1.memory, ptbr, used, lines, |lines|)
      case None => false
      case Some(l) =>
        && !l.refused && Sound(k1.(memory := l.memory))
        && forall i: nat :: i < |lines| ==> WordRead(l.memory, ptbr, tlb, U32(4 * i)) == Some(WordOf(lines[i]))
  {
    var j := |k.tables|;
    var t := k1.tables[j];
    hide Sound, Resolve, TableAt, Coherent, WordIndex, Silent, StoredRight, SlotsAfter, AllDifferentFrames, Parses;
    FreshTable(k, k1, |lines|);
    OwnedByOthers(k, k1, used, owner);
    LoadPrefix(k1, j, used, owner, lines, |lines|);
    if Silent(used, |lines|) {
      ReadBack(k1, j, used, owner, lines, tlb);
    }
  }

  lemma ReadBack(k: Kernel, j: nat, used: Tlb, owner: Owners, lines: seq<string>, tlb: Tlb)
    requires ReadyToLoad(k, j, used, owner, lines) && LoadedWell(k, j, used, owner, lines, |lines|)
    requires Coherent(tlb, k.tables[j])
    ensures var l := LoadLines(k.memory, k.tables[j].ptbr, used, lines, |lines|).value;
      forall i: nat :: i < |lines| ==>
        WordRead(l.memory, k.tables[j].ptbr, tlb, U32(4 * i)) == Some(WordOf(lines[i]))
  {
    hide Sound, Resolve, TableAt, Coherent, WordIndex, SlotsAfter, AllDifferentFrames, Parses;
    var t := k.tables[j];
    var l := LoadLines(k.memory, t.ptbr, used, lines, |lines|).value;
    LiveAt(k.(memory := l.memory), j);
    forall i: nat | i < |lines| ensures WordRead(l.memory, t.ptbr, tlb, U32(4 * i)) == Some(WordOf(lines[i])) {
      ResolveWord(t, l.memory, tlb, |lines|, i);
    }
  }

  // ----- one load after the other

  /** The loader between two loads, with the history of who filled which slot. */
  datatype LoaderState = LoaderState(kernel: Kernel, tlb: Tlb, owner: Owners)

  /** A load: a table for the lines, the loop, and the flush if it is reached. */
  ghost predicate LoadStep(s: LoaderState, s': LoaderState, lines: seq<string>)
  {
    exists k1: Kernel :: MallocStep(s.kernel, k1, |lines|) && LoadInto(s, s', lines, k1)
  }

  ghost predicate LoadInto(s: LoaderState, s': LoaderState, lines: seq<string>, k1: Kernel)
  {
    var j := |s.kernel.tables|;
    j < |k1.tables| &&
    match LoadLines(k1.memory, k1.tables[j].ptbr, s.tlb, lines, |lines|)
    case None => false
    case Some(l) =>
      s' == LoaderState(
              k1.(memory := l.memory),
              if l.refused then l.tlb else Flushed(|s.tlb|),
              LoadOwners(k1.memory, k1.tables[j].ptbr, s.tlb, s.owner, j, lines, |lines|))
  }

  ghost predicate LoaderSound(s: LoaderState)
  {
    Sound(s.kernel) && Owned(s.kernel.tables, s.tlb, s.owner)
  }

  /** Whatever the lines are and wherever their words go, no table is harmed and every slot keeps an owner. */
  lemma {:induction false} AnyLinesKeepOwners(k: Kernel, j: nat, tlb: Tlb, owner: Owners, lines: seq<string>, n: nat)
    requires Sound(k) && j < |k.tables| && Owned(k.tables, tlb, owner) && n <= |lines|
    ensures match LoadLines(k.memory, k.tables[j].ptbr, tlb, lines, n)
      case None => true
      case Some(l) =>
        && Sound(k.(memory := l.memory)) && |l.tlb| == |tlb|
        && Owned(k.tables, l.tlb, LoadOwners(k.memory, k.tables[j].ptbr, tlb, owner, j, lines, n))
  {
    hide Sound, Owned, Resolve, OwnersAfter, Parses, WordOf, Index;
    if n == 0 {
      assert k.(memory := k.memory) == k;
    } else {
      AnyLinesKeepOwners(k, j, tlb, owner, lines, n - 1);
      match LoadLines(k.memory, k.tables[j].ptbr, tlb, lines, n - 1) {
        case None =>
        case Some(l) =>
          if !l.refused && Parses(lines[n - 1]) {
            var own := LoadOwners(k.memory, k.tables[j].ptbr, tlb, owner, j, lines, n - 1);
            AnyStoreIsSound(k.(memory := l.memory), j, l.tlb, own, U32(4 * (n - 1)), WordOf(lines[n - 1]));
          }
      }
    }
  }

  lemma AnyStoreIsSound(k: Kernel, j: nat, tlb: Tlb, owner: Owners, va: uint32, value: uint32)
    requires Sound(k) && j < |k.tables| && Owned(k.tables, tlb, owner)
    ensures match Resolve(k.memory, k.tables[j].ptbr, tlb, va)
      case None => true
      case Some(r) =>
        && Sound(k.(memory := k.memory[Index(r.address) := value])) && |r.tlb| == |tlb|
        && Owned(k.tables, r.tlb, OwnersAfter(tlb, owner, j, va))
  {
    hide Sound, Owned, Resolve, ResolveByWalk, OwnersAfter, Index, TableAt;
    AccessKeepsOwners(k, j, tlb, owner, va);
    match Resolve(k.memory, k.tables[j].ptbr, tlb, va) {
      case None =>
      case Some(r) =>
        var i := OwnersAfter(tlb, owner, j, va)(Slot(va, |tlb|));
        LiveAt(k, i);
        StoreStaysInside(k.memory, k.tables[i], va, value);
        UserSound(k, k.(memory := k.memory[Index(r.address) := value]), i);
    }
  }

  lemma LoadStepSound(s: LoaderState, s': LoaderState, lines: seq<string>)
    requires LoaderSound(s) && LoadStep(s, s', lines)
    ensures LoaderSound(s')
  {
    hide Sound, Owned, MallocStep, LoadLines, LoadOwners, AllDifferentFrames;
    var k1: Kernel :| MallocStep(s.kernel, k1, |lines|) && LoadInto(s, s', lines, k1);
    var j := |s.kernel.tables|;
    FreshTable(s.kernel, k1, |lines|);
    OwnedByOthers(s.kernel, k1, s.tlb, s.owner);
    AnyLinesKeepOwners(k1, j, s.tlb, s.owner, lines, |lines|);
    FlushedIsOwned(k1.tables, |s.tlb|, s'.owner);
  }

  lemma FlushedIsOwned(ts: seq<Table>, size: nat, owner: Owners)
    requires size > 0
    ensures Owned(ts, Flushed(size), owner)
    ensures forall n: nat :: Silent(Flushed(size), n)
  {
  }

  /**
    In every sequence of loads, refused ones included, the allocator stays sound and every slot
    keeps an owner; so `LoadThenFetch` says for each of them exactly when its words are right.
  */
  lemma {:induction false} EveryLoadIsSound(ss: seq<LoaderState>, files: seq<seq<string>>, n: nat)
    requires |ss| == |files| + 1 && n < |ss| && LoaderSound(ss[0])
    requires forall i :: 0 <= i < |files| ==> LoadStep(ss[i], ss[i + 1], files[i])
    ensures LoaderSound(ss[n])
  {
    hide LoaderSound, LoadStep;
    if n > 0 {
      EveryLoadIsSound(ss, files, n - 1);
      LoadStepSound(ss[n - 1], ss[n], files[n - 1]);
    }
  }

  lemma SlotAnswersStill(m: Memory, ptbr: int, tlb: Tlb, va: uint32)
    requires PageOf(va) < |tlb| && (PageOf(va) == 0 || Lookup(tlb, 0).Some?)
    ensures match Resolve(m, ptbr, tlb, va)
      case None => true
      case Some(r) => Lookup(r.tlb, 0).Some? && |r.tlb| == |tlb|
  {
    assert LeftOver(PageOf(va), |tlb|) == PageOf(va) && LeftOver(0, |tlb|) == 0;
  }

  /** As long as a load has not gone once around the TLB, slot 0 answers for page 0. */
  lemma {:induction false} FirstSlotAnswers(m: Memory, ptbr: int, tlb: Tlb, lines: seq<string>, n: nat)
    requires 1 <= n <= |lines| && n <= 64 * |tlb|
    requires LoadLines(m, ptbr, tlb, lines, n).Some? && !LoadLines(m, ptbr, tlb, lines, n).value.refused
    ensures var tlb' := LoadLines(m, ptbr, tlb, lines, n).value.tlb; |tlb'| == |tlb| && Lookup(tlb', 0).Some?
  {
    hide Resolve, Lookup, Parses, WordOf, Index;
    var l := LoadLines(m, ptbr, tlb, lines, n - 1).value;
    if n > 1 {
      FirstSlotAnswers(m, ptbr, tlb, lines, n - 1);
    }
    assert PageOf(U32(4 * (n - 1))) <= (n - 1) / 64;
    SlotAnswersStill(l.memory, ptbr, l.tlb, U32(4 * (n - 1)));
  }

  /**
    A load that is refused after at least one good line, and before it has gone around the TLB,
    leaves a slot that answers: the first word of the next program, whatever it is, goes wrong.
  */
  lemma RefusedLoadSpoilsNext(m: Memory, ptbr: int, tlb: Tlb, lines: seq<string>, good: nat, n: nat)
    requires 1 <= good < |lines| && good <= 64 * |tlb| && n >= 1
    requires LoadLines(m, ptbr, tlb, lines, good).Some? && !LoadLines(m, ptbr, tlb, lines, good).value.refused
    requires !Parses(lines[good])
    ensures match LoadLines(m, ptbr, tlb, lines, |lines|)
      case None => false
      case Some(l) => l.refused && !Silent(l.tlb, n)
  {
    hide Resolve, Lookup, Parses, WordOf, Index;
    FirstSlotAnswers(m, ptbr, tlb, lines, good);
    EndIsKept(m, ptbr, tlb, lines, good + 1);
    assert Touched(n, 0) && U32(256 * 0) == 0;
  }

  // ----- the null process

  const EXIT_CODE := 0xF000_0000

  lemma ExitDecodes()
    ensures Opcode(EXIT_CODE) == OP_EXIT && AddressField(EXIT_CODE) == 0
  {
    OneNibble(EXIT_CODE, 7);
    assert Shifted(EXIT_CODE, 4) == 0xF000 && Shifted(EXIT_CODE, 7) == 0xF;
    assert Lowest(EXIT_CODE, 3) == 0 && Lowest(EXIT_CODE / 16 / 16 / 16, 3) == 0;
  }

  /** A process whose first word is EXIT to 0 stays at 0 for ever and changes nothing but its instruction register. */
  lemma {:induction false} NullProcessStays(t: Table, s: Machine, n: nat)
    requires TableAt(s.memory, t) && Coherent(s.tlb, t) && s.ptbr == t.ptbr && |t.frames| > 0
    requires s.cpu.pc == 0 && s.memory[WordIndex(t, 0)] == EXIT_CODE
    ensures match Steps(s, n)
      case None => false
      case Some(s') =>
        && s'.memory == s.memory && s'.ptbr == s.ptbr && Coherent(s'.tlb, t)
        && s'.cpu == if n == 0 then s.cpu else s.cpu.(ir := EXIT_CODE)
  {
    hide Step, Coherent, TableAt, WordIndex;
    if n > 0 {
      NullProcessStays(t, s, n - 1);
      ExitStep(t, Steps(s, n - 1).value);
    }
  }

  lemma ExitStep(t: Table, s: Machine)
    requires TableAt(s.memory, t) && Coherent(s.tlb, t) && s.ptbr == t.ptbr && |t.frames| > 0
    requires s.cpu.pc == 0 && s.memory[WordIndex(t, 0)] == EXIT_CODE
    ensures match Step(s)
      case None => false
      case Some(s') =>
        s'.memory == s.memory && s'.ptbr == s.ptbr && Coherent(s'.tlb, t) && s'.cpu == s.cpu.(ir := EXIT_CODE)
  {
    hide Resolve, Coherent, WordIndex, TableAt, Opcode, AddressField;
    assert U32(0) == 0;
    ResolveWord(t, s.memory, s.tlb, 1, 0);
    ExitDecodes();
  }

  /** The null process is one word, written through the table at virtual address 0. */
  function LoadNull(m: Memory, ptbr: int, tlb: Tlb): Option<Memory>
  {
    match Resolve(m, ptbr, tlb, 0)
    case None => None
    case Some(r) => Some(m[Index(r.address) := EXIT_CODE])
  }

  method LoadNullProcess(mmu: Mmu) returns (ptbr: Option<uint32>)
    requires mmu.Valid() && mmu.ps.Valid() && mmu.tlb as object != mmu.ps.memory
    modifies mmu.tlb, mmu.ps.memory, mmu.ps.blocks, mmu.ps.blocks.repr
    ensures match MallocTable(old(mmu.ps.Words()), old(mmu.ps.blocks.contents), FramesFor(1))
      case None => ptbr == None
      case Some(n) =>
        match LoadNull(n.memory, n.table.ptbr, old(mmu.Slots()))
        case None => ptbr == None
        case Some(m) =>
          && ptbr == Some(n.table.ptbr) && mmu.ps.Words() == m
          && mmu.ps.blocks.contents == n.free && mmu.Slots() == Flushed(mmu.tlb.Length)
  {
    hide MallocTable, Resolve;
    ghost var m, free := mmu.ps.Words(), mmu.ps.blocks.contents;
    var table := mmu.Malloc(1);
    if table == None {
      return None;
    }
    TableIsLow(m, free, FramesFor(1));
    var address := mmu.ResolveAddress(table.value, 0);
    if address == None {
      return None;
    }
    mmu.ps.WriteWord(address.value, EXIT_CODE);
    mmu.Flush();
    ptbr := Some(table.value);
  }

  lemma TableIsLow(m: Memory, free: seq<Block>, entries: nat)
    requires MallocTable(m, free, entries).Some?
    ensures 0 <= MallocTable(m, free, entries).value.table.ptbr <= KERNEL_END
  {
    AllocateConserves(free, TableRequest(entries), 0);
  }

  /**
    The null process from its loading on: a table is allocated for one word and EXIT to 0 is
    written there.  Then any machine that is put on the table with its program counter at 0
    and a coherent TLB stays at 0 for ever, and the allocator stays sound.
  */
  lemma LoadedNullProcessStays(k: Kernel, k1: Kernel, size: nat, s: Machine, n: nat)
    requires Sound(k) && MallocStep(k, k1, 1) && size > 0
    ensures var t := k1.tables[|k.tables|];
      match LoadNull(k1.memory, t.ptbr, Flushed(size))
      case None => false
      case Some(m) =>
        && Sound(k1.(memory := m))
        && (s.memory == m && s.ptbr == t.ptbr && Coherent(s.tlb, t) && s.cpu.pc == 0 ==>
              match Steps(s, n)
              case None => false
              case Some(s') => s'.memory == m && s'.cpu == if n == 0 then s.cpu else s.cpu.(ir := EXIT_CODE))
  {
    hide Steps, Resolve, Coherent, WordIndex, TableAt, Sound;
    var j := |k.tables|;
    var t := k1.tables[j];
    FreshTable(k, k1, 1);
    FlushedIsCoherent(size, t);
    assert U32(0) == 0;
    ResolveWord(t, k1.memory, Flushed(size), 1, 0);
    StoreLine(t, k1.memory, 1, 0, EXIT_CODE);
    var m := LoadNull(k1.memory, t.ptbr, Flushed(size)).value;
    UserSound(k1, k1.(memory := m), j);
    if s.memory == m && s.ptbr == t.ptbr && Coherent(s.tlb, t) && s.cpu.pc == 0 {
      NullProcessStays(t, s, n);
    }
  }
}
