/**
  Frames and page tables: what the allocator hands to a process, where it writes it down,
  and what it takes back.  `Kernel` is the allocator's state together with the list of
  the tables that are live; `Sound` is the invariant that every operation keeps.
*/
module PageTables {
  import opened Options
  import opened Division
  import opened Words
  import opened LinkedLists
  import opened FreeBlocks

  // ----- frames

  const FRAME_REQUEST := Request(FRAME_SIZE, USER_START, USER_END)

  function TableRequest(entries: nat): Request
  {
    Request(4 + 4 * entries, KERNEL_START, KERNEL_END)
  }

  datatype Frames = Frames(addresses: seq<int>, free: seq<Block>)

  /** `n` frames, one after the other; the run ends where one is refused. */
  function AllocateFrames(free: seq<Block>, n: nat): Option<Frames>
  {
    if n == 0 then Some(Frames([], free))
    else match AllocateFrames(free, n - 1)
      case None => None
      case Some(fs) =>
        match Allocate(fs.free, FRAME_REQUEST)
        case None => None
        case Some(r) => Some(Frames(fs.addresses + [r.address], r.free))
  }

  ghost function FrameBlocks(fs: seq<int>): seq<Block>
  {
    seq(|fs|, i requires 0 <= i < |fs| => Range(fs[i], FRAME_SIZE))
  }

  ghost predicate GoodFrames(fs: seq<int>)
  {
    forall f | f in fs :: f % FRAME_SIZE == 0 && USER_START <= f && f + FRAME_SIZE - 1 <= USER_END
  }

  lemma {:induction false} FramesConserve(free: seq<Block>, n: nat, a: int)
    requires AllocateFrames(free, n).Some?
    ensures var fs := AllocateFrames(free, n).value;
      |fs.addresses| == n && Cover(free, a) == Cover(fs.free, a) + Cover(FrameBlocks(fs.addresses), a)
  {
    hide Allocate;
    if n > 0 {
      FramesConserve(free, n - 1, a);
      var fs := AllocateFrames(free, n - 1).value;
      var r := Allocate(fs.free, FRAME_REQUEST).value;
      AllocateConserves(fs.free, FRAME_REQUEST, a);
      assert FrameBlocks(fs.addresses + [r.address]) == FrameBlocks(fs.addresses) + [Range(r.address, FRAME_SIZE)];
      CoverOfConcat(FrameBlocks(fs.addresses), [Range(r.address, FRAME_SIZE)], a);
      CoverOfOne(Range(r.address, FRAME_SIZE), a);
    }
  }

  lemma {:induction false} FramesAreGood(free: seq<Block>, n: nat)
    requires AllocateFrames(free, n).Some? && WellPlaced(free)
    ensures GoodFrames(AllocateFrames(free, n).value.addresses)
    ensures WellPlaced(AllocateFrames(free, n).value.free)
  {
    hide Allocate, WellPlaced;
    if n > 0 {
      FramesAreGood(free, n - 1);
      var fs := AllocateFrames(free, n - 1).value;
      AllocateConserves(fs.free, FRAME_REQUEST, 0);
      AllocateWellPlaced(fs.free, FRAME_REQUEST);
    }
  }

  /** The frames stand in the order in which they were handed out. */
  lemma {:induction false} FramesInOrder(free: seq<Block>, n: nat, i: nat)
    requires AllocateFrames(free, n).Some? && i < n
    ensures |AllocateFrames(free, n).value.addresses| == n
    ensures match AllocateFrames(free, i)
      case None => false
      case Some(fs) =>
        && Allocate(fs.free, FRAME_REQUEST).Some?
        && Allocate(fs.free, FRAME_REQUEST).value.address == AllocateFrames(free, n).value.addresses[i]
  {
    hide Allocate;
    FramesConserve(free, n - 1, 0);
    if i < n - 1 {
      FramesInOrder(free, n - 1, i);
    }
  }

  /** A frame is refused if and only if no free block has 256 addresses in the upper three quarters of memory. */
  lemma FrameRefusedExactly(free: seq<Block>)
    ensures Allocate(free, FRAME_REQUEST).None? <==>
      forall b, a :: b in free ==> !RoomAt(b, 256, 0x40_0000, 0xFF_FFFF, a)
  {
    hide RoomAt;
    AllocatesFirstAndLowest(free, FRAME_REQUEST);
  }

  /** The place for a table is refused if and only if no free block has room for it in the lowest quarter. */
  lemma TableRefusedExactly(free: seq<Block>, entries: nat, size: nat)
    requires size == 4 + 4 * entries
    ensures Allocate(free, TableRequest(entries)).None? <==>
      forall b, a :: b in free ==> !RoomAt(b, size, 0, 0x3F_FFFF, a)
  {
    hide RoomAt;
    AllocatesFirstAndLowest(free, TableRequest(entries));
  }

  // ----- tables

  /** A page table at `ptbr`: the number of entries, then one frame address an entry. */
  datatype Table = Table(ptbr: int, frames: seq<int>)

  function EntryAddress(ptbr: int, page: int): int
  {
    ptbr + 4 + 4 * page
  }

  ghost function TableBlock(t: Table): Block
  {
    Range(t.ptbr, 4 + 4 * |t.frames|)
  }

  ghost function BlocksOf(t: Table): seq<Block>
  {
    [TableBlock(t)] + FrameBlocks(t.frames)
  }

  ghost function LiveBlocks(ts: seq<Table>): seq<Block>
  {
    if ts == [] then [] else BlocksOf(ts[0]) + LiveBlocks(ts[1..])
  }

  ghost predicate GoodTable(t: Table)
  {
    && t.ptbr % 4 == 0 && KERNEL_START <= t.ptbr && t.ptbr + 4 + 4 * |t.frames| - 1 <= KERNEL_END
    && GoodFrames(t.frames)
  }

  /** The table stands in memory. */
  ghost predicate Stored(m: Memory, t: Table)
  {
    && m[Index(t.ptbr)] == |t.frames|
    && forall p {:trigger t.frames[p]} :: 0 <= p < |t.frames| ==> m[Index(EntryAddress(t.ptbr, p))] == t.frames[p]
  }

  function WriteEntries(m: Memory, ptbr: int, frames: seq<int>, n: nat): Memory
    requires n <= |frames|
  {
    if n == 0 then m else WriteEntries(m, ptbr, frames, n - 1)[Index(EntryAddress(ptbr, n - 1)) := U32(frames[n - 1])]
  }

  /** The number of entries, then the entries. */
  function WriteTable(m: Memory, t: Table): Memory
  {
    WriteEntries(m[Index(t.ptbr) := U32(|t.frames|)], t.ptbr, t.frames, |t.frames|)
  }

  datatype NewTable = NewTable(table: Table, memory: Memory, free: seq<Block>)

  /** Room for the table first, then its frames, then the table is written. */
  function MallocTable(m: Memory, free: seq<Block>, entries: nat): Option<NewTable>
  {
    match Allocate(free, TableRequest(entries))
    case None => None
    case Some(r) =>
      match AllocateFrames(r.free, entries)
      case None => None
      case Some(fs) =>
        var t := Table(r.address, fs.addresses);
        Some(NewTable(t, WriteTable(m, t), fs.free))
  }

  lemma EntryIndex(t: Table, p: int)
    requires GoodTable(t) && -1 <= p < |t.frames|
    ensures Index(EntryAddress(t.ptbr, p)) == t.ptbr / 4 + 1 + p
  {
  }

  lemma {:induction false} WriteEntriesAt(m: Memory, t: Table, n: nat, i: nat)
    requires GoodTable(t) && n <= |t.frames| && i < WORDS
    ensures var k := i - t.ptbr / 4 - 1;
      WriteEntries(m, t.ptbr, t.frames, n)[i] == if 0 <= k < n then t.frames[k] else m[i]
  {
    if n > 0 {
      WriteEntriesAt(m, t, n - 1, i);
      EntryIndex(t, n - 1);
      assert t.frames[n - 1] in t.frames;
    }
  }

  /** The table stands in memory afterwards, and nothing else was written. */
  lemma WriteTableAt(m: Memory, t: Table)
    requires GoodTable(t)
    ensures Stored(WriteTable(m, t), t)
    ensures forall i :: 0 <= i < WORDS && !TableBlock(t).Has(4 * i) ==> WriteTable(m, t)[i] == m[i]
  {
    var m0 := m[Index(t.ptbr) := U32(|t.frames|)];
    EntryIndex(t, -1);
    forall i | 0 <= i < WORDS && !TableBlock(t).Has(4 * i) ensures WriteTable(m, t)[i] == m[i] {
      WriteEntriesAt(m0, t, |t.frames|, i);
    }
    WriteEntriesAt(m0, t, |t.frames|, Index(t.ptbr));
    forall p | 0 <= p < |t.frames| ensures WriteTable(m, t)[Index(EntryAddress(t.ptbr, p))] == t.frames[p] {
      EntryIndex(t, p);
      WriteEntriesAt(m0, t, |t.frames|, Index(EntryAddress(t.ptbr, p)));
    }
  }

  /** A table stays as it is while the words under it do. */
  lemma StoredDepends(m: Memory, m': Memory, t: Table)
    requires GoodTable(t) && Stored(m, t)
    requires forall i :: 0 <= i < WORDS && TableBlock(t).Has(4 * i) ==> m'[i] == m[i]
    ensures Stored(m', t)
  {
    EntryIndex(t, -1);
    forall p | 0 <= p < |t.frames| ensures m'[Index(EntryAddress(t.ptbr, p))] == t.frames[p] {
      EntryIndex(t, p);
    }
  }

  // ----- giving back

  /** The entries are read back from memory, and every frame is checked not to be free already. */
  function FreeFrames(m: Memory, free: seq<Block>, address: int, n: nat): Option<seq<Block>>
    decreases n
  {
    if n == 0 then Some(free) else
      var start := FrameBase(U24(m[Index(address)]));
      if Covered(free, start) then None
      else FreeFrames(m, free + [Range(start, FRAME_SIZE)], address + 4, n - 1)
  }

  function FreeTable(m: Memory, free: seq<Block>, ptbr: int): Option<seq<Block>>
  {
    if Covered(free, ptbr) then None
    else
      var entries: int := m[Index(ptbr)];
      FreeFrames(m, free + [Range(ptbr, 4 + 4 * entries)], EntryAddress(ptbr, 0), entries)
  }

  /** The frames that `n` words of memory list. */
  ghost function ListedFrames(m: Memory, address: int, n: nat): seq<int>
  {
    seq(n, i requires 0 <= i < n => FrameBase(U24(m[Index(address + 4 * i)])))
  }

  /** No listed frame is free, or listed twice. */
  ghost predicate AllHeld(free: seq<Block>, fs: seq<int>)
  {
    forall i :: 0 <= i < |fs| ==> !Covered(free + FrameBlocks(fs[..i]), fs[i])
  }

  lemma ListedFirst(m: Memory, address: int, n: nat)
    requires n > 0
    ensures ListedFrames(m, address, n) == [FrameBase(U24(m[Index(address)]))] + ListedFrames(m, address + 4, n - 1)
  {
    forall i | 0 < i < n ensures ListedFrames(m, address, n)[i] == ListedFrames(m, address + 4, n - 1)[i - 1] {
      assert address + 4 * i == (address + 4) + 4 * (i - 1);
    }
  }

  lemma OneFrameMore(free: seq<Block>, f: int, fs: seq<int>)
    ensures free + FrameBlocks([f] + fs) == (free + [Range(f, FRAME_SIZE)]) + FrameBlocks(fs)
  {
    assert FrameBlocks([f] + fs) == [Range(f, FRAME_SIZE)] + FrameBlocks(fs);
  }

  lemma HeldAt(free: seq<Block>, f: int, fs: seq<int>, i: nat)
    requires i < |fs|
    ensures Covered(free + FrameBlocks(([f] + fs)[..i + 1]), ([f] + fs)[i + 1])
      <==> Covered((free + [Range(f, FRAME_SIZE)]) + FrameBlocks(fs[..i]), fs[i])
  {
    hide Covered, FrameBlocks;
    assert ([f] + fs)[..i + 1] == [f] + fs[..i];
    OneFrameMore(free, f, fs[..i]);
  }

  lemma HeldAtStart(free: seq<Block>, gs: seq<int>)
    requires gs != []
    ensures Covered(free + FrameBlocks(gs[..0]), gs[0]) <==> Covered(free, gs[0])
  {
    assert free + FrameBlocks(gs[..0]) == free;
  }

  lemma HeldFirst(free: seq<Block>, f: int, fs: seq<int>)
    ensures AllHeld(free, [f] + fs) <==> !Covered(free, f) && AllHeld(free + [Range(f, FRAME_SIZE)], fs)
  {
    hide Covered, FrameBlocks;
    var gs, held := [f] + fs, free + [Range(f, FRAME_SIZE)];
    HeldAtStart(free, gs);
    if AllHeld(free, gs) {
      forall i | 0 <= i < |fs| ensures !Covered(held + FrameBlocks(fs[..i]), fs[i]) {
        HeldAt(free, f, fs, i);
      }
    }
    if !Covered(free, f) && AllHeld(held, fs) {
      forall i | 0 <= i < |gs| ensures !Covered(free + FrameBlocks(gs[..i]), gs[i]) {
        if i > 0 {
          HeldAt(free, f, fs, i - 1);
        }
      }
    }
  }

  lemma {:induction false} FreeFramesExactly(m: Memory, free: seq<Block>, address: int, n: nat)
    ensures FreeFrames(m, free, address, n) ==
      if AllHeld(free, ListedFrames(m, address, n)) then Some(free + FrameBlocks(ListedFrames(m, address, n))) else None
    decreases n
  {
    hide Covered, AllHeld, ListedFrames, FrameBlocks;
    if n > 0 {
      var f := FrameBase(U24(m[Index(address)]));
      ListedFirst(m, address, n);
      HeldFirst(free, f, ListedFrames(m, address + 4, n - 1));
      OneFrameMore(free, f, ListedFrames(m, address + 4, n - 1));
      FreeFramesExactly(m, free + [Range(f, FRAME_SIZE)], address + 4, n - 1);
    } else {
      NothingListed(m, free, address);
    }
  }

  lemma NothingListed(m: Memory, free: seq<Block>, address: int)
    ensures ListedFrames(m, address, 0) == [] && AllHeld(free, []) && free + FrameBlocks([]) == free
  {
  }

  /**
    For any memory: freeing a table is refused if and only if the first address of the table or
    of one of the frames that it lists is free by then; otherwise all of them are given back.
  */
  lemma FreeTableRefusedExactly(m: Memory, free: seq<Block>, ptbr: int)
    ensures var n: nat := m[Index(ptbr)];
      var held := free + [Range(ptbr, 4 + 4 * n)];
      var fs := ListedFrames(m, ptbr + 4, n);
      FreeTable(m, free, ptbr) ==
        if !Covered(free, ptbr) && AllHeld(held, fs) then Some(held + FrameBlocks(fs)) else None
  {
    var n: nat := m[Index(ptbr)];
    FreeFramesExactly(m, free + [Range(ptbr, 4 + 4 * n)], ptbr + 4, n);
  }

  /** The next frame to give back is not free yet. */
  lemma NextFrameIsHeld(free: seq<Block>, t: Table, p: nat)
    requires p < |t.frames| && Disjoint(free + FrameBlocks(t.frames[p..]))
    ensures !Covered(free, t.frames[p])
    ensures free + FrameBlocks(t.frames[p..])
         == (free + [Range(t.frames[p], FRAME_SIZE)]) + FrameBlocks(t.frames[p + 1..])
  {
    var f := t.frames[p];
    var rest := FrameBlocks(t.frames[p..]);
    assert rest == [Range(f, FRAME_SIZE)] + FrameBlocks(t.frames[p + 1..]);
    CoverOfConcat(free, rest, f);
    CoveredIsCover(free, f);
    assert Cover(rest, f) >= 1;
  }

  lemma {:induction false} FreeFramesGivesBack(m: Memory, free: seq<Block>, t: Table, p: nat)
    requires GoodTable(t) && Stored(m, t) && p <= |t.frames|
    requires Disjoint(free + FrameBlocks(t.frames[p..]))
    ensures FreeFrames(m, free, EntryAddress(t.ptbr, p), |t.frames| - p) == Some(free + FrameBlocks(t.frames[p..]))
    decreases |t.frames| - p
  {
    hide Covered, Disjoint;
    if p < |t.frames| {
      var f := t.frames[p];
      NextFrameIsHeld(free, t, p);
      assert f in t.frames && m[Index(EntryAddress(t.ptbr, p))] == f;
      assert FrameBase(U24(f)) == f;
      FreeFramesGivesBack(m, free + [Range(f, FRAME_SIZE)], t, p + 1);
    } else {
      assert free + FrameBlocks(t.frames[p..]) == free;
    }
  }

  /** Freeing a table that stands in memory gives back its own block and each of its frames. */
  lemma FreeTableGivesBack(m: Memory, free: seq<Block>, t: Table)
    requires GoodTable(t) && Stored(m, t) && Disjoint(free + BlocksOf(t))
    ensures FreeTable(m, free, t.ptbr) == Some(free + BlocksOf(t))
  {
    assert free + BlocksOf(t) == (free + [TableBlock(t)]) + FrameBlocks(t.frames);
    CoverOfConcat(free, BlocksOf(t), t.ptbr);
    CoveredIsCover(free, t.ptbr);
    assert Cover(BlocksOf(t), t.ptbr) >= 1;
    assert t.frames[0..] == t.frames;
    FreeFramesGivesBack(m, free + [TableBlock(t)], t, 0);
  }

  // ----- the whole allocator

  datatype Kernel = Kernel(memory: Memory, free: seq<Block>, tables: seq<Table>)

  ghost predicate Partition(free: seq<Block>, live: seq<Block>)
  {
    forall a :: Cover(free, a) + Cover(live, a) == Bit(0 <= a < ADDRESSES)
  }

  /** Free blocks and live allocations partition memory, and every live table stands in it. */
  ghost predicate Sound(k: Kernel)
  {
    && WellPlaced(k.free)
    && Partition(k.free, LiveBlocks(k.tables))
    && forall t | t in k.tables :: GoodTable(t) && Stored(k.memory, t)
  }

  ghost predicate Initial(k: Kernel)
  {
    k.free == [Block(KERNEL_START, USER_END)] && k.tables == []
  }

  /** The number of frames for so many words. */
  function FramesFor(words: nat): nat
  {
    words * 4 / FRAME_SIZE + if words * 4 % FRAME_SIZE != 0 then 1 else 0
  }

  ghost predicate MallocStep(k: Kernel, k': Kernel, words: nat)
  {
    match MallocTable(k.memory, k.free, FramesFor(words))
    case None => false
    case Some(n) => k' == Kernel(n.memory, n.free, k.tables + [n.table])
  }

  ghost predicate FreeStep(k: Kernel, k': Kernel, i: nat)
  {
    && i < |k.tables|
    && FreeTable(k.memory, k.free, k.tables[i].ptbr) == Some(k'.free)
    && k'.memory == k.memory && k'.tables == Without(k.tables, i)
  }

  ghost predicate OptimizeStep(k: Kernel, k': Kernel)
  {
    k' == k.(free := Optimize(k.free))
  }

  /** Words outside the frames of the table are untouched. */
  ghost predicate OnlyFramesOf(t: Table, m: Memory, m': Memory)
  {
    forall i :: 0 <= i < WORDS && Cover(FrameBlocks(t.frames), 4 * i) == 0 ==> m'[i] == m[i]
  }

  /** A process stores through its own table. */
  ghost predicate UserStep(k: Kernel, k': Kernel, i: nat)
  {
    && i < |k.tables|
    && k' == k.(memory := k'.memory)
    && OnlyFramesOf(k.tables[i], k.memory, k'.memory)
  }

  ghost predicate Next(k: Kernel, k': Kernel)
  {
    || (exists words :: MallocStep(k, k', words))
    || (exists i :: FreeStep(k, k', i))
    || OptimizeStep(k, k')
    || (exists i :: UserStep(k, k', i))
  }

  // ----- cover of the live tables

  lemma {:induction false} LiveOfConcat(ts: seq<Table>, us: seq<Table>)
    ensures LiveBlocks(ts + us) == LiveBlocks(ts) + LiveBlocks(us)
    decreases |ts|
  {
    if ts == [] {
      assert ts + us == us;
    } else {
      assert (ts + us)[1..] == ts[1..] + us;
      LiveOfConcat(ts[1..], us);
    }
  }

  lemma CoverOfLive(ts: seq<Table>, i: nat, a: int)
    requires i < |ts|
    ensures Cover(LiveBlocks(ts), a) == Cover(LiveBlocks(Without(ts, i)), a) + Cover(BlocksOf(ts[i]), a)
  {
    assert ts == ts[..i] + ([ts[i]] + ts[i + 1..]);
    LiveOfConcat(ts[..i], [ts[i]] + ts[i + 1..]);
    LiveOfConcat([ts[i]], ts[i + 1..]);
    LiveOfConcat(ts[..i], ts[i + 1..]);
    assert LiveBlocks([ts[i]]) == BlocksOf(ts[i]);
    CoverOfConcat(LiveBlocks(ts[..i]), BlocksOf(ts[i]) + LiveBlocks(ts[i + 1..]), a);
    CoverOfConcat(BlocksOf(ts[i]), LiveBlocks(ts[i + 1..]), a);
    CoverOfConcat(LiveBlocks(ts[..i]), LiveBlocks(ts[i + 1..]), a);
  }

  lemma CoverOfTable(t: Table, a: int)
    ensures Cover(BlocksOf(t), a) == Bit(TableBlock(t).Has(a)) + Cover(FrameBlocks(t.frames), a)
  {
    CoverOfConcat([TableBlock(t)], FrameBlocks(t.frames), a);
  }

  lemma DistinctTables(k: Kernel, i: nat, j: nat, a: int)
    requires Sound(k) && i < |k.tables| && j < |k.tables| && i != j
    ensures Cover(BlocksOf(k.tables[i]), a) + Cover(BlocksOf(k.tables[j]), a) <= 1
  {
    var ts := k.tables;
    CoverOfLive(ts, i, a);
    var us := Without(ts, i);
    var j' := if j < i then j else j - 1;
    assert us[j'] == ts[j];
    CoverOfLive(us, j', a);
  }

  // ----- every operation keeps the invariant

  lemma NewTableIsGood(free: seq<Block>, entries: nat, m: Memory)
    requires WellPlaced(free) && MallocTable(m, free, entries).Some?
    ensures var n := MallocTable(m, free, entries).value;
      && GoodTable(n.table) && |n.table.frames| == entries && WellPlaced(n.free)
      && n.memory == WriteTable(m, n.table)
      && forall a :: Cover(free, a) == Cover(n.free, a) + Cover(BlocksOf(n.table), a)
  {
    var q := TableRequest(entries);
    var r := Allocate(free, q).value;
    var n := MallocTable(m, free, entries).value;
    AllocateWellPlaced(free, q);
    FramesAreGood(r.free, entries);
    forall a ensures Cover(free, a) == Cover(n.free, a) + Cover(BlocksOf(n.table), a) {
      AllocateConserves(free, q, a);
      FramesConserve(r.free, entries, a);
      CoverOfTable(n.table, a);
    }
    AllocateConserves(free, q, 0);
    FramesConserve(r.free, entries, 0);
  }

  lemma LiveHas(ts: seq<Table>, t: Table, a: int)
    requires t in ts && TableBlock(t).Has(a)
    ensures Cover(LiveBlocks(ts), a) >= 1
  {
    var i :| 0 <= i < |ts| && ts[i] == t;
    CoverOfLive(ts, i, a);
    CoverOfTable(t, a);
  }

  lemma MallocSound(k: Kernel, k': Kernel, words: nat)
    requires Sound(k) && MallocStep(k, k', words)
    ensures Sound(k')
  {
    var n := MallocTable(k.memory, k.free, FramesFor(words)).value;
    NewTableIsGood(k.free, FramesFor(words), k.memory);
    WriteTableAt(k.memory, n.table);
    LiveOfConcat(k.tables, [n.table]);
    assert LiveBlocks([n.table]) == BlocksOf(n.table);
    forall a ensures Cover(k'.free, a) + Cover(LiveBlocks(k'.tables), a) == Bit(0 <= a < ADDRESSES) {
      CoverOfConcat(LiveBlocks(k.tables), BlocksOf(n.table), a);
    }
    forall t | t in k.tables ensures Stored(k'.memory, t) {
      forall i | 0 <= i < WORDS && TableBlock(t).Has(4 * i) ensures !TableBlock(n.table).Has(4 * i) {
        LiveHas(k.tables, t, 4 * i);
        CoverOfTable(n.table, 4 * i);
      }
      StoredDepends(k.memory, k'.memory, t);
    }
  }

  lemma LiveTableIsFreed(k: Kernel, i: nat)
    requires Sound(k) && i < |k.tables|
    ensures FreeTable(k.memory, k.free, k.tables[i].ptbr) == Some(k.free + BlocksOf(k.tables[i]))
    ensures WellPlaced(k.free + BlocksOf(k.tables[i]))
  {
    var t := k.tables[i];
    assert t in k.tables;
    forall a ensures Cover(k.free + BlocksOf(t), a) <= 1 {
      CoverOfConcat(k.free, BlocksOf(t), a);
      CoverOfLive(k.tables, i, a);
    }
    FreeTableGivesBack(k.memory, k.free, t);
    BlocksWellPlaced(t);
  }

  lemma FrameWellPlaced(f: int)
    requires f % FRAME_SIZE == 0 && USER_START <= f && f + FRAME_SIZE - 1 <= USER_END
    ensures StartsWell(f) && EndsWell(f + FRAME_SIZE - 1)
  {
    FrameEnds(f / 256);
  }

  lemma FrameEnds(q: nat)
    ensures 256 * q % 4 == 0 && (256 * q + 255) % 4 == 3 && (256 * q + 255) % 256 == 255
  {
    Quotient(256 * q, 4, 64 * q, 0);
    Quotient(256 * q + 255, 4, 64 * q + 63, 3);
    Quotient(256 * q + 255, 256, q, 255);
  }

  lemma BlocksWellPlaced(t: Table)
    requires GoodTable(t)
    ensures WellPlaced(BlocksOf(t))
  {
    var bs := BlocksOf(t);
    forall i: nat | i < |bs| ensures bs[i].start <= bs[i].end && StartsWell(bs[i].start) && EndsWell(bs[i].end) {
      if i > 0 {
        assert t.frames[i - 1] in t.frames;
        FrameWellPlaced(t.frames[i - 1]);
      }
    }
  }

  lemma FreeSound(k: Kernel, k': Kernel, i: nat)
    requires Sound(k) && FreeStep(k, k', i)
    ensures Sound(k')
  {
    LiveTableIsFreed(k, i);
    forall a ensures Cover(k'.free, a) + Cover(LiveBlocks(k'.tables), a) == Bit(0 <= a < ADDRESSES) {
      CoverOfConcat(k.free, BlocksOf(k.tables[i]), a);
      CoverOfLive(k.tables, i, a);
    }
  }

  lemma OptimizeSound(k: Kernel, k': Kernel)
    requires Sound(k) && OptimizeStep(k, k')
    ensures Sound(k') && Separated(k'.free)
  {
    assert Disjoint(k.free);
    OptimizeConserves(k.free);
  }

  lemma {:induction false} FramesAreHigh(fs: seq<int>, a: int)
    requires GoodFrames(fs) && a < USER_START
    ensures Cover(FrameBlocks(fs), a) == 0
    decreases |fs|
  {
    if fs != [] {
      assert fs[0] in fs;
      assert FrameBlocks(fs) == [Range(fs[0], FRAME_SIZE)] + FrameBlocks(fs[1..]);
      assert forall f | f in fs[1..] :: f in fs;
      FramesAreHigh(fs[1..], a);
    }
  }

  /** Stores into frames change no table. */
  lemma StoresKeepTables(t: Table, u: Table, m: Memory, m': Memory)
    requires GoodTable(t) && GoodTable(u) && Stored(m, u) && OnlyFramesOf(t, m, m')
    ensures Stored(m', u)
  {
    forall i | 0 <= i < WORDS && TableBlock(u).Has(4 * i) ensures m'[i] == m[i] {
      FramesAreHigh(t.frames, 4 * i);
    }
    StoredDepends(m, m', u);
  }

  lemma UserSound(k: Kernel, k': Kernel, i: nat)
    requires Sound(k) && UserStep(k, k', i)
    ensures Sound(k')
  {
    forall t | t in k.tables ensures Stored(k'.memory, t) {
      assert k.tables[i] in k.tables;
      StoresKeepTables(k.tables[i], t, k.memory, k'.memory);
    }
  }

  lemma NextSound(k: Kernel, k': Kernel)
    requires Sound(k) && Next(k, k')
    ensures Sound(k')
  {
    if words :| MallocStep(k, k', words) {
      MallocSound(k, k', words);
    } else if i :| FreeStep(k, k', i) {
      FreeSound(k, k', i);
    } else if OptimizeStep(k, k') {
      OptimizeSound(k, k');
    } else {
      var i :| UserStep(k, k', i);
      UserSound(k, k', i);
    }
  }

  lemma InitialSound(k: Kernel)
    requires Initial(k)
    ensures Sound(k)
  {
    forall a ensures Cover(k.free, a) == Bit(0 <= a < ADDRESSES) {
      CoverOfOne(k.free[0], a);
    }
  }

  ghost predicate Run(ks: seq<Kernel>)
  {
    && |ks| > 0 && Initial(ks[0])
    && forall i :: 0 <= i < |ks| - 1 ==> Next(ks[i], ks[i + 1])
  }

  /**
    In every state of every run of allocations, frees, coalescing passes and stores by
    processes, free blocks and live allocations partition memory, every block begins and
    ends on its boundary, and every live page table stands in memory unharmed.
  */
  lemma {:induction false} EveryRunIsSound(ks: seq<Kernel>, n: nat)
    requires Run(ks) && n < |ks|
    ensures Sound(ks[n])
  {
    if n == 0 {
      InitialSound(ks[0]);
    } else {
      EveryRunIsSound(ks, n - 1);
      NextSound(ks[n - 1], ks[n]);
    }
  }

  /**
    Malloc, any stores of the process, free: the free addresses are what they were, and
    freeing the table once more is refused.
  */
  lemma MallocFreeRoundTrip(k: Kernel, words: nat, k1: Kernel, k2: Kernel)
    requires Sound(k) && MallocStep(k, k1, words) && UserStep(k1, k2, |k.tables|)
    ensures var ptbr := k1.tables[|k.tables|].ptbr;
      match FreeTable(k2.memory, k2.free, ptbr)
      case None => false
      case Some(free) => (forall a :: Cover(free, a) == Cover(k.free, a)) && FreeTable(k2.memory, free, ptbr).None?
  {
    var i := |k.tables|;
    var t := k1.tables[i];
    MallocSound(k, k1, words);
    UserSound(k1, k2, i);
    LiveTableIsFreed(k2, i);
    var free := k2.free + BlocksOf(t);
    NewTableIsGood(k.free, FramesFor(words), k.memory);
    forall a ensures Cover(free, a) == Cover(k.free, a) {
      CoverOfConcat(k2.free, BlocksOf(t), a);
    }
    CoverOfTable(t, t.ptbr);
    CoveredIsCover(free, t.ptbr);
    assert free[|k2.free|] == TableBlock(t) && TableBlock(t).Has(t.ptbr);
  }

  /** The frame count rounds up, so a table for `words` words maps every one of them. */
  lemma EveryWordIsMapped(words: nat, i: nat)
    ensures i < words ==> 4 * i / 256 < FramesFor(words)
    ensures FramesFor(words) > 0 ==> 256 * (FramesFor(words) - 1) < 4 * words
  {
  }
}
