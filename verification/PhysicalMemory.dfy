/**
  The physical memory object: an array of bytes read and written a big-endian word at a
  time, and the linked list of free blocks.  Every method is proved against the function
  on words and block sequences that the other modules reason about.
*/
module PhysicalMemories {
  import opened Options
  import opened Sorting
  import opened Words
  import opened LinkedLists
  import opened FreeBlocks
  import opened PageTables

  /** Four bytes, most significant first. */
  function BigEndian(b0: uint8, b1: uint8, b2: uint8, b3: uint8): uint32
  {
    ((b0 * 256 + b1) * 256 + b2) * 256 + b3
  }

  function Byte(word: uint32, i: nat): uint8
    requires i < 4
  {
    (if i == 3 then word
     else if i == 2 then word / 256
     else if i == 1 then word / 256 / 256
     else word / 256 / 256 / 256) % 256
  }

  lemma BytesOfWord(word: uint32)
    ensures BigEndian(Byte(word, 0), Byte(word, 1), Byte(word, 2), Byte(word, 3)) == word
  {
  }

  function HolderTest(address: int): Block -> bool
  {
    (b: Block) => b.Has(address)
  }

  lemma HolderIsCovered(s: seq<Block>, address: int)
    ensures FirstMatch(HolderTest(address), s) < |s| <==> Covered(s, address)
  {
    if Covered(s, address) {
      var i :| 0 <= i < |s| && s[i].Has(address);
      assert HolderTest(address)(s[i]);
    }
  }

  class PhysicalMemory {
    const memory: array<uint8>
    const blocks: List<Block>

    ghost predicate Valid()
      reads this, blocks, blocks.repr
    {
      memory.Length == ADDRESSES && blocks.Valid()
    }

    ghost function WordAt(i: nat): uint32
      requires memory.Length == ADDRESSES && i < WORDS
      reads memory
    {
      BigEndian(memory[4 * i], memory[4 * i + 1], memory[4 * i + 2], memory[4 * i + 3])
    }

    /** Memory as words. */
    ghost function Words(): Memory
      requires memory.Length == ADDRESSES
      reads memory
    {
      seq(WORDS, i requires 0 <= i < WORDS && memory.Length == ADDRESSES reads memory => WordAt(i))
    }

    /** One block that is all of memory; what the bytes hold is not specified. */
    constructor ()
      ensures Valid() && fresh(memory) && fresh(blocks) && fresh(blocks.repr)
      ensures blocks.contents == [Block(KERNEL_START, USER_END)]
    {
      memory := new uint8[ADDRESSES](_ => 0);
      blocks := new List<Block>();
      new;
      blocks.Push(Block(KERNEL_START, USER_END));
    }

    // ----- words

    method ReadWord(address: uint32) returns (data: uint32)
      requires memory.Length == ADDRESSES
      ensures data == Words()[Index(address)]
    {
      var start := Index(address) * 4;
      var value: int := 0;
      var i := 0;
      while i < 4
        invariant 0 <= i <= 4
        invariant value == (if i == 0 then 0 else if i == 1 then memory[start] as int
                            else if i == 2 then memory[start] * 256 + memory[start + 1]
                            else if i == 3 then (memory[start] * 256 + memory[start + 1]) * 256 + memory[start + 2]
                            else WordAt(Index(address)))
      {
        value := value * 256;
        value := value + memory[start + i];
        i := i + 1;
      }
      data := value;
    }

    method WriteWord(address: uint32, word: uint32)
      requires memory.Length == ADDRESSES
      modifies memory
      ensures Words() == old(Words())[Index(address) := word]
    {
      var start := Index(address) * 4;
      var data: uint32 := word;
      var i := 4;
      while i > 0
        invariant 0 <= i <= 4
        invariant forall j :: i <= j < 4 ==> memory[start + j] == Byte(word, j)
        invariant forall j :: 0 <= j < ADDRESSES && !(start + i <= j < start + 4) ==> memory[j] == old(memory[j])
        invariant data == if i == 4 then word else if i == 3 then word / 256 else if i == 2 then word / 256 / 256
                          else if i == 1 then word / 256 / 256 / 256 else 0
      {
        i := i - 1;
        memory[start + i] := data % 256;
        data := data / 256;
      }
      BytesOfWord(word);
      assert WordAt(Index(address)) == word;
    }

    // ----- the free blocks

    /** Takes a range out of the first block with room for it; the unused ends are pushed back. */
    method AllocationProcedure(q: Request) returns (address: Option<int>)
      requires Valid()
      modifies blocks, blocks.repr
      ensures Valid() && fresh(blocks.repr - old(blocks.repr))
      ensures match Allocate(old(blocks.contents), q)
        case None => address == None && blocks.contents == old(blocks.contents)
        case Some(r) => address == Some(r.address) && blocks.contents == r.free
    {
      hide List.Valid;
      var fb := blocks.PopFirstMatch(FitTest(q));
      if fb == None {
        return None;
      }
      var b := fb.value;
      var start := b.start;
      if b.start < q.low {
        start := q.low;
        blocks.Push(Block(b.start, q.low - 1));
      }
      b := b.(start := start + q.size);
      if b.start <= b.end {
        blocks.Push(b);
      }
      address := Some(start);
    }

    method FrameMalloc() returns (address: Option<int>)
      requires Valid()
      modifies blocks, blocks.repr
      ensures Valid() && fresh(blocks.repr - old(blocks.repr))
      ensures match Allocate(old(blocks.contents), FRAME_REQUEST)
        case None => address == None && blocks.contents == old(blocks.contents)
        case Some(r) => address == Some(r.address) && blocks.contents == r.free
    {
      address := AllocationProcedure(Request(FRAME_SIZE, USER_START, USER_END));
    }

    /** Whether some free block holds the address. */
    method IsFree(address: uint32) returns (free: bool)
      requires Valid()
      ensures free <==> Covered(blocks.contents, address)
    {
      HolderIsCovered(blocks.contents, address);
      var holder := blocks.PeekFirstMatch(HolderTest(address));
      free := holder != None;
    }

    /** Gives one frame back, unless its first address is free already. */
    method FrameFree(address: uint32) returns (ok: bool)
      requires Valid()
      modifies blocks, blocks.repr
      ensures Valid() && fresh(blocks.repr - old(blocks.repr))
      ensures ok <==> !Covered(old(blocks.contents), FrameBase(U24(address)))
      ensures blocks.contents ==
        old(blocks.contents) + if ok then [Range(FrameBase(U24(address)), FRAME_SIZE)] else []
    {
      hide List.Valid;
      var start := FrameBase(U24(address));
      var free := IsFree(start);
      if free {
        return false;
      }
      blocks.Push(Block(start, start + FRAME_SIZE - 1));
      ok := true;
    }

    /** Fills the array with frames, or fails with the first one that is refused. */
    method FrameMallocBulk(frames: array<int>) returns (ok: bool)
      requires Valid()
      modifies frames, blocks, blocks.repr
      ensures Valid() && fresh(blocks.repr - old(blocks.repr))
      ensures match AllocateFrames(old(blocks.contents), frames.Length)
        case None => !ok
        case Some(fs) => ok && frames[..] == fs.addresses && blocks.contents == fs.free
    {
      hide List.Valid, Allocate;
      var i := 0;
      while i < frames.Length
        invariant 0 <= i <= frames.Length && Valid() && fresh(blocks.repr - old(blocks.repr))
        invariant AllocateFrames(old(blocks.contents), i) == Some(Frames(frames[..i], blocks.contents))
      {
        var address := FrameMalloc();
        if address == None {
          RefusalLasts(old(blocks.contents), i + 1, frames.Length);
          return false;
        }
        frames[i] := address.value;
        i := i + 1;
        assert frames[..i] == frames[..i - 1] + [address.value];
      }
      assert frames[..i] == frames[..];
      ok := true;
    }

    /** The writing half of allocating a table: the number of entries, then the entries. */
    method WritePageTable(ptbr: int, frames: array<int>)
      requires memory.Length == ADDRESSES && frames as object != memory
      modifies memory
      ensures Words() == WriteTable(old(Words()), Table(ptbr, frames[..]))
    {
      ghost var fs := frames[..];
      ghost var m := Words()[Index(ptbr) := U32(|fs|)];
      IndexWraps(ptbr);
      WriteWord(U32(ptbr), U32(frames.Length));
      var address := ptbr + 4;
      var i := 0;
      while i < frames.Length
        invariant 0 <= i <= frames.Length && address == EntryAddress(ptbr, i)
        invariant frames[..] == fs && Words() == WriteEntries(m, ptbr, fs, i)
      {
        IndexWraps(address);
        WriteWord(U32(address), U32(frames[i]));
        address := address + 4;
        i := i + 1;
      }
    }

    /** A table with its frames: `None` is where the source calls `err`. */
    method PageTableMalloc(entries: nat) returns (ptbr: Option<int>)
      requires Valid()
      modifies memory, blocks, blocks.repr
      ensures Valid() && fresh(blocks.repr - old(blocks.repr))
      ensures match MallocTable(old(Words()), old(blocks.contents), entries)
        case None => ptbr == None
        case Some(n) => ptbr == Some(n.table.ptbr) && Words() == n.memory && blocks.contents == n.free
    {
      hide List.Valid, WriteTable;
      var result := AllocationProcedure(Request(4 + 4 * entries, KERNEL_START, KERNEL_END));
      if result == None {
        return None;
      }
      var frames := new int[entries];
      var ok := FrameMallocBulk(frames);
      if !ok {
        return None;
      }
      WritePageTable(result.value, frames);
      ptbr := result;
    }

    /** The frames that `entries` words from `address` on name. */
    method FreeEntries(address: int, entries: nat) returns (ok: bool)
      requires Valid()
      modifies blocks, blocks.repr
      ensures Valid() && fresh(blocks.repr - old(blocks.repr))
      ensures match FreeFrames(Words(), old(blocks.contents), address, entries)
        case None => !ok
        case Some(free) => ok && blocks.contents == free
    {
      hide List.Valid;
      ghost var m := Words();
      ghost var given := FreeFrames(m, blocks.contents, address, entries);
      var current := address;
      var i := 0;
      while i < entries
        invariant 0 <= i <= entries && Valid() && fresh(blocks.repr - old(blocks.repr))
        invariant current == address + 4 * i && Words() == m
        invariant given == FreeFrames(m, blocks.contents, current, entries - i)
      {
        IndexWraps(current);
        var frame := ReadWord(U32(current));
        ok := FrameFree(frame);
        if !ok {
          return false;
        }
        current := current + 4;
        i := i + 1;
      }
      ok := true;
    }

    /** Gives a table and the frames that its entries name back; `false` is where the source calls `err`. */
    method PageTableFree(ptbr: uint32) returns (ok: bool)
      requires Valid()
      modifies blocks, blocks.repr
      ensures Valid() && fresh(blocks.repr - old(blocks.repr))
      ensures match FreeTable(Words(), old(blocks.contents), ptbr)
        case None => !ok
        case Some(free) => ok && blocks.contents == free
    {
      hide List.Valid, Covered, FreeFrames;
      ghost var m := Words();
      var free := IsFree(ptbr);
      if free {
        return false;
      }
      var entries := ReadWord(ptbr);
      blocks.Push(Range(ptbr, 4 + 4 * entries as int));
      assert Words() == m;
      assert EntryAddress(ptbr, 0) == ptbr as int + 4;
      ok := FreeEntries(ptbr as int + 4, entries);
      assert Words() == m;
    }

    /** The block of `current` takes over the end of the next one, which is unlinked. */
    method AbsorbNext(current: Node<Block>, next: Node<Block>, ghost i: nat)
      requires Valid() && i + 1 < |blocks.nodes| && current == blocks.nodes[i] && next == blocks.nodes[i + 1]
      modifies blocks, blocks.repr
      ensures Valid() && blocks.repr == old(blocks.repr)
      ensures blocks.nodes == Without(old(blocks.nodes), i + 1)
      ensures var s := old(blocks.contents);
        blocks.contents == Without(s[i := Block(s[i].start, s[i + 1].end)], i + 1)
    {
      blocks.Store(current, i, Block(current.data.start, next.data.end));
      var dropped := blocks.Unlink(current, next, i + 1);
    }

    /**
      Sorts the list and walks it once.  A block that touches or overlaps its successor takes
      over the successor's end, and the successor is unlinked; the second condition of the
      source implies the first and never decides anything.
    */
    method OptimizeFreeBlockList()
      requires Valid()
      modifies blocks, blocks.repr
      ensures Valid() && blocks.repr == old(blocks.repr)
      ensures blocks.contents == Optimize(old(blocks.contents))
    {
      hide Coalesce, Sort;
      ghost var total := Optimize(blocks.contents);
      blocks.MergeSort(CompareStart);
      var current := blocks.first;
      ghost var i := 0;
      while current != null && current.next != null
        invariant Valid() && blocks.repr == old(blocks.repr)
        invariant 0 <= i <= |blocks.nodes| && current == At(blocks.nodes, i)
        invariant total == blocks.contents[..i] + Coalesce(blocks.contents[i..])
        decreases |blocks.contents| - i
      {
        ghost var s := blocks.contents;
        var next := current.next;
        if current.data.end + 1 >= next.data.start {
          CoalesceTouching(s, i);
          AbsorbNext(current, next, i);
        } else {
          CoalesceApart(s, i);
          current := next;
          i := i + 1;
        }
      }
      CoalesceEnd(blocks.contents, i);
    }
  }

  lemma CoalesceTouching(s: seq<Block>, i: nat)
    requires i + 1 < |s| && s[i].end + 1 >= s[i + 1].start
    ensures var t := Without(s[i := Block(s[i].start, s[i + 1].end)], i + 1);
      s[..i] + Coalesce(s[i..]) == t[..i] + Coalesce(t[i..])
  {
    var t := Without(s[i := Block(s[i].start, s[i + 1].end)], i + 1);
    assert t[i..] == [Block(s[i].start, s[i + 1].end)] + s[i..][2..];
    assert t[..i] == s[..i];
  }

  lemma CoalesceEnd(s: seq<Block>, i: nat)
    requires i <= |s| <= i + 1
    ensures s[..i] + Coalesce(s[i..]) == s
  {
    assert s == s[..i] + s[i..];
  }

  lemma CoalesceApart(s: seq<Block>, i: nat)
    requires i + 1 < |s| && s[i].end + 1 < s[i + 1].start
    ensures s[..i] + Coalesce(s[i..]) == s[..i + 1] + Coalesce(s[i + 1..])
  {
    assert s[i..][1..] == s[i + 1..];
  }

  lemma RefusalLasts(free: seq<Block>, m: nat, n: nat)
    requires m <= n && AllocateFrames(free, m).None?
    ensures AllocateFrames(free, n).None?
  {
    if m < n {
      RefusalLasts(free, m, n - 1);
    }
  }
}
