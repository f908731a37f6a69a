/**
  Virtual addresses: the page-table walk through memory, the direct-mapped TLB in front of
  it, and why the TLB never gives a frame that the walk would not.
*/
module Translation {
  import opened Options
  import opened Division
  import opened Words
  import opened FreeBlocks
  import opened PageTables

  datatype Pte = Pte(virt: uint32, phys: uint32, active: bool)

  type Tlb = s: seq<Pte> | s != [] witness [Pte(0, 0, false)]

  /** The frame that memory gives for the page; `err` ends the run where the table has no such page. */
  function Walk(m: Memory, ptbr: int, va: uint32): Option<uint32>
  {
    if PageOf(va) < m[Index(ptbr)] then Some(FrameBase(m[Index(EntryAddress(ptbr, PageOf(va)))])) else None
  }

  /** The bound as the source writes it lets the page behind the last one through. */
  function WalkAsWritten(m: Memory, ptbr: int, va: uint32): Option<uint32>
  {
    if m[Index(ptbr)] < PageOf(va) then None else Some(FrameBase(m[Index(EntryAddress(ptbr, PageOf(va)))]))
  }

  function Slot(va: uint32, size: nat): (i: nat)
    requires size > 0
    ensures i < size
  {
    LeftOver(PageOf(va), size)
  }

  /** The slot is the page number modulo the size of the TLB. */
  lemma SlotIsRemainder(va: uint32, size: nat)
    requires size > 0
    ensures Slot(va, size) == va / 256 % size
  {
    LeftOverIsRemainder(PageOf(va), size);
  }

  function Lookup(tlb: Tlb, va: uint32): Option<uint32>
  {
    var e := tlb[Slot(va, |tlb|)];
    if e.active && FrameBase(e.virt) == FrameBase(va) then Some(e.phys) else None
  }

  function Remember(tlb: Tlb, va: uint32, frame: uint32): Tlb
  {
    tlb[Slot(va, |tlb|) := Pte(FrameBase(va), FrameBase(frame), true)]
  }

  function Flushed(size: nat): Tlb
    requires size > 0
  {
    seq(size, _ => Pte(0, 0, false))
  }

  /** The frame, and the offset of the virtual address in it. */
  function Glue(frame: uint32, va: uint32): uint32
  {
    FrameBase(frame) + OffsetOf(va)
  }

  datatype Resolution = Resolution(address: uint32, tlb: Tlb)

  function Resolve(m: Memory, ptbr: int, tlb: Tlb, va: uint32): Option<Resolution>
  {
    match Lookup(tlb, va)
    case Some(frame) => Some(Resolution(Glue(frame, va), tlb))
    case None =>
      match Walk(m, ptbr, va)
      case None => None
      case Some(frame) => Some(Resolution(Glue(frame, va), Remember(tlb, va, frame)))
  }

  function ResolveByWalk(m: Memory, ptbr: int, va: uint32): Option<uint32>
  {
    match Walk(m, ptbr, va)
    case None => None
    case Some(frame) => Some(Glue(frame, va))
  }

  /** The slot holds a page of the table and the table's frame for it. */
  ghost predicate FilledBy(e: Pte, t: Table)
  {
    PageOf(e.virt) < |t.frames| && e.virt % 256 == 0 && e.phys == t.frames[PageOf(e.virt)]
  }

  /** Every active slot was filled by the table. */
  ghost predicate Coherent(tlb: Tlb, t: Table)
  {
    forall i :: 0 <= i < |tlb| && tlb[i].active ==> FilledBy(tlb[i], t)
  }

  /** The table is live at its place in memory. */
  ghost predicate TableAt(m: Memory, t: Table)
  {
    GoodTable(t) && Stored(m, t)
  }

  lemma WalkOfTable(m: Memory, t: Table, va: uint32)
    requires TableAt(m, t)
    ensures Walk(m, t.ptbr, va) == if PageOf(va) < |t.frames| then Some(t.frames[PageOf(va)]) else None
  {
    if PageOf(va) < |t.frames| {
      assert t.frames[PageOf(va)] in t.frames;
    }
  }

  /** The two bounds agree for every page but the one right behind the table. */
  lemma BoundAsWritten(m: Memory, ptbr: int, va: uint32)
    ensures WalkAsWritten(m, ptbr, va) == Walk(m, ptbr, va) <==> PageOf(va) != m[Index(ptbr)]
  {
  }

  lemma FlushedIsCoherent(size: nat, t: Table)
    requires size > 0
    ensures Coherent(Flushed(size), t)
  {
  }

  /**
    With a coherent TLB, whatever was evicted from its slots before, resolving an address
    fails exactly where the walk fails and gives the address that the walk gives, and the
    TLB stays coherent.
  */
  lemma ResolveIsWalk(m: Memory, t: Table, tlb: Tlb, va: uint32)
    requires TableAt(m, t) && Coherent(tlb, t)
    ensures match Resolve(m, t.ptbr, tlb, va)
      case None => ResolveByWalk(m, t.ptbr, va) == None
      case Some(r) => ResolveByWalk(m, t.ptbr, va) == Some(r.address) && Coherent(r.tlb, t) && |r.tlb| == |tlb|
  {
    WalkOfTable(m, t, va);
    var e := tlb[Slot(va, |tlb|)];
    if e.active && FrameBase(e.virt) == FrameBase(va) {
      assert PageOf(e.virt) == PageOf(va);
    } else if PageOf(va) < |t.frames| {
      assert PageOf(FrameBase(va)) == PageOf(va);
      assert t.frames[PageOf(va)] in t.frames;
    }
  }

  lemma FrameHolds(t: Table, p: nat, a: int)
    requires p < |t.frames| && t.frames[p] <= a < t.frames[p] + 256
    ensures Cover(FrameBlocks(t.frames), a) > 0
  {
    assert FrameBlocks(t.frames)[p].Has(a);
    CoveredIsCover(FrameBlocks(t.frames), a);
  }

  lemma WordInFrame(f: int, offset: int)
    requires 0 <= f && f + 255 < ADDRESSES && f % 256 == 0 && 0 <= offset < 256
    ensures f <= 4 * Index(f + offset) < f + 256
  {
    var q := f / 256;
    assert f == 256 * q;
    assert Index(f + offset) == (256 * q + offset) / 4 == 64 * q + offset / 4;
  }

  /** Where an address resolves to: inside the frame that the table lists, at the page offset. */
  lemma ResolvedAddress(m: Memory, t: Table, va: uint32)
    requires TableAt(m, t) && PageOf(va) < |t.frames|
    ensures ResolveByWalk(m, t.ptbr, va) == Some(t.frames[PageOf(va)] + va % 256)
    ensures Cover(FrameBlocks(t.frames), 4 * Index(t.frames[PageOf(va)] + va % 256)) > 0
  {
    WalkOfTable(m, t, va);
    assert t.frames[PageOf(va)] in t.frames;
    WordInFrame(t.frames[PageOf(va)], va % 256);
    FrameHolds(t, PageOf(va), 4 * Index(t.frames[PageOf(va)] + va % 256));
  }

  /** Two live tables have no frame in common. */
  lemma FramesDiffer(k: Kernel, i: nat, j: nat, p: nat, q: nat)
    requires Sound(k) && i < |k.tables| && j < |k.tables| && i != j
    requires p < |k.tables[i].frames| && q < |k.tables[j].frames|
    ensures k.tables[i].frames[p] != k.tables[j].frames[q]
  {
    var t, u := k.tables[i], k.tables[j];
    var a := t.frames[p];
    DistinctTables(k, i, j, a);
    CoverOfTable(t, a);
    CoverOfTable(u, a);
    FrameHolds(t, p, a);
    if u.frames[q] == a {
      FrameHolds(u, q, a);
      assert false;
    }
  }

  // ----- a TLB that several tables have filled

  /** Which table filled which slot last. */
  type Owners = nat -> nat

  ghost predicate Owned(ts: seq<Table>, tlb: Tlb, owner: Owners)
  {
    forall i :: 0 <= i < |tlb| && tlb[i].active ==>
      owner(i) < |ts| && FilledBy(tlb[i], ts[owner(i)])
  }

  /** What table `j` resolves is put into the slot, unless the slot answers. */
  ghost function OwnersAfter(tlb: Tlb, owner: Owners, j: nat, va: uint32): Owners
  {
    if Lookup(tlb, va).Some? then owner else (i: nat) => if i == Slot(va, |tlb|) then j else owner(i)
  }

  /** The slot does not answer, or was filled by table `j` itself. */
  ghost predicate Mine(tlb: Tlb, owner: Owners, j: nat, va: uint32)
  {
    Lookup(tlb, va).None? || owner(Slot(va, |tlb|)) == j
  }

  /** The address, or the failure, is that of the walk. */
  ghost predicate ResolvesRight(m: Memory, ptbr: int, tlb: Tlb, va: uint32)
  {
    match Resolve(m, ptbr, tlb, va)
    case None => ResolveByWalk(m, ptbr, va) == None
    case Some(r) => ResolveByWalk(m, ptbr, va) == Some(r.address)
  }

  /** A slot that answers for a page gives the frame that its owner's table lists. */
  lemma HitGivesOwner(ts: seq<Table>, tlb: Tlb, owner: Owners, va: uint32)
    requires Owned(ts, tlb, owner) && Lookup(tlb, va).Some?
    ensures var i := owner(Slot(va, |tlb|));
      i < |ts| && PageOf(va) < |ts[i].frames| && Lookup(tlb, va) == Some(ts[i].frames[PageOf(va)])
  {
    assert PageOf(tlb[Slot(va, |tlb|)].virt) == PageOf(va);
  }

  /**
    Without a flush between processes: an access of process `j`, to a page it has or to one
    it lacks, gets what the walk of its own table gives if and only if the slot does not
    answer or `j` filled it.
  */
  lemma AccessRightExactly(k: Kernel, j: nat, tlb: Tlb, owner: Owners, va: uint32)
    requires Sound(k) && j < |k.tables| && Owned(k.tables, tlb, owner)
    ensures ResolvesRight(k.memory, k.tables[j].ptbr, tlb, va) <==> Mine(tlb, owner, j, va)
  {
    var t := k.tables[j];
    assert t in k.tables;
    WalkOfTable(k.memory, t, va);
    if Lookup(tlb, va).Some? {
      HitGivesOwner(k.tables, tlb, owner, va);
      HitFrames(k, j, owner(Slot(va, |tlb|)), va);
    }
  }

  /** For one page, two tables list the same frame only if they are one. */
  lemma HitFrames(k: Kernel, j: nat, i: nat, va: uint32)
    requires Sound(k) && i < |k.tables| && j < |k.tables| && PageOf(va) < |k.tables[i].frames|
    ensures k.tables[i].frames[PageOf(va)] % 256 == 0
    ensures PageOf(va) < |k.tables[j].frames| ==>
      k.tables[j].frames[PageOf(va)] % 256 == 0
      && (k.tables[i].frames[PageOf(va)] == k.tables[j].frames[PageOf(va)] <==> i == j)
  {
    hide Partition, WellPlaced, Stored;
    var t, u := k.tables[i], k.tables[j];
    assert t in k.tables && t.frames[PageOf(va)] in t.frames;
    if PageOf(va) < |u.frames| {
      assert u in k.tables && u.frames[PageOf(va)] in u.frames;
      if i != j {
        FramesDiffer(k, i, j, PageOf(va), PageOf(va));
      }
    }
  }

  /** Whoever filled the slot that now answers, the address lies in that table's frame, and all slots keep owners. */
  lemma AccessKeepsOwners(k: Kernel, j: nat, tlb: Tlb, owner: Owners, va: uint32)
    requires Sound(k) && j < |k.tables| && Owned(k.tables, tlb, owner)
    ensures match Resolve(k.memory, k.tables[j].ptbr, tlb, va)
      case None => true
      case Some(r) =>
        var owner' := OwnersAfter(tlb, owner, j, va);
        var i := owner'(Slot(va, |tlb|));
        && Owned(k.tables, r.tlb, owner') && |r.tlb| == |tlb|
        && i < |k.tables| && ResolveByWalk(k.memory, k.tables[i].ptbr, va) == Some(r.address)
  {
    hide Partition, WellPlaced, Stored;
    var t := k.tables[j];
    assert t in k.tables;
    WalkOfTable(k.memory, t, va);
    if Lookup(tlb, va).Some? {
      HitGivesOwner(k.tables, tlb, owner, va);
      var i := owner(Slot(va, |tlb|));
      assert k.tables[i] in k.tables;
      WalkOfTable(k.memory, k.tables[i], va);
    } else if PageOf(va) < |t.frames| {
      assert PageOf(FrameBase(va)) == PageOf(va);
      assert t.frames[PageOf(va)] in t.frames;
    }
  }

  /** In particular a slot left behind by table `i` that answers for table `j` is wrong, always. */
  lemma StaleSlotIsWrong(k: Kernel, i: nat, j: nat, tlb: Tlb, va: uint32)
    requires Sound(k) && i < |k.tables| && j < |k.tables| && i != j
    requires Coherent(tlb, k.tables[i]) && Lookup(tlb, va).Some?
    ensures !ResolvesRight(k.memory, k.tables[j].ptbr, tlb, va)
  {
    AccessRightExactly(k, j, tlb, _ => i, va);
  }
}
