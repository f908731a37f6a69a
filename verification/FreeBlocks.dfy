/**
  The free-block list as a value: taking a range out of it with splitting, giving one
  back, sorting and coalescing.  `Cover(s, a)` counts the blocks of `s` that hold the
  address `a`; "pairwise disjoint" is `Cover(s, a) <= 1` for every address.
*/
module FreeBlocks {
  import opened Options
  import opened Words
  import opened Sorting
  import opened LinkedLists

  const KERNEL_START := 0x00_0000
  const KERNEL_END := 0x3F_FFFF
  const USER_START := 0x40_0000
  const USER_END := 0xFF_FFFF
  const FRAME_SIZE := 256

  datatype Block = Block(start: int, end: int) {
    predicate Has(a: int)
    {
      start <= a <= end
    }
  }

  ghost function Bit(b: bool): nat
  {
    if b then 1 else 0
  }

  ghost function Cover(s: seq<Block>, a: int): nat
  {
    if s == [] then 0 else Bit(s[0].Has(a)) + Cover(s[1..], a)
  }

  lemma {:induction false} CoverOfConcat(s: seq<Block>, t: seq<Block>, a: int)
    ensures Cover(s + t, a) == Cover(s, a) + Cover(t, a)
    decreases |s|
  {
    if s == [] {
      assert s + t == t;
    } else {
      assert (s + t)[1..] == s[1..] + t;
      CoverOfConcat(s[1..], t, a);
    }
  }

  lemma CoverOfOne(b: Block, a: int)
    ensures Cover([b], a) == Bit(b.Has(a))
  {
  }

  lemma CoverSplit(s: seq<Block>, k: nat, a: int)
    requires k < |s|
    ensures Cover(s, a) == Cover(Without(s, k), a) + Bit(s[k].Has(a))
  {
    assert s == s[..k] + ([s[k]] + s[k + 1..]);
    CoverOfConcat(s[..k], [s[k]] + s[k + 1..], a);
    CoverOfConcat([s[k]], s[k + 1..], a);
    CoverOfConcat(s[..k], s[k + 1..], a);
    CoverOfOne(s[k], a);
  }

  lemma TakeOut<T>(t: seq<T>, x: T) returns (k: nat)
    requires x in multiset(t)
    ensures k < |t| && t[k] == x && multiset(Without(t, k)) == multiset(t) - multiset{x}
  {
    k :| 0 <= k < |t| && t[k] == x;
    assert t == t[..k] + [t[k]] + t[k + 1..];
  }

  lemma {:induction false} CoverOfPermutation(s: seq<Block>, t: seq<Block>, a: int)
    requires multiset(s) == multiset(t)
    ensures Cover(s, a) == Cover(t, a)
    decreases |s|
  {
    assert |s| == |multiset(s)| == |multiset(t)| == |t|;
    if s != [] {
      assert s == [s[0]] + s[1..];
      var k := TakeOut(t, s[0]);
      CoverOfPermutation(s[1..], Without(t, k), a);
      CoverSplit(t, k, a);
    }
  }

  /** Somebody in `s` holds `a`: the search that `__search_address` makes. */
  predicate Covered(s: seq<Block>, a: int)
  {
    exists i :: 0 <= i < |s| && s[i].Has(a)
  }

  lemma {:induction false} CoveredIsCover(s: seq<Block>, a: int)
    ensures Covered(s, a) <==> Cover(s, a) > 0
    decreases |s|
  {
    if s != [] {
      CoveredIsCover(s[1..], a);
      if Covered(s[1..], a) {
        var i :| 0 <= i < |s[1..]| && s[1..][i].Has(a);
        assert s[i + 1].Has(a);
      }
      if Covered(s, a) {
        var i :| 0 <= i < |s| && s[i].Has(a);
        assert i > 0 ==> s[1..][i - 1].Has(a);
      }
    }
  }

  // ----- taking a range

  datatype Request = Request(size: int, low: int, high: int)

  function Max(x: int, y: int): int
  {
    if x < y then y else x
  }

  function Min(x: int, y: int): int
  {
    if x < y then x else y
  }

  /**
    The part of the block inside the limits is large enough.  The source subtracts the
    two ends the other way round; see `SpaceTestAsWritten`.
  */
  predicate Fits(b: Block, q: Request)
  {
    if b.end < q.low || b.start > q.high then false
    else Min(b.end, q.high) - Max(b.start, q.low) + 1 >= q.size
  }

  function FitTest(q: Request): Block -> bool
  {
    (b: Block) => Fits(b, q)
  }

  function RangeStart(b: Block, q: Request): int
  {
    if b.start < q.low then q.low else b.start
  }

  function Prefix(b: Block, q: Request): seq<Block>
  {
    if b.start < q.low then [Block(b.start, q.low - 1)] else []
  }

  function Rest(b: Block, q: Request): seq<Block>
  {
    if RangeStart(b, q) + q.size <= b.end then [Block(RangeStart(b, q) + q.size, b.end)] else []
  }

  /** The addresses from `address` that a request for `size` hands out. */
  function Range(address: int, size: int): Block
  {
    Block(address, address + size - 1)
  }

  datatype Allocation = Allocation(address: int, free: seq<Block>)

  /** The first block that fits is taken out; its unused ends go to the back of the list. */
  function Allocate(free: seq<Block>, q: Request): Option<Allocation>
  {
    var k := FirstMatch(FitTest(q), free);
    if k == |free| then None
    else Some(Allocation(RangeStart(free[k], q), Without(free, k) + Prefix(free[k], q) + Rest(free[k], q)))
  }

  /** The pieces of a block that the request fits: what stays before, what is handed out, what stays behind. */
  lemma PiecesOfBlock(b: Block, q: Request, a: int)
    requires q.size > 0 && Fits(b, q)
    ensures q.low <= RangeStart(b, q) && RangeStart(b, q) + q.size - 1 <= q.high
    ensures Bit(b.Has(a)) == Cover(Prefix(b, q), a) + Cover(Rest(b, q), a) + Bit(Range(RangeStart(b, q), q.size).Has(a))
  {
  }

  /** Splitting loses no address and hands none out twice; the range is inside the limits. */
  lemma AllocateConserves(free: seq<Block>, q: Request, a: int)
    requires q.size > 0
    ensures match Allocate(free, q)
      case None => true
      case Some(r) =>
        && q.low <= r.address && r.address + q.size - 1 <= q.high
        && Cover(free, a) == Cover(r.free, a) + Bit(Range(r.address, q.size).Has(a))
  {
    var k := FirstMatch(FitTest(q), free);
    if k < |free| {
      PiecesOfBlock(free[k], q, a);
      CoverSplit(free, k, a);
      CoverOfConcat(Without(free, k) + Prefix(free[k], q), Rest(free[k], q), a);
      CoverOfConcat(Without(free, k), Prefix(free[k], q), a);
    }
  }

  /** A request is refused exactly when no block has room for it inside the limits. */
  lemma AllocateFailsExactly(free: seq<Block>, q: Request)
    ensures Allocate(free, q).None? <==> forall b | b in free :: !Fits(b, q)
  {
    var k := FirstMatch(FitTest(q), free);
    if k < |free| {
      assert FitTest(q)(free[k]) && free[k] in free;
    } else {
      forall b | b in free ensures !Fits(b, q) {
        var i :| 0 <= i < |free| && free[i] == b;
        assert !FitTest(q)(free[i]);
      }
    }
  }

  /** The range of that size from `a` on lies in the block and inside the limits. */
  predicate RoomAt(b: Block, size: int, low: int, high: int, a: int)
  {
    b.start <= a && low <= a && a + size - 1 <= b.end && a + size - 1 <= high
  }

  lemma FitsExactly(b: Block, q: Request)
    requires q.size > 0
    ensures Fits(b, q) <==> exists a :: RoomAt(b, q.size, q.low, q.high, a)
  {
    if Fits(b, q) {
      assert RoomAt(b, q.size, q.low, q.high, RangeStart(b, q));
    }
  }

  /**
    What is handed out is the lowest range with room in the first block that has one; the other
    blocks keep their order.
  */
  lemma AllocatesFirstAndLowest(free: seq<Block>, q: Request)
    requires q.size > 0
    ensures match Allocate(free, q)
      case None => forall b, a :: b in free ==> !RoomAt(b, q.size, q.low, q.high, a)
      case Some(r) =>
        exists k: nat ::
          && k < |free| && |r.free| >= |free| - 1 && r.free[..|free| - 1] == free[..k] + free[k + 1..]
          && RoomAt(free[k], q.size, q.low, q.high, r.address)
          && (forall a :: RoomAt(free[k], q.size, q.low, q.high, a) ==> r.address <= a)
          && forall i, a :: 0 <= i < k ==> !RoomAt(free[i], q.size, q.low, q.high, a)
  {
    AllocateFailsExactly(free, q);
    forall b | b in free ensures Fits(b, q) <==> exists a :: RoomAt(b, q.size, q.low, q.high, a) {
      FitsExactly(b, q);
    }
    var k := FirstMatch(FitTest(q), free);
    if k < |free| {
      var r := Allocate(free, q).value;
      assert r.free[..|free| - 1] == free[..k] + free[k + 1..];
      assert Fits(free[k], q) && free[k] in free;
      forall i, a | 0 <= i < k ensures !RoomAt(free[i], q.size, q.low, q.high, a) {
        assert !FitTest(q)(free[i]) && free[i] in free;
      }
    }
  }

  /** The subtraction of the source, in 32-bit unsigned arithmetic: `valid_start - valid_end + 1`. */
  predicate FitsAsWritten(b: Block, q: Request)
  {
    if b.end < q.low || b.start > q.high then false
    else (Max(b.start, q.low) - Min(b.end, q.high) + 1) % 0x1_0000_0000 >= q.size
  }

  /**
    As written, the test wraps around: a clipped block of three addresses or more passes,
    unless nearly the whole range of 32 bits is asked for.  The lemma says for every size
    that fits a word when the test agrees with the size of the clipped block.
  */
  lemma SpaceTestAsWritten(b: Block, q: Request)
    requires 0 <= b.start <= b.end < ADDRESSES && 0 <= q.low <= q.high < ADDRESSES
    requires 0 <= q.size < 0x1_0000_0000
    ensures var room := Min(b.end, q.high) - Max(b.start, q.low) + 1;
      FitsAsWritten(b, q) == Fits(b, q) <==>
        || room <= 1 || (room == 2 && (q.size == 0 || q.size > 2))
        || (room >= 3 && (q.size <= room || q.size + room > 0x1_0000_0002))
  {
    var d := Max(b.start, q.low) - Min(b.end, q.high) + 1;
    if d < 0 {
      assert d % 0x1_0000_0000 == d + 0x1_0000_0000;
    }
  }

  function FitTestAsWritten(q: Request): Block -> bool
  {
    (b: Block) => FitsAsWritten(b, q)
  }

  /**
    The other allocation routine of the source, as written: the search only tells whether
    some block passes the test, the block that is popped is the last one, the lower limit is
    returned, and what is left of the block inside the limits is dropped.
  */
  function RequestAsWritten(free: seq<Block>, q: Request): Option<Allocation>
  {
    if FirstMatch(FitTestAsWritten(q), free) == |free| then None
    else
      var b := free[|free| - 1];
      Some(Allocation(q.low, free[..|free| - 1] + Prefix(b, q) + Suffix(b, q)))
  }

  function Suffix(b: Block, q: Request): seq<Block>
  {
    if b.end > q.high then [Block(q.high + 1, b.end)] else []
  }

  ghost predicate Conserved(free: seq<Block>, q: Request, r: Allocation)
  {
    forall a :: Cover(free, a) == Cover(r.free, a) + Bit(Range(r.address, q.size).Has(a))
  }

  lemma CoverAsWritten(free: seq<Block>, q: Request, a: int)
    requires RequestAsWritten(free, q).Some?
    ensures var b := free[|free| - 1];
      && Cover(free, a) == Cover(free[..|free| - 1], a) + Bit(b.Has(a))
      && Cover(RequestAsWritten(free, q).value.free, a)
           == Cover(free[..|free| - 1], a) + Cover(Prefix(b, q), a) + Cover(Suffix(b, q), a)
  {
    var front, b := free[..|free| - 1], free[|free| - 1];
    assert free == front + [b];
    CoverOfConcat(front, [b], a);
    CoverOfOne(b, a);
    CoverOfConcat(front + Prefix(b, q), Suffix(b, q), a);
    CoverOfConcat(front, Prefix(b, q), a);
  }

  /**
    It loses no address and invents none if and only if the last block happens to cover,
    inside the limits, exactly the range asked for.
  */
  lemma RequestAsWrittenConservesExactly(free: seq<Block>, q: Request)
    requires RequestAsWritten(free, q).Some? && q.size > 0
    ensures var b := free[|free| - 1];
      Conserved(free, q, RequestAsWritten(free, q).value) <==>
        b.start <= q.low && Min(b.end, q.high) == q.low + q.size - 1
  {
    var b := free[|free| - 1];
    if b.start <= q.low && Min(b.end, q.high) == q.low + q.size - 1 {
      forall a
        ensures Cover(free, a) == Cover(RequestAsWritten(free, q).value.free, a) + Bit(Range(q.low, q.size).Has(a))
      {
        CoverAsWritten(free, q, a);
      }
    } else {
      var a := if b.start > q.low then q.low
               else if Min(b.end, q.high) > q.low + q.size - 1 then q.low + q.size
               else q.low + q.size - 1;
      CoverAsWritten(free, q, a);
    }
  }

  // ----- coalescing

  function CompareStart(a: Block, b: Block): int
  {
    if a.start < b.start then -1 else if a.start > b.start then 1 else 0
  }

  /** The pass over the sorted list; a block that touches the next one takes over its end. */
  function Coalesce(s: seq<Block>): seq<Block>
    decreases |s|
  {
    if |s| < 2 then s
    else if s[0].end + 1 >= s[1].start then Coalesce([Block(s[0].start, s[1].end)] + s[2..])
    else [s[0]] + Coalesce(s[1..])
  }

  function Optimize(free: seq<Block>): seq<Block>
  {
    Coalesce(Sort(CompareStart, free))
  }

  ghost predicate NonEmpty(s: seq<Block>)
  {
    forall i :: 0 <= i < |s| ==> s[i].start <= s[i].end
  }

  ghost predicate StartsOrdered(s: seq<Block>)
  {
    forall i, j :: 0 <= i < j < |s| ==> s[i].start <= s[j].start
  }

  /** Strictly ordered, no two overlapping or touching. */
  ghost predicate Separated(s: seq<Block>)
  {
    forall i, j :: 0 <= i < j < |s| ==> s[i].end + 1 < s[j].start
  }

  /** Between block `j` and the next one there is a gap (or there is no next one). */
  predicate GapAfter(s: seq<Block>, j: int)
  {
    0 <= j < |s| && (j + 1 < |s| ==> s[j].end + 1 < s[j + 1].start)
  }

  /** Where the pass starts a new block, no earlier block reaches over the gap. */
  ghost predicate NoOverhang(s: seq<Block>)
  {
    forall k, j :: 0 <= k <= j < |s| && GapAfter(s, j) ==> s[k].end <= s[j].end
  }

  /** The first gap: everything up to it is merged into one block. */
  function FirstGap(s: seq<Block>): (j: nat)
    requires s != []
    ensures j < |s| && GapAfter(s, j)
    ensures forall i :: 0 <= i < j ==> !GapAfter(s, i)
    decreases |s|
  {
    if GapAfter(s, 0) then 0 else
      var j := FirstGap(s[1..]);
      assert forall i :: 0 <= i <= j ==> (GapAfter(s, i + 1) <==> GapAfter(s[1..], i)) by {
        forall i | 0 <= i <= j ensures GapAfter(s, i + 1) <==> GapAfter(s[1..], i) {
        }
      }
      assert forall i :: 0 <= i <= j ==> !GapAfter(s, i) by {
        forall i | 0 <= i <= j ensures !GapAfter(s, i) {
          assert i > 0 ==> (GapAfter(s, i) <==> GapAfter(s[1..], i - 1));
        }
      }
      j + 1
  }

  /** Merging the first two blocks moves every later gap by one place. */
  lemma GapMoves(s: seq<Block>, t: seq<Block>, i: nat)
    requires |s| > 1 && t == [Block(s[0].start, s[1].end)] + s[2..] && i < |t|
    ensures GapAfter(t, i) <==> GapAfter(s, i + 1)
    ensures t[i].end == s[i + 1].end && t[i + 1..] == s[i + 2..]
  {
    assert i + 1 < |t| ==> t[i + 1] == s[i + 2];
  }

  lemma {:induction false} CoalesceFirst(s: seq<Block>)
    requires s != []
    ensures var j := FirstGap(s); Coalesce(s) == [Block(s[0].start, s[j].end)] + Coalesce(s[j + 1..])
    decreases |s|
  {
    var j := FirstGap(s);
    if j > 0 {
      var t := [Block(s[0].start, s[1].end)] + s[2..];
      var i := FirstGap(t);
      assert !GapAfter(s, 0);
      GapMoves(s, t, i);
      GapMoves(s, t, j - 1);
      assert i == j - 1;
      CoalesceFirst(t);
    }
  }

  lemma SeparatedCons(b: Block, r: seq<Block>)
    requires Separated(r) && forall c | c in r :: b.end + 1 < c.start
    ensures Separated([b] + r)
  {
    var s := [b] + r;
    forall i, j | 0 <= i < j < |s| ensures s[i].end + 1 < s[j].start {
      assert s[j] == r[j - 1] && s[j] in r;
    }
  }

  lemma {:induction false} CoalesceStartsAt(s: seq<Block>)
    requires StartsOrdered(s) && NonEmpty(s)
    ensures forall b | b in Coalesce(s) :: s != [] && s[0].start <= b.start <= b.end
    ensures Separated(Coalesce(s))
    decreases |s|
  {
    if s != [] {
      var j := FirstGap(s);
      var t := s[j + 1..];
      CoalesceFirst(s);
      assert StartsOrdered(t) && NonEmpty(t);
      CoalesceStartsAt(t);
      var first := Block(s[0].start, s[j].end);
      assert Coalesce(s) == [first] + Coalesce(t);
      assert s[0].start <= s[j].start <= s[j].end;
      assert t != [] ==> t[0] == s[j + 1] && s[j].end + 1 < t[0].start;
      SeparatedCons(first, Coalesce(t));
    }
  }

  /** The blocks before a gap hold every address from the first start to the last end. */
  lemma {:induction false} RunHolds(s: seq<Block>, j: nat, a: int)
    requires j < |s| && forall i :: 0 <= i < j ==> !GapAfter(s, i)
    requires s[0].start <= a <= s[j].end
    ensures Covered(s, a)
    decreases j
  {
    if s[j].start <= a {
      assert s[j].Has(a);
    } else {
      assert !GapAfter(s, j - 1);
      RunHolds(s, j - 1, a);
    }
  }

  lemma CoveredOfParts(s: seq<Block>, k: nat, a: int)
    requires k <= |s|
    ensures Covered(s, a) <==> Covered(s[..k], a) || Covered(s[k..], a)
  {
    CoveredIsCover(s, a);
    CoveredIsCover(s[..k], a);
    CoveredIsCover(s[k..], a);
    assert s == s[..k] + s[k..];
    CoverOfConcat(s[..k], s[k..], a);
  }

  lemma CoveredOfCoalesce(s: seq<Block>, a: int)
    requires s != []
    ensures var j := FirstGap(s);
      Covered(Coalesce(s), a) <==> s[0].start <= a <= s[j].end || Covered(Coalesce(s[j + 1..]), a)
  {
    var j := FirstGap(s);
    var r := Coalesce(s);
    CoalesceFirst(s);
    CoveredOfParts(r, 1, a);
    assert r[..1] == [Block(s[0].start, s[j].end)];
    CoveredIsCover(r[..1], a);
    assert r[1..] == Coalesce(s[j + 1..]);
  }

  lemma {:induction false} CoalesceKeepsIf(s: seq<Block>, a: int)
    requires StartsOrdered(s) && NonEmpty(s) && NoOverhang(s)
    ensures Covered(Coalesce(s), a) <==> Covered(s, a)
    decreases |s|
  {
    hide NoOverhang, StartsOrdered, NonEmpty, Coalesce, FirstGap;
    if s != [] {
      var j := FirstGap(s);
      var t := s[j + 1..];
      CoveredOfCoalesce(s, a);
      CoveredOfParts(s, j + 1, a);
      TailOrdered(s, j + 1);
      TailHasNoOverhang(s, j + 1);
      CoalesceKeepsIf(t, a);
      if Covered(s[..j + 1], a) {
        InsideFirst(s, j, a);
      }
      if s[0].start <= a <= s[j].end {
        RunHolds(s, j, a);
      }
    } else {
      NothingToCoalesce(a);
    }
  }

  lemma NothingToCoalesce(a: int)
    ensures Coalesce([]) == [] && !Covered([], a)
  {
  }

  /** The blocks before a gap that none of them reaches over. */
  lemma InsideFirst(s: seq<Block>, j: nat, a: int)
    requires StartsOrdered(s) && NoOverhang(s) && GapAfter(s, j) && Covered(s[..j + 1], a)
    ensures s[0].start <= a <= s[j].end
  {
    var i :| 0 <= i < j + 1 && s[..j + 1][i].Has(a);
    assert s[0].start <= s[i].start && s[i].end <= s[j].end;
  }

  lemma TailHasNoOverhang(s: seq<Block>, k: nat)
    requires NoOverhang(s) && k <= |s|
    ensures NoOverhang(s[k..])
  {
    var t := s[k..];
    forall i, j | 0 <= i <= j < |t| && GapAfter(t, j) ensures t[i].end <= t[j].end {
      assert GapAfter(s, k + j);
      assert s[k + i].end <= s[k + j].end;
    }
  }

  /** An overhang loses an address: the one right behind the gap it reaches over. */
  lemma {:induction false} OverhangLoses(s: seq<Block>) returns (a: int)
    requires StartsOrdered(s) && NonEmpty(s) && !NoOverhang(s)
    ensures Covered(s, a) && !Covered(Coalesce(s), a)
    decreases |s|
  {
    hide StartsOrdered, NonEmpty, NoOverhang, Coalesce, FirstGap, Covered;
    SomethingThere(s);
    var j := FirstGap(s);
    TailOrdered(s, j + 1);
    if m :| 0 <= m <= j && s[m].end > s[j].end {
      a := s[j].end + 1;
      HolderInFront(s, j, m);
      GapIsFree(s, j);
    } else {
      OverhangInTail(s, j);
      a := OverhangLoses(s[j + 1..]);
      BehindTheGap(s, j, a);
    }
    CoveredOfCoalesce(s, a);
  }

  lemma TailOrdered(s: seq<Block>, k: nat)
    requires StartsOrdered(s) && NonEmpty(s) && k <= |s|
    ensures StartsOrdered(s[k..]) && NonEmpty(s[k..])
  {
  }

  lemma HolderInFront(s: seq<Block>, j: nat, m: nat)
    requires StartsOrdered(s) && NonEmpty(s) && m <= j < |s| && s[m].end > s[j].end
    ensures Covered(s, s[j].end + 1)
  {
    assert s[m].start <= s[j].start <= s[j].end;
    assert s[m].Has(s[j].end + 1);
  }

  lemma GapIsFree(s: seq<Block>, j: nat)
    requires StartsOrdered(s) && NonEmpty(s) && j < |s| && GapAfter(s, j)
    ensures !Covered(Coalesce(s[j + 1..]), s[j].end + 1)
  {
    var t := s[j + 1..];
    CoalesceStartsAt(t);
    assert forall i :: 0 <= i < |Coalesce(t)| ==> Coalesce(t)[i] in Coalesce(t);
  }

  lemma BehindTheGap(s: seq<Block>, j: nat, a: int)
    requires StartsOrdered(s) && j < |s| && GapAfter(s, j) && Covered(s[j + 1..], a)
    ensures Covered(s, a) && a > s[j].end
  {
    var t := s[j + 1..];
    var m :| 0 <= m < |t| && t[m].Has(a);
    assert s[j + 1 + m] == t[m] && s[j + 1 + m].Has(a);
    assert s[j].end < s[j + 1].start <= t[m].start;
  }

  lemma SomethingThere(s: seq<Block>)
    requires !NoOverhang(s)
    ensures s != []
  {
  }

  lemma LaterEndsBehind(s: seq<Block>, j: nat, i: nat)
    requires StartsOrdered(s) && NonEmpty(s) && GapAfter(s, j) && j < i < |s|
    ensures s[j].end < s[i].start <= s[i].end
  {
    assert s[j].end < s[j + 1].start <= s[i].start;
  }

  lemma OverhangInTail(s: seq<Block>, j: nat)
    requires StartsOrdered(s) && NonEmpty(s) && !NoOverhang(s)
    requires j < |s| && GapAfter(s, j) && (forall i :: 0 <= i < j ==> !GapAfter(s, i))
    requires forall m :: 0 <= m <= j ==> s[m].end <= s[j].end
    ensures !NoOverhang(s[j + 1..])
  {
    hide StartsOrdered, NonEmpty;
    var k, i :| 0 <= k <= i < |s| && GapAfter(s, i) && s[k].end > s[i].end;
    assert j <= i;
    if j < i {
      LaterEndsBehind(s, j, i);
    }
    assert j < k;
    GapInTail(s, j + 1, k, i);
  }

  lemma GapInTail(s: seq<Block>, n: nat, k: nat, i: nat)
    requires n <= k <= i < |s| && GapAfter(s, i) && s[k].end > s[i].end
    ensures !NoOverhang(s[n..])
  {
    var t := s[n..];
    assert t[i - n] == s[i] && t[k - n] == s[k] && GapAfter(t, i - n);
  }

  /**
    Coalescing a sorted list keeps exactly the free addresses if and only if no block
    reaches over a gap that follows it in the list.
  */
  lemma CoalesceKeepsExactly(s: seq<Block>)
    requires StartsOrdered(s) && NonEmpty(s)
    ensures (forall a :: Covered(Coalesce(s), a) <==> Covered(s, a)) <==> NoOverhang(s)
  {
    if NoOverhang(s) {
      forall a ensures Covered(Coalesce(s), a) <==> Covered(s, a) {
        CoalesceKeepsIf(s, a);
      }
    } else {
      var a := OverhangLoses(s);
    }
  }

  /** The nested pair that shows it: [0, 10] and [2, 5] become [0, 5]. */
  lemma NestedBlocksLoseAddresses()
    ensures Optimize([Block(0, 10), Block(2, 5)]) == [Block(0, 5)]
  {
    var s := [Block(0, 10), Block(2, 5)];
    SortKeepsSorted(CompareStart, s);
    assert Coalesce([Block(0, 5)]) == [Block(0, 5)];
    assert [Block(0, 5)] + s[2..] == [Block(0, 5)];
  }

  // ----- what the allocator relies on: disjoint blocks that begin and end on boundaries

  ghost predicate Disjoint(s: seq<Block>)
  {
    forall a :: Cover(s, a) <= 1
  }

  /** Words in the kernel half, frames in the user half. */
  predicate StartsWell(a: int)
  {
    0 <= a < ADDRESSES && a % 4 == 0 && (a >= USER_START ==> a % FRAME_SIZE == 0)
  }

  predicate EndsWell(a: int)
  {
    0 <= a < ADDRESSES && a % 4 == 3 && (a >= USER_START ==> a % FRAME_SIZE == FRAME_SIZE - 1)
  }

  ghost predicate WellPlaced(s: seq<Block>)
  {
    forall b | b in s :: b.start <= b.end && StartsWell(b.start) && EndsWell(b.end)
  }

  lemma TwoHolders(s: seq<Block>, i: nat, j: nat, a: int)
    requires i < j < |s| && s[i].Has(a) && s[j].Has(a)
    ensures Cover(s, a) >= 2
  {
    CoverSplit(s, i, a);
    assert Without(s, i)[j - 1] == s[j];
    CoverSplit(Without(s, i), j - 1, a);
  }

  lemma DisjointHasNoOverhang(s: seq<Block>)
    requires Disjoint(s) && NonEmpty(s) && StartsOrdered(s)
    ensures NoOverhang(s)
  {
    forall k, j | 0 <= k <= j < |s| ensures s[k].end <= s[j].end {
      if k < j && s[j].end < s[k].end {
        TwoHolders(s, k, j, s[j].start);
        assert false;
      }
    }
  }

  lemma {:induction false} SeparatedIsDisjoint(s: seq<Block>, a: int)
    requires Separated(s) && NonEmpty(s)
    ensures Cover(s, a) <= 1
    decreases |s|
  {
    if s != [] {
      SeparatedIsDisjoint(s[1..], a);
      if s[0].Has(a) {
        CoveredIsCover(s[1..], a);
        forall i | 0 <= i < |s[1..]| ensures !s[1..][i].Has(a) {
          assert s[1..][i] == s[i + 1];
        }
      }
    }
  }

  /** Every end of a coalesced block is an end of a block that was there. */
  lemma {:induction false} EndsOfCoalesce(s: seq<Block>)
    requires WellPlaced(s)
    ensures forall b | b in Coalesce(s) :: StartsWell(b.start) && EndsWell(b.end)
    decreases |s|
  {
    if s != [] {
      var j := FirstGap(s);
      CoalesceFirst(s);
      assert s[0] in s && s[j] in s;
      EndsOfCoalesce(s[j + 1..]);
    }
  }

  lemma SortByStart(free: seq<Block>)
    ensures multiset(Sort(CompareStart, free)) == multiset(free)
    ensures StartsOrdered(Sort(CompareStart, free))
    ensures forall b :: b in Sort(CompareStart, free) <==> b in free
  {
    var s := Sort(CompareStart, free);
    SortPermutes(CompareStart, free);
    assert TotalPreorder(CompareStart);
    SortSorts(CompareStart, free);
    forall i, j | 0 <= i < j < |s| ensures s[i].start <= s[j].start {
      assert CompareStart(s[i], s[j]) <= 0;
    }
    forall b ensures b in s <==> b in free {
      assert b in multiset(s) <==> b in multiset(free);
    }
  }

  /**
    Sorting and coalescing disjoint blocks keeps the free addresses, every one of them
    exactly as often as before, and ends with blocks that are strictly ordered and do not touch.
  */
  lemma OptimizeConserves(free: seq<Block>)
    requires Disjoint(free) && WellPlaced(free)
    ensures forall a :: Cover(Optimize(free), a) == Cover(free, a)
    ensures Separated(Optimize(free)) && WellPlaced(Optimize(free))
  {
    var s := Sort(CompareStart, free);
    SortByStart(free);
    forall a ensures Cover(s, a) == Cover(free, a) {
      CoverOfPermutation(s, free, a);
    }
    assert NonEmpty(s) by {
      forall i | 0 <= i < |s| ensures s[i].start <= s[i].end {
        assert s[i] in free;
      }
    }
    DisjointHasNoOverhang(s);
    CoalesceStartsAt(s);
    EndsOfCoalesce(s);
    forall a ensures Cover(Optimize(free), a) == Cover(free, a) {
      CoalesceKeepsIf(s, a);
      CoveredIsCover(s, a);
      CoveredIsCover(Coalesce(s), a);
      assert NonEmpty(Coalesce(s)) by {
        forall i | 0 <= i < |Coalesce(s)| ensures Coalesce(s)[i].start <= Coalesce(s)[i].end {
          assert Coalesce(s)[i] in Coalesce(s);
        }
      }
      SeparatedIsDisjoint(Coalesce(s), a);
    }
  }

  /** A word-sized request in the kernel half or a frame in the user half keeps the boundaries. */
  predicate GoodRequest(q: Request)
  {
    || (q.low == KERNEL_START && q.high == KERNEL_END && q.size > 0 && q.size % 4 == 0)
    || (q.low == USER_START && q.high == USER_END && q.size == FRAME_SIZE)
  }

  lemma BoundaryIn(x: int, y: int)
    requires x % 256 == 0 && y % 256 == 0
    ensures (x + y) % 256 == 0 && x % 4 == 0
  {
  }

  lemma PiecesOfFrame(b: Block, q: Request)
    requires q == Request(FRAME_SIZE, USER_START, USER_END) && Fits(b, q)
    requires b.start <= b.end && StartsWell(b.start) && EndsWell(b.end)
    ensures StartsWell(RangeStart(b, q)) && WellPlaced(Prefix(b, q)) && WellPlaced(Rest(b, q))
  {
    BoundaryIn(RangeStart(b, q), FRAME_SIZE);
    BoundaryIn(RangeStart(b, q) + FRAME_SIZE, 0);
  }

  lemma PiecesOfWords(b: Block, q: Request)
    requires q.low == KERNEL_START && q.high == KERNEL_END && q.size > 0 && q.size % 4 == 0 && Fits(b, q)
    requires b.start <= b.end && StartsWell(b.start) && EndsWell(b.end)
    ensures StartsWell(RangeStart(b, q)) && WellPlaced(Prefix(b, q)) && WellPlaced(Rest(b, q))
  {
    var n := b.start + q.size;
    assert RangeStart(b, q) == b.start && n <= USER_START;
    SumOfFours(b.start, q.size);
  }

  lemma SumOfFours(x: int, y: int)
    requires x % 4 == 0 && y % 4 == 0
    ensures (x + y) % 4 == 0
  {
  }

  lemma AllocateWellPlaced(free: seq<Block>, q: Request)
    requires GoodRequest(q) && WellPlaced(free) && Allocate(free, q).Some?
    ensures WellPlaced(Allocate(free, q).value.free) && StartsWell(Allocate(free, q).value.address)
  {
    var k := FirstMatch(FitTest(q), free);
    assert free[k] in free && Fits(free[k], q);
    if q.low == USER_START {
      PiecesOfFrame(free[k], q);
    } else {
      PiecesOfWords(free[k], q);
    }
    assert forall b | b in Without(free, k) :: b in free;
  }
}
