/**
  The doubly linked list and its in-place merge sort.  A list carries the ghost sequences
  `nodes` and `contents`: its nodes in order, and the data that each of them holds; every
  operation is proved against a function on those sequences.

  Two invariants are kept apart.  `Valid` is about the `next` fields (with `first`,
  `last` and `length`) and every operation keeps it; `Linked` adds the `prev` fields,
  which pushing, popping and unlinking keep and which sorting does not look after.
*/
module LinkedLists {
  import opened Options
  import opened Sorting

  class Node<T> {
    var next: Node?<T>
    var prev: Node?<T>
    var data: T

    constructor (data: T)
      ensures next == null && prev == null && this.data == data
    {
      this.next, this.prev, this.data := null, null, data;
    }
  }

  /** A node and the data it holds at some moment. */
  datatype Cell<!T> = Cell(node: Node<T>, data: T)

  ghost function NodesOf<T>(cs: seq<Cell<T>>): set<Node<T>>
  {
    set c | c in cs :: c.node
  }

  ghost function DataOf<T>(cs: seq<Cell<T>>): seq<T>
  {
    seq(|cs|, i requires 0 <= i < |cs| => cs[i].data)
  }

  ghost function NodeAt<T>(cs: seq<Cell<T>>, i: int): Node?<T>
  {
    if 0 <= i < |cs| then cs[i].node else null
  }

  ghost predicate Distinct<T>(cs: seq<Cell<T>>)
  {
    forall i, j :: 0 <= i < j < |cs| ==> cs[i].node != cs[j].node
  }

  /** From `head`, the `next` fields visit exactly the cells of `cs`, and then end. */
  ghost predicate Chain<T>(head: Node?<T>, cs: seq<Cell<T>>)
    reads NodesOf(cs)
  {
    && head == NodeAt(cs, 0)
    && Distinct(cs)
    && (forall i {:trigger cs[i].node.data} :: 0 <= i < |cs| ==> cs[i].node.data == cs[i].data)
    && (forall i {:trigger cs[i].node.next} :: 0 <= i < |cs| ==> cs[i].node.next == NodeAt(cs, i + 1))
  }

  /** Cells are compared by the data they hold. */
  ghost function OnData<T>(cmp: Comparator<T>): Comparator<Cell<T>>
  {
    (c: Cell<T>, d: Cell<T>) => cmp(c.data, d.data)
  }

  // ----- splitting, merging and sorting a chain in place

  method FrontBackSplit<T>(source: Node?<T>, ghost cs: seq<Cell<T>>) returns (front: Node?<T>, back: Node?<T>)
    requires Chain(source, cs)
    modifies NodesOf(cs)`next
    ensures Chain(front, cs[..Half(|cs|)]) && Chain(back, cs[Half(|cs|)..])
    ensures Half(|cs|) == |cs| - |cs| / 2 && |cs[Half(|cs|)..]| == |cs| / 2
  {
    if source == null || source.next == null {
      front, back := source, null;
    } else {
      var slow := source;
      var fast := source.next;
      ghost var i, j := 0, 1;
      while fast != null
        invariant 0 <= i < |cs| && slow == cs[i].node && fast == NodeAt(cs, j)
        invariant j == 2 * i + 1 || (j == 2 * i + 2 && fast == null)
        invariant 2 * i + 1 <= |cs|
        decreases |cs| - j
      {
        fast := fast.next;
        j := j + 1;
        if fast != null {
          slow := slow.next;
          fast := fast.next;
          i, j := i + 1, j + 1;
        }
      }
      front := source;
      back := slow.next;
      slow.next := null;
      assert i + 1 == Half(|cs|);
    }
  }

  lemma SameCells<T>(a: seq<Cell<T>>, b: seq<Cell<T>>)
    requires multiset(a) == multiset(b)
    ensures NodesOf(a) == NodesOf(b)
  {
    forall i | 0 <= i < |a| ensures a[i] in b {
      assert a[i] in multiset(a);
    }
    forall i | 0 <= i < |b| ensures b[i] in a {
      assert b[i] in multiset(b);
    }
  }

  lemma CellsOfMerge<T>(cmp: Comparator<T>, a: seq<Cell<T>>, b: seq<Cell<T>>)
    ensures NodesOf(Merge(OnData(cmp), a, b)) == NodesOf(a) + NodesOf(b)
  {
    MergePermutes(OnData(cmp), a, b);
    assert multiset(a) + multiset(b) == multiset(a + b);
    SameCells(Merge(OnData(cmp), a, b), a + b);
  }

  lemma CellsOfSort<T>(cmp: Comparator<T>, a: seq<Cell<T>>)
    ensures NodesOf(Sort(OnData(cmp), a)) == NodesOf(a)
  {
    SortPermutes(OnData(cmp), a);
    SameCells(Sort(OnData(cmp), a), a);
  }

  /** Putting a node with the right `next` in front of a chain. */
  lemma ChainCons<T>(c: Cell<T>, cs: seq<Cell<T>>)
    requires Chain(c.node.next, cs) && c.node.data == c.data && c.node !in NodesOf(cs)
    ensures Chain(c.node, [c] + cs)
  {
    var ds := [c] + cs;
    forall i | 0 <= i < |ds| ensures ds[i].node.data == ds[i].data && ds[i].node.next == NodeAt(ds, i + 1) {
      if i > 0 {
        assert ds[i] == cs[i - 1];
      }
    }
    forall i, j | 0 <= i < j < |ds| ensures ds[i].node != ds[j].node {
      assert ds[j] == cs[j - 1];
      if i > 0 {
        assert ds[i] == cs[i - 1];
      } else {
        assert cs[j - 1].node in NodesOf(cs);
      }
    }
  }

  lemma ChainTail<T>(head: Node<T>, cs: seq<Cell<T>>)
    requires Chain(head, cs)
    ensures cs != [] && Chain(head.next, cs[1..])
    ensures head == cs[0].node && head !in NodesOf(cs[1..])
    ensures NodesOf(cs) == {head} + NodesOf(cs[1..])
  {
    assert cs == [cs[0]] + cs[1..];
  }

  method SortedMerge<T>(a: Node?<T>, b: Node?<T>, cmp: Comparator<T>, ghost ca: seq<Cell<T>>, ghost cb: seq<Cell<T>>)
    returns (result: Node?<T>)
    requires Chain(a, ca) && Chain(b, cb) && NodesOf(ca) !! NodesOf(cb)
    modifies NodesOf(ca)`next, NodesOf(cb)`next
    ensures Chain(result, Merge(OnData(cmp), ca, cb))
    decreases |ca| + |cb|
  {
    if a == null {
      return b;
    } else if b == null {
      return a;
    }
    ChainTail(a, ca);
    ChainTail(b, cb);
    if cmp(a.data, b.data) <= 0 {
      result := a;
      CellsOfMerge(cmp, ca[1..], cb);
      var rest := SortedMerge(a.next, b, cmp, ca[1..], cb);
      result.next := rest;
      ChainCons(ca[0], Merge(OnData(cmp), ca[1..], cb));
    } else {
      result := b;
      CellsOfMerge(cmp, ca, cb[1..]);
      var rest := SortedMerge(a, b.next, cmp, ca, cb[1..]);
      result.next := rest;
      ChainCons(cb[0], Merge(OnData(cmp), ca, cb[1..]));
    }
  }

  lemma HalvesAreApart<T>(cs: seq<Cell<T>>, h: nat)
    requires Distinct(cs) && h <= |cs|
    ensures NodesOf(cs[..h]) !! NodesOf(cs[h..])
    ensures NodesOf(cs) == NodesOf(cs[..h]) + NodesOf(cs[h..])
  {
    assert cs == cs[..h] + cs[h..];
  }

  method MergeSortFrom<T>(head: Node?<T>, cmp: Comparator<T>, ghost cs: seq<Cell<T>>) returns (sorted: Node?<T>)
    requires Chain(head, cs)
    modifies NodesOf(cs)`next
    ensures Chain(sorted, Sort(OnData(cmp), cs))
    decreases |cs|
  {
    if head == null || head.next == null {
      return head;
    }
    ghost var ca, cb := cs[..Half(|cs|)], cs[Half(|cs|)..];
    HalvesAreApart(cs, Half(|cs|));
    var a, b := FrontBackSplit(head, cs);
    a := MergeSortFrom(a, cmp, ca);
    b := MergeSortFrom(b, cmp, cb);
    CellsOfSort(cmp, ca);
    CellsOfSort(cmp, cb);
    sorted := SortedMerge(a, b, cmp, Sort(OnData(cmp), ca), Sort(OnData(cmp), cb));
  }

  // ----- the list object

  /** The index of the first element that matches, or `|s|`. */
  function FirstMatch<T>(matches: T -> bool, s: seq<T>): (k: nat)
    ensures k <= |s|
    ensures k < |s| ==> matches(s[k])
    ensures forall i :: 0 <= i < k ==> !matches(s[i])
  {
    if s == [] then 0 else if matches(s[0]) then 0 else 1 + FirstMatch(matches, s[1..])
  }

  function Without<T>(s: seq<T>, k: nat): seq<T>
    requires k < |s|
  {
    s[..k] + s[k + 1..]
  }

  ghost function At<T>(ns: seq<Node<T>>, i: int): Node?<T>
  {
    if 0 <= i < |ns| then ns[i] else null
  }

  ghost predicate AllDifferent<T>(s: seq<Node<T>>)
  {
    forall i, j :: 0 <= i < j < |s| ==> s[i] != s[j]
  }

  /** The nodes hold the data of `ds`, and each one's `next` is its successor. */
  ghost predicate Forward<T>(ns: seq<Node<T>>, ds: seq<T>)
    reads ns
  {
    && |ns| == |ds|
    && (forall i {:trigger ns[i].data} :: 0 <= i < |ns| ==> ns[i].data == ds[i])
    && (forall i {:trigger ns[i].next} :: 0 <= i < |ns| ==> ns[i].next == At(ns, i + 1))
  }

  /** Each node's `prev` is its predecessor. */
  ghost predicate Backward<T>(ns: seq<Node<T>>)
    reads ns
  {
    forall i {:trigger ns[i].prev} :: 0 <= i < |ns| ==> ns[i].prev == At(ns, i - 1)
  }

  /** Hooking a node behind the last one. */
  lemma ForwardSnoc<T>(ns: seq<Node<T>>, ds: seq<T>, n: Node<T>)
    requires |ns| == |ds| && n.next == null
    requires forall i {:trigger ns[i].data} :: 0 <= i < |ns| ==> ns[i].data == ds[i]
    requires forall i {:trigger ns[i].next} :: 0 <= i < |ns| ==> ns[i].next == At(ns + [n], i + 1)
    ensures Forward(ns + [n], ds + [n.data])
  {
    var ms := ns + [n];
    forall i | 0 <= i < |ms| ensures ms[i].data == (ds + [n.data])[i] && ms[i].next == At(ms, i + 1) {
      assert i < |ns| ==> ms[i] == ns[i];
    }
  }

  lemma BackwardSnoc<T>(ns: seq<Node<T>>, n: Node<T>)
    requires Backward(ns) && n.prev == At(ns, |ns| - 1)
    ensures Backward(ns + [n])
  {
    var ms := ns + [n];
    forall i | 0 <= i < |ms| ensures ms[i].prev == At(ms, i - 1) {
      assert i < |ns| ==> ms[i] == ns[i];
    }
  }

  /** Bypassing node `k` with `next` gives the chain without it. */
  lemma ForwardWithout<T>(ns: seq<Node<T>>, ds: seq<T>, k: nat)
    requires k < |ns| == |ds|
    requires forall i {:trigger ns[i].data} :: 0 <= i < |ns| && i != k ==> ns[i].data == ds[i]
    requires forall i {:trigger ns[i].next} :: 0 <= i < |ns| && i != k ==>
      ns[i].next == At(ns, if i + 1 == k then k + 1 else i + 1)
    ensures Forward(Without(ns, k), Without(ds, k))
  {
    var ms := Without(ns, k);
    forall i | 0 <= i < |ms|
      ensures ms[i].data == Without(ds, k)[i] && ms[i].next == At(ms, i + 1)
    {
      assert ms[i] == ns[if i < k then i else i + 1];
    }
  }

  lemma DifferentSnoc<T>(ns: seq<Node<T>>, n: Node<T>)
    requires AllDifferent(ns) && n !in NodeSet(ns)
    ensures AllDifferent(ns + [n])
  {
  }

  lemma EndsSnoc<T>(ns: seq<Node<T>>, n: Node<T>)
    ensures var ms := ns + [n];
      NodeSet(ms) == NodeSet(ns) + {n} && At(ms, |ms| - 1) == n && At(ms, 0) == if ns == [] then n else At(ns, 0)
  {
  }

  lemma EndsWithout<T>(ns: seq<Node<T>>, k: nat)
    requires k < |ns|
    ensures var ms := Without(ns, k);
      && |ms| == |ns| - 1 && NodeSet(ms) <= NodeSet(ns)
      && At(ms, 0) == At(ns, if k == 0 then 1 else 0)
      && At(ms, |ms| - 1) == At(ns, if k + 1 == |ns| then |ns| - 2 else |ns| - 1)
  {
  }

  lemma DifferentWithout<T>(ns: seq<Node<T>>, k: nat)
    requires k < |ns| && AllDifferent(ns)
    ensures AllDifferent(Without(ns, k))
  {
  }

  lemma BackwardWithout<T>(ns: seq<Node<T>>, k: nat)
    requires k < |ns|
    requires forall i {:trigger ns[i].prev} :: 0 <= i < |ns| && i != k ==>
      ns[i].prev == At(ns, if i - 1 == k then k - 1 else i - 1)
    ensures Backward(Without(ns, k))
  {
    var ms := Without(ns, k);
    forall i | 0 <= i < |ms| ensures ms[i].prev == At(ms, i - 1) {
      assert ms[i] == ns[if i < k then i else i + 1];
    }
  }

  // ----- a chain as a list sees it, and as the sort sees it

  ghost function Zip<T>(ns: seq<Node<T>>, ds: seq<T>): seq<Cell<T>>
    requires |ns| == |ds|
  {
    seq(|ns|, i requires 0 <= i < |ns| => Cell(ns[i], ds[i]))
  }

  ghost function NodesIn<T>(cs: seq<Cell<T>>): seq<Node<T>>
  {
    seq(|cs|, i requires 0 <= i < |cs| => cs[i].node)
  }

  lemma {:induction false} DataOfMerge<T>(cmp: Comparator<T>, a: seq<Cell<T>>, b: seq<Cell<T>>)
    ensures DataOf(Merge(OnData(cmp), a, b)) == Merge(cmp, DataOf(a), DataOf(b))
    decreases |a| + |b|
  {
    if a != [] && b != [] {
      assert DataOf(a)[1..] == DataOf(a[1..]) && DataOf(b)[1..] == DataOf(b[1..]);
      if cmp(a[0].data, b[0].data) <= 0 {
        DataOfMerge(cmp, a[1..], b);
      } else {
        DataOfMerge(cmp, a, b[1..]);
      }
    }
  }

  /** Sorting the cells sorts the data. */
  lemma {:induction false} DataOfSort<T>(cmp: Comparator<T>, cs: seq<Cell<T>>)
    ensures DataOf(Sort(OnData(cmp), cs)) == Sort(cmp, DataOf(cs))
    decreases |cs|
  {
    if |cs| > 1 {
      var h := Half(|cs|);
      assert DataOf(cs)[..h] == DataOf(cs[..h]) && DataOf(cs)[h..] == DataOf(cs[h..]);
      DataOfSort(cmp, cs[..h]);
      DataOfSort(cmp, cs[h..]);
      DataOfMerge(cmp, Sort(OnData(cmp), cs[..h]), Sort(OnData(cmp), cs[h..]));
    }
  }

  ghost function NodeSet<T>(ns: seq<Node<T>>): set<Node<T>>
  {
    set n | n in ns
  }

  lemma NodesInHas<T>(cs: seq<Cell<T>>)
    ensures NodeSet(NodesIn(cs)) == NodesOf(cs)
  {
    var ns := NodesIn(cs);
    forall n | n in NodesOf(cs) ensures n in NodeSet(ns) {
      var c :| c in cs && c.node == n;
      var i :| 0 <= i < |cs| && cs[i] == c;
      assert ns[i] == n;
    }
    forall n | n in NodeSet(ns) ensures n in NodesOf(cs) {
      var i :| 0 <= i < |ns| && ns[i] == n;
      assert cs[i] in cs;
    }
  }

  lemma ChainOfZip<T>(head: Node?<T>, ns: seq<Node<T>>, ds: seq<T>)
    requires head == At(ns, 0) && AllDifferent(ns) && Forward(ns, ds)
    ensures Chain(head, Zip(ns, ds)) && NodesIn(Zip(ns, ds)) == ns && DataOf(Zip(ns, ds)) == ds
    ensures NodeSet(ns) == NodesOf(Zip(ns, ds))
  {
    NodesInHas(Zip(ns, ds));
    assert NodesIn(Zip(ns, ds)) == ns;
  }

  lemma ForwardOfChain<T>(head: Node?<T>, cs: seq<Cell<T>>)
    requires Chain(head, cs)
    ensures head == At(NodesIn(cs), 0) && AllDifferent(NodesIn(cs)) && Forward(NodesIn(cs), DataOf(cs))
  {
    var ns := NodesIn(cs);
    forall i | 0 <= i < |ns| ensures ns[i].data == DataOf(cs)[i] && ns[i].next == At(ns, i + 1) {
      assert ns[i] == cs[i].node;
    }
  }

  /**
    Nodes that are linked backwards in two orders are in one order: if the `prev` fields
    fit `ms` and fit `ns`, and the nodes are the same, then `ms == ns`.
  */
  lemma {:induction false} BackwardIsUnique<T>(ms: seq<Node<T>>, ns: seq<Node<T>>, upto: nat)
    requires AllDifferent(ns) && Backward(ms) && Backward(ns)
    requires NodeSet(ms) == NodeSet(ns)
    requires upto <= |ms| == |ns|
    ensures ms[..upto] == ns[..upto]
  {
    if upto > 0 {
      BackwardIsUnique(ms, ns, upto - 1);
      var i := upto - 1;
      assert ms[i] in NodeSet(ms);
      var j :| 0 <= j < |ns| && ns[j] == ms[i];
      assert ns[j].prev == At(ns, j - 1) && ms[i].prev == At(ms, i - 1);
      if i > 0 {
        assert ms[i - 1] == ms[..i][i - 1] == ns[..i][i - 1] == ns[i - 1];
      }
      assert j == i;
      assert ms[..upto] == ms[..i] + [ms[i]] && ns[..upto] == ns[..i] + [ns[i]];
    }
  }

  ghost function SortedNodes<T>(cmp: Comparator<T>, ns: seq<Node<T>>, xs: seq<T>): (ms: seq<Node<T>>)
    requires |ns| == |xs|
    ensures |ms| == |ns|
  {
    NodesIn(Sort(OnData(cmp), Zip(ns, xs)))
  }

  lemma SameNodesSorted<T>(cmp: Comparator<T>, ns: seq<Node<T>>, xs: seq<T>)
    requires |ns| == |xs|
    ensures |SortedNodes(cmp, ns, xs)| == |ns|
    ensures NodeSet(SortedNodes(cmp, ns, xs)) == NodeSet(ns)
  {
    NodesInHas(Zip(ns, xs));
    NodesInHas(Sort(OnData(cmp), Zip(ns, xs)));
    CellsOfSort(cmp, Zip(ns, xs));
    assert NodesIn(Zip(ns, xs)) == ns;
  }

  /** Sorted data stay where they are, and nodes that stay where they are were sorted. */
  lemma SortMovesNodes<T(!new)>(cmp: Comparator<T>, ns: seq<Node<T>>, xs: seq<T>)
    requires |ns| == |xs| && AllDifferent(ns)
    ensures Sorted(cmp, xs) ==> SortedNodes(cmp, ns, xs) == ns
    ensures SortedNodes(cmp, ns, xs) == ns ==> Sort(cmp, xs) == xs
  {
    var cs := Zip(ns, xs);
    assert NodesIn(cs) == ns && DataOf(cs) == xs;
    DataOfSort(cmp, cs);
    if Sorted(cmp, xs) {
      forall i, j | 0 <= i < j < |cs| ensures OnData(cmp)(cs[i], cs[j]) <= 0 {
        assert cmp(xs[i], xs[j]) <= 0;
      }
      SortKeepsSorted(OnData(cmp), cs);
    }
    var ds := Sort(OnData(cmp), cs);
    SortPermutes(OnData(cmp), cs);
    if NodesIn(ds) == ns {
      SameNodesSameCells(ns, xs, ds);
    }
  }

  lemma SameNodesSameCells<T>(ns: seq<Node<T>>, xs: seq<T>, ds: seq<Cell<T>>)
    requires |ns| == |xs| && AllDifferent(ns)
    requires multiset(ds) == multiset(Zip(ns, xs)) && NodesIn(ds) == ns
    ensures DataOf(ds) == xs
  {
    forall i | 0 <= i < |ds| ensures ds[i].data == xs[i] {
      assert ds[i] in multiset(ds);
      var j :| 0 <= j < |ns| && Zip(ns, xs)[j] == ds[i];
      assert NodesIn(ds)[i] == ns[i];
      assert i == j;
    }
  }

  /** Sorts a chain and then walks to its end for the new last node. */
  method SortNodes<T(!new)>(head: Node?<T>, cmp: Comparator<T>, ghost ns: seq<Node<T>>, ghost xs: seq<T>)
    returns (first: Node?<T>, last: Node?<T>)
    requires head == At(ns, 0) && AllDifferent(ns) && Forward(ns, xs)
    modifies ns`next
    ensures var ms := SortedNodes(cmp, ns, xs);
      first == At(ms, 0) && last == At(ms, |ms| - 1) && AllDifferent(ms) && Forward(ms, Sort(cmp, xs))
  {
    hide Sort, Merge, OnData, Zip;
    ghost var cs := Zip(ns, xs);
    ghost var ds := Sort(OnData(cmp), cs);
    ChainOfZip(head, ns, xs);
    DataOfSort(cmp, cs);
    first := MergeSortFrom(head, cmp, cs);
    last := first;
    ghost var i := 0;
    while last != null && last.next != null
      invariant 0 <= i && last == NodeAt(ds, i) && (i < |ds| || ds == [])
      decreases |ds| - i
    {
      last := last.next;
      i := i + 1;
    }
    ForwardOfChain(first, ds);
  }

  lemma BackwardExactly<T>(ms: seq<Node<T>>, ns: seq<Node<T>>)
    requires AllDifferent(ns) && Backward(ns) && NodeSet(ms) == NodeSet(ns) && |ms| == |ns|
    ensures Backward(ms) <==> ms == ns
  {
    if Backward(ms) {
      BackwardIsUnique(ms, ns, |ns|);
      assert ms[..|ns|] == ms && ns[..|ns|] == ns;
    }
  }

  lemma NodesStayExactly<T(!new)>(cmp: Comparator<T>, ns: seq<Node<T>>, xs: seq<T>)
    requires |ns| == |xs| && AllDifferent(ns) && TotalPreorder(cmp)
    ensures SortedNodes(cmp, ns, xs) == ns <==> Sorted(cmp, xs)
  {
    hide SortedNodes, TotalPreorder, Sorted;
    SortFixesExactlySorted(cmp, xs);
    SortMovesNodes(cmp, ns, xs);
  }

  /** `b` comes right after `a`. */
  ghost predicate Adjacent<T>(ns: seq<Node<T>>, a: Node<T>, b: Node<T>)
  {
    exists i :: 0 < i < |ns| && ns[i - 1] == a && ns[i] == b
  }

  lemma PrevIsAdjacent<T>(ns: seq<Node<T>>, a: Node<T>, b: Node<T>)
    requires AllDifferent(ns) && Backward(ns) && b in NodeSet(ns) && b != ns[0]
    ensures b.prev != null && b.prev in NodeSet(ns)
    ensures b.prev == a <==> Adjacent(ns, a, b)
  {
    var i :| 0 <= i < |ns| && ns[i] == b;
    assert b.prev == ns[i - 1];
  }

  class List<T(!new)> {
    var first: Node?<T>
    var last: Node?<T>
    var length: int
    ghost var nodes: seq<Node<T>>
    ghost var contents: seq<T>
    ghost var repr: set<Node<T>>  // every node the list ever had

    ghost predicate Valid()
      reads this, repr
    {
      && NodeSet(nodes) <= repr
      && first == At(nodes, 0) && last == At(nodes, |nodes| - 1) && length == |nodes|
      && AllDifferent(nodes)
      && Forward(nodes, contents)
    }

    /** `next` and `prev` are each other's inverses. */
    ghost predicate Linked()
      reads this, repr
    {
      Valid() && Backward(nodes)
    }

    constructor ()
      ensures Linked() && contents == [] && repr == {}
    {
      first, last, length := null, null, 0;
      nodes, contents, repr := [], [], {};
    }

    method Push(x: T)
      requires Valid()
      modifies this, repr
      ensures Valid() && contents == old(contents) + [x]
      ensures old(Linked()) ==> Linked()
      ensures fresh(repr - old(repr))
    {
      hide At, AllDifferent;
      var n := new Node(x);
      DifferentSnoc(nodes, n);
      EndsSnoc(nodes, n);
      Hook(n);
      ForwardSnoc(nodes, contents, n);
      if old(Linked()) {
        BackwardSnoc(nodes, n);
      }
      length := length + 1;
      nodes, contents, repr := nodes + [n], contents + [x], repr + {n};
    }

    /** The pointer assignments of pushing. */
    method Hook(n: Node<T>)
      requires Valid() && n !in repr && n.prev == null
      modifies `first, `last, nodes`next, n`prev
      ensures first == At(nodes + [n], 0) && last == n && n.prev == At(nodes, |nodes| - 1)
      ensures forall i {:trigger nodes[i].next} :: 0 <= i < |nodes| ==> nodes[i].next == At(nodes + [n], i + 1)
    {
      if length == 0 {
        first, last := n, n;
      } else {
        last.next := n;
        n.prev := last;
        last := n;
      }
    }

    /** Pop takes the last element; it follows `prev`, so the list has to be linked both ways. */
    /**
      Takes the last element and follows its `prev`.  The list is right afterwards if and only
      if that field was.
    */
    method Pop() returns (r: Option<T>)
      requires Valid()
      requires length >= 2 ==> last.prev != null && last.prev in repr
      modifies this, repr
      ensures repr == old(repr)
      ensures old(contents) == [] ==> r == None && contents == [] && nodes == []
      ensures old(contents) != [] ==>
                && r == Some(old(contents)[|old(contents)| - 1])
                && contents == old(contents)[..|old(contents)| - 1]
                && nodes == old(nodes)[..|old(nodes)| - 1]
      ensures Valid() <==> old(length <= 1 || last.prev == At(nodes, |nodes| - 2))
      ensures old(Linked()) ==> Linked()
    {
      if length == 0 {
        return None;
      }
      var data := last.data;
      if length == 1 {
        first, last := null, null;
      } else {
        last := last.prev;
        last.next := null;
      }
      nodes, contents := nodes[..|nodes| - 1], contents[..|contents| - 1];
      length := length - 1;
      r := Some(data);
    }

    /** The search keeps the node before the one it looks at. */
    method Search(matches: T -> bool) returns (found: bool, prev: Node?<T>, current: Node?<T>)
      requires Valid()
      ensures var k := FirstMatch(matches, contents);
        && (found <==> k < |nodes|)
        && prev == At(nodes, k - 1)
        && current == At(nodes, k)
    {
      prev, current := null, first;
      ghost var i := 0;
      while current != null
        invariant 0 <= i <= |nodes| && prev == At(nodes, i - 1) && current == At(nodes, i)
        invariant FirstMatch(matches, contents) == i + FirstMatch(matches, contents[i..])
        decreases |nodes| - i
      {
        if matches(current.data) {
          return true, prev, current;
        }
        prev, current := current, current.next;
        assert contents[i..][1..] == contents[i + 1..];
        i := i + 1;
      }
      found := false;
    }

    /** The pointer assignments of unlinking: both neighbours of `current` skip it. */
    method Bypass(prev: Node?<T>, current: Node<T>, ghost k: nat)
      requires Valid() && k < |nodes| && current == nodes[k] && prev == At(nodes, k - 1)
      modifies `first, `last, nodes`next, nodes`prev
      ensures first == At(nodes, if k == 0 then 1 else 0)
      ensures last == At(nodes, if k + 1 == |nodes| then |nodes| - 2 else |nodes| - 1)
      ensures forall i {:trigger nodes[i].next} :: 0 <= i < |nodes| && i != k ==>
        nodes[i].next == At(nodes, if i + 1 == k then k + 1 else i + 1)
      ensures forall i {:trigger nodes[i].prev} :: 0 <= i < |nodes| && i != k ==>
        nodes[i].prev == if i - 1 == k then At(nodes, k - 1) else old(nodes[i].prev)
    {
      if prev == null {
        first := current.next;
      } else {
        prev.next := current.next;
      }
      if current.next == null {
        last := prev;
      } else {
        current.next.prev := prev;
      }
    }

    /** Takes `current` out, `prev` being the node before it. */
    method Unlink(prev: Node?<T>, current: Node<T>, ghost k: nat) returns (data: T)
      requires Valid() && k < |nodes| && current == nodes[k] && prev == At(nodes, k - 1)
      modifies this, repr
      ensures Valid() && contents == Without(old(contents), k) && nodes == Without(old(nodes), k) && repr == old(repr)
      ensures data == old(contents)[k]
      ensures old(Linked()) ==> Linked()
    {
      hide Without;
      data := current.data;
      Bypass(prev, current, k);
      EndsWithout(nodes, k);
      ForwardWithout(nodes, contents, k);
      DifferentWithout(nodes, k);
      if old(Linked()) {
        BackwardWithout(nodes, k);
      }
      length := length - 1;
      nodes, contents := Without(nodes, k), Without(contents, k);
    }

    /** The relinking of the sort; `prev` fields are not written. */
    method SortNext(cmp: Comparator<T>)
      requires Valid()
      modifies `first, `last, `nodes, `contents, nodes`next
      ensures Valid() && contents == Sort(cmp, old(contents))
      ensures nodes == SortedNodes(cmp, old(nodes), old(contents))
    {
      hide Sort, SortedNodes, At;
      SameNodesSorted(cmp, nodes, contents);
      ghost var ms := SortedNodes(cmp, nodes, contents);
      first, last := SortNodes(first, cmp, nodes, contents);
      nodes, contents := ms, Sort(cmp, contents);
    }

    /**
      Sorting relinks the nodes themselves, along `next` only.  The `prev` fields are right
      afterwards exactly when there was nothing to sort.
    */
    method MergeSort(cmp: Comparator<T>)
      requires Valid()
      modifies `first, `last, `nodes, `contents, nodes`next
      ensures Valid() && contents == Sort(cmp, old(contents))
      ensures |nodes| == |old(nodes)| && NodeSet(nodes) == NodeSet(old(nodes))
      ensures TotalPreorder(cmp) && old(Linked()) ==> (Linked() <==> Sorted(cmp, old(contents)))
    {
      ghost var ns, xs, linked := nodes, contents, Backward(nodes);
      SameNodesSorted(cmp, ns, xs);
      SortNext(cmp);
      if TotalPreorder(cmp) && linked {
        hide SortedNodes, TotalPreorder, Sorted, Sort;
        BackwardExactly(nodes, ns);
        NodesStayExactly(cmp, ns, xs);
      }
    }

    /**
      What the loader does with its list of files: sort it once, then pop.  The first pop leaves
      a right list if and only if the two that are last after sorting stood next to each other,
      in that order, before; where the last one was the first, the code follows a null pointer.
    */
    method SortAndPop(cmp: Comparator<T>) returns (r: Option<T>)
      requires Linked()
      requires |nodes| >= 2 ==> SortedNodes(cmp, nodes, contents)[|nodes| - 1] != nodes[0]
      modifies this, repr
      ensures old(contents) == [] ==> r == None
      ensures old(contents) != [] ==> r == Some(Sort(cmp, old(contents))[|old(contents)| - 1])
      ensures old(contents) != [] ==> contents == Sort(cmp, old(contents))[..|old(contents)| - 1]
      ensures var ns, ms := old(nodes), SortedNodes(cmp, old(nodes), old(contents));
        Valid() <==> |ns| <= 1 || Adjacent(ns, ms[|ns| - 2], ms[|ns| - 1])
    {
      hide Sort, SortedNodes;
      SameNodesSorted(cmp, nodes, contents);
      ghost var ns, ms := nodes, SortedNodes(cmp, nodes, contents);
      SortNext(cmp);
      if length >= 2 {
        PrevIsAdjacent(ns, ms[|ns| - 2], ms[|ns| - 1]);
      }
      r := Pop();
    }

    /** Writes the data of a node in place. */
    method Store(current: Node<T>, ghost k: nat, x: T)
      requires Valid() && k < |nodes| && current == nodes[k]
      modifies `contents, current`data
      ensures Valid() && contents == old(contents)[k := x]
    {
      current.data := x;
      contents := contents[k := x];
    }

    method PopFirstMatch(matches: T -> bool) returns (r: Option<T>)
      requires Valid()
      modifies this, repr
      ensures Valid() && repr == old(repr) && (old(Linked()) ==> Linked())
      ensures var k := FirstMatch(matches, old(contents));
        if k == |old(contents)| then r == None && contents == old(contents) && nodes == old(nodes)
        else r == Some(old(contents)[k]) && contents == Without(old(contents), k) && nodes == Without(old(nodes), k)
    {
      var found, prev, current := Search(matches);
      if !found {
        return None;
      }
      var data := Unlink(prev, current, FirstMatch(matches, contents));
      r := Some(data);
    }

    method PeekFirstMatch(matches: T -> bool) returns (r: Option<T>)
      requires Valid()
      ensures var k := FirstMatch(matches, contents);
        r == if k == |contents| then None else Some(contents[k])
    {
      var found, prev, current := Search(matches);
      r := if found then Some(current.data) else None;
    }
  }
}
