/**
  The sorting function that the in-place merge sort of the linked list computes, as a
  function on sequences, and what it promises for every comparator that is a total
  preorder: the result is sorted, a permutation, stable, and those three facts
  determine it.  Module `LinkedLists` proves that the relinking code computes `Sort`.
*/
module Sorting {

  /** A comparator in the style of `strcmp`: "not above" means `cmp(x, y) <= 0`. */
  type Comparator<!T> = (T, T) -> int

  predicate Le<T>(cmp: Comparator<T>, x: T, y: T)
  {
    cmp(x, y) <= 0
  }

  ghost predicate TotalPreorder<T(!new)>(cmp: Comparator<T>)
  {
    && (forall x, y :: Le(cmp, x, y) || Le(cmp, y, x))
    && (forall x, y, z :: Le(cmp, x, y) && Le(cmp, y, z) ==> Le(cmp, x, z))
  }

  /** Neither element is above the other. */
  predicate Same<T>(cmp: Comparator<T>, x: T, y: T)
  {
    cmp(x, y) <= 0 && cmp(y, x) <= 0
  }

  ghost predicate Sorted<T>(cmp: Comparator<T>, s: seq<T>)
  {
    forall i, j :: 0 <= i < j < |s| ==> cmp(s[i], s[j]) <= 0
  }

  /** The elements of `s` that are the same as `x` for the comparator, in order. */
  ghost function Class<T>(cmp: Comparator<T>, x: T, s: seq<T>): seq<T>
  {
    if s == [] then [] else Kept(cmp, x, s[0]) + Class(cmp, x, s[1..])
  }

  ghost function Kept<T>(cmp: Comparator<T>, x: T, y: T): seq<T>
  {
    if Same(cmp, x, y) then [y] else []
  }

  function Merge<T>(cmp: Comparator<T>, a: seq<T>, b: seq<T>): (r: seq<T>)
    ensures |r| == |a| + |b|
    decreases |a| + |b|
  {
    if a == [] then b
    else if b == [] then a
    else if cmp(a[0], b[0]) <= 0 then [a[0]] + Merge(cmp, a[1..], b)
    else [b[0]] + Merge(cmp, a, b[1..])
  }

  /** The front half takes the odd element. */
  function Half(n: nat): nat
  {
    (n + 1) / 2
  }

  function Sort<T>(cmp: Comparator<T>, s: seq<T>): (r: seq<T>)
    ensures |r| == |s|
    decreases |s|
  {
    if |s| <= 1 then s
    else Merge(cmp, Sort(cmp, s[..Half(|s|)]), Sort(cmp, s[Half(|s|)..]))
  }

  // ----- permutation, for any comparator whatever

  lemma {:induction false} MergePermutes<T>(cmp: Comparator<T>, a: seq<T>, b: seq<T>)
    ensures multiset(Merge(cmp, a, b)) == multiset(a) + multiset(b)
    decreases |a| + |b|
  {
    if a != [] && b != [] {
      if cmp(a[0], b[0]) <= 0 {
        assert a == [a[0]] + a[1..];
        MergePermutes(cmp, a[1..], b);
      } else {
        assert b == [b[0]] + b[1..];
        MergePermutes(cmp, a, b[1..]);
      }
    }
  }

  lemma {:induction false} SortPermutes<T>(cmp: Comparator<T>, s: seq<T>)
    ensures multiset(Sort(cmp, s)) == multiset(s)
    decreases |s|
  {
    hide Merge;
    if |s| > 1 {
      var h := Half(|s|);
      Halves(s, h);
      SortPermutes(cmp, s[..h]);
      SortPermutes(cmp, s[h..]);
      MergePermutes(cmp, Sort(cmp, s[..h]), Sort(cmp, s[h..]));
    }
  }

  lemma Halves<T>(s: seq<T>, h: nat)
    requires h <= |s|
    ensures multiset(s) == multiset(s[..h]) + multiset(s[h..])
  {
    assert s == s[..h] + s[h..];
  }

  // ----- sortedness

  lemma SortedFromHead<T>(cmp: Comparator<T>, x: T, s: seq<T>)
    requires Sorted(cmp, s)
    requires forall y :: y in multiset(s) ==> cmp(x, y) <= 0
    ensures Sorted(cmp, [x] + s)
  {
    forall i, j | 0 <= i < j < |[x] + s| ensures cmp(([x] + s)[i], ([x] + s)[j]) <= 0 {
      assert ([x] + s)[j] == s[j - 1];
      assert s[j - 1] in multiset(s);
    }
  }

  lemma HeadIsLeast<T(!new)>(cmp: Comparator<T>, s: seq<T>)
    requires TotalPreorder(cmp) && Sorted(cmp, s) && s != []
    ensures forall y :: y in multiset(s) ==> cmp(s[0], y) <= 0
  {
    forall y | y in multiset(s) ensures cmp(s[0], y) <= 0 {
      var i :| 0 <= i < |s| && s[i] == y;
      assert Le(cmp, y, y) || !Le(cmp, y, y);
    }
  }

  /** What is below the head of a sorted sequence is below all of it. */
  lemma BelowAll<T(!new)>(cmp: Comparator<T>, x: T, s: seq<T>)
    requires TotalPreorder(cmp) && Sorted(cmp, s)
    requires s != [] ==> cmp(x, s[0]) <= 0
    ensures forall y :: y in multiset(s) ==> cmp(x, y) <= 0
  {
    if s != [] {
      HeadIsLeast(cmp, s);
      forall y | y in multiset(s) ensures cmp(x, y) <= 0 {
        assert Le(cmp, x, s[0]) && Le(cmp, s[0], y);
        assert Le(cmp, x, y);
      }
    }
  }

  lemma {:induction false} MergeSorted<T(!new)>(cmp: Comparator<T>, a: seq<T>, b: seq<T>)
    requires TotalPreorder(cmp) && Sorted(cmp, a) && Sorted(cmp, b)
    ensures Sorted(cmp, Merge(cmp, a, b))
    decreases |a| + |b|
  {
    if a != [] && b != [] {
      if cmp(a[0], b[0]) <= 0 {
        MergeSorted(cmp, a[1..], b);
        BelowAll(cmp, a[0], a[1..]);
        BelowAll(cmp, a[0], b);
        MergePermutes(cmp, a[1..], b);
        SortedFromHead(cmp, a[0], Merge(cmp, a[1..], b));
      } else {
        assert Le(cmp, a[0], b[0]) || Le(cmp, b[0], a[0]);
        MergeSorted(cmp, a, b[1..]);
        BelowAll(cmp, b[0], a);
        BelowAll(cmp, b[0], b[1..]);
        MergePermutes(cmp, a, b[1..]);
        SortedFromHead(cmp, b[0], Merge(cmp, a, b[1..]));
      }
    }
  }

  lemma {:induction false} SortSorts<T(!new)>(cmp: Comparator<T>, s: seq<T>)
    requires TotalPreorder(cmp)
    ensures Sorted(cmp, Sort(cmp, s))
    decreases |s|
  {
    if |s| > 1 {
      var h := Half(|s|);
      SortSorts(cmp, s[..h]);
      SortSorts(cmp, s[h..]);
      MergeSorted(cmp, Sort(cmp, s[..h]), Sort(cmp, s[h..]));
    }
  }

  // ----- stability

  lemma {:induction false} ClassOfConcat<T>(cmp: Comparator<T>, x: T, a: seq<T>, b: seq<T>)
    ensures Class(cmp, x, a + b) == Class(cmp, x, a) + Class(cmp, x, b)
    decreases |a|
  {
    if a == [] {
      assert a + b == b;
    } else {
      assert (a + b)[0] == a[0] && (a + b)[1..] == a[1..] + b;
      ClassOfConcat(cmp, x, a[1..], b);
    }
  }

  lemma {:induction false} ClassEmpty<T>(cmp: Comparator<T>, x: T, s: seq<T>)
    requires forall y :: y in multiset(s) ==> !Same(cmp, x, y)
    ensures Class(cmp, x, s) == []
    decreases |s|
  {
    if s != [] {
      assert s == [s[0]] + s[1..];
      assert s[0] in multiset(s);
      ClassEmpty(cmp, x, s[1..]);
    }
  }

  /** Everything in `a` is above `y`, hence outside the class of an `x` the same as `y`. */
  lemma AboveIsOutside<T(!new)>(cmp: Comparator<T>, x: T, a: seq<T>, y: T)
    requires TotalPreorder(cmp) && Sorted(cmp, a) && a != []
    requires Same(cmp, x, y) && cmp(a[0], y) > 0
    ensures Class(cmp, x, a) == []
  {
    HeadIsLeast(cmp, a);
    forall z | z in multiset(a) ensures !Same(cmp, x, z) {
      assert Le(cmp, a[0], z) && Le(cmp, z, x) ==> Le(cmp, a[0], x);
      assert Le(cmp, a[0], x) && Le(cmp, x, y) ==> Le(cmp, a[0], y);
    }
    ClassEmpty(cmp, x, a);
  }

  lemma ClassOfCons<T>(cmp: Comparator<T>, x: T, y: T, s: seq<T>)
    ensures Class(cmp, x, [y] + s) == Kept(cmp, x, y) + Class(cmp, x, s)
  {
    assert ([y] + s)[1..] == s;
  }

  lemma ClassOfNothing<T>(cmp: Comparator<T>, x: T)
    ensures Class(cmp, x, []) == []
  {
  }

  lemma {:induction false} MergeStable<T(!new)>(cmp: Comparator<T>, x: T, a: seq<T>, b: seq<T>)
    requires TotalPreorder(cmp) && Sorted(cmp, a) && Sorted(cmp, b)
    ensures Class(cmp, x, Merge(cmp, a, b)) == Class(cmp, x, a) + Class(cmp, x, b)
    decreases |a| + |b|
  {
    hide TotalPreorder, Sorted, Class, Kept;
    if a == [] || b == [] {
      ClassOfConcat(cmp, x, a, b);
      assert Merge(cmp, a, b) == a + b;
      ClassOfNothing(cmp, x);
    } else if cmp(a[0], b[0]) <= 0 {
      SortedTail(cmp, a);
      MergeStable(cmp, x, a[1..], b);
      ClassOfCons(cmp, x, a[0], Merge(cmp, a[1..], b));
      ClassOfCons(cmp, x, a[0], a[1..]);
      assert a == [a[0]] + a[1..];
    } else {
      SortedTail(cmp, b);
      MergeStable(cmp, x, a, b[1..]);
      ClassOfCons(cmp, x, b[0], Merge(cmp, a, b[1..]));
      TakeFromSecond(cmp, x, a, b);
    }
  }

  lemma TakeFromSecond<T(!new)>(cmp: Comparator<T>, x: T, a: seq<T>, b: seq<T>)
    requires TotalPreorder(cmp) && Sorted(cmp, a) && a != [] && b != [] && cmp(a[0], b[0]) > 0
    ensures Kept(cmp, x, b[0]) + (Class(cmp, x, a) + Class(cmp, x, b[1..])) == Class(cmp, x, a) + Class(cmp, x, b)
  {
    if Same(cmp, x, b[0]) {
      AboveIsOutside(cmp, x, a, b[0]);
    }
  }

  lemma MergeOfSortsStable<T(!new)>(cmp: Comparator<T>, x: T, a: seq<T>, b: seq<T>)
    requires TotalPreorder(cmp)
    requires Class(cmp, x, Sort(cmp, a)) == Class(cmp, x, a) && Class(cmp, x, Sort(cmp, b)) == Class(cmp, x, b)
    ensures Class(cmp, x, Merge(cmp, Sort(cmp, a), Sort(cmp, b))) == Class(cmp, x, a + b)
  {
    SortSorts(cmp, a);
    SortSorts(cmp, b);
    MergeStable(cmp, x, Sort(cmp, a), Sort(cmp, b));
    ClassOfConcat(cmp, x, a, b);
  }

  lemma {:induction false} SortStable<T(!new)>(cmp: Comparator<T>, x: T, s: seq<T>)
    requires TotalPreorder(cmp)
    ensures Class(cmp, x, Sort(cmp, s)) == Class(cmp, x, s)
    decreases |s|
  {
    if |s| > 1 {
      var front, back := s[..Half(|s|)], s[Half(|s|)..];
      assert s == front + back;
      SortStable(cmp, x, front);
      SortStable(cmp, x, back);
      MergeOfSortsStable(cmp, x, front, back);
    }
  }

  // ----- the three facts determine the result

  /**
    Two sorted sequences that have the same elements, class by class in the same order,
    are equal.  So "sorted, stable" is a complete description of `Sort`.
  */
  lemma {:induction false} StableSortIsUnique<T(!new)>(cmp: Comparator<T>, s: seq<T>, t: seq<T>)
    requires TotalPreorder(cmp) && Sorted(cmp, s) && Sorted(cmp, t)
    requires forall x :: Class(cmp, x, s) == Class(cmp, x, t)
    ensures s == t
    decreases |s|
  {
    hide TotalPreorder, Sorted, Class;
    BothEmpty(cmp, s, t);
    BothEmpty(cmp, t, s);
    if s != [] {
      SameHead(cmp, s, t);
      forall x ensures Class(cmp, x, s[1..]) == Class(cmp, x, t[1..]) {
        DropHead(cmp, x, s, t);
      }
      SortedTail(cmp, s);
      SortedTail(cmp, t);
      StableSortIsUnique(cmp, s[1..], t[1..]);
      assert s == [s[0]] + s[1..] && t == [t[0]] + t[1..];
    }
  }

  lemma BothEmpty<T(!new)>(cmp: Comparator<T>, s: seq<T>, t: seq<T>)
    requires TotalPreorder(cmp) && forall x :: Class(cmp, x, s) == Class(cmp, x, t)
    ensures s == [] ==> t == []
  {
    if t != [] {
      OwnClass(cmp, t);
    }
  }

  lemma SortedTail<T>(cmp: Comparator<T>, s: seq<T>)
    requires Sorted(cmp, s) && s != []
    ensures Sorted(cmp, s[1..])
  {
  }

  lemma DropHead<T>(cmp: Comparator<T>, x: T, s: seq<T>, t: seq<T>)
    requires s != [] && t != [] && s[0] == t[0] && Class(cmp, x, s) == Class(cmp, x, t)
    ensures Class(cmp, x, s[1..]) == Class(cmp, x, t[1..])
  {
    var kept := Kept(cmp, x, s[0]);
    assert Class(cmp, x, s[1..]) == Class(cmp, x, s)[|kept|..];
    assert Class(cmp, x, t[1..]) == Class(cmp, x, t)[|kept|..];
  }

  lemma {:induction false} ClassMembers<T>(cmp: Comparator<T>, x: T, s: seq<T>)
    ensures forall y :: y in multiset(Class(cmp, x, s)) ==> y in multiset(s)
    decreases |s|
  {
    if s != [] {
      assert s == [s[0]] + s[1..];
      ClassMembers(cmp, x, s[1..]);
    }
  }

  lemma OwnClass<T(!new)>(cmp: Comparator<T>, s: seq<T>)
    requires TotalPreorder(cmp) && s != []
    ensures Class(cmp, s[0], s) != [] && Class(cmp, s[0], s)[0] == s[0]
  {
    assert Le(cmp, s[0], s[0]);
  }

  lemma SameHead<T(!new)>(cmp: Comparator<T>, s: seq<T>, t: seq<T>)
    requires TotalPreorder(cmp) && Sorted(cmp, s) && Sorted(cmp, t) && s != [] && t != []
    requires Class(cmp, s[0], s) == Class(cmp, s[0], t)
    requires Class(cmp, t[0], s) == Class(cmp, t[0], t)
    ensures s[0] == t[0]
  {
    HeadIsLeast(cmp, s);
    HeadIsLeast(cmp, t);
    OwnClass(cmp, s);
    OwnClass(cmp, t);
    ClassMembers(cmp, s[0], t);
    ClassMembers(cmp, t[0], s);
    assert s[0] in multiset(Class(cmp, s[0], t));
    assert t[0] in multiset(Class(cmp, t[0], s));
    assert Same(cmp, s[0], t[0]);
    assert Class(cmp, s[0], t)[0] == t[0];
  }

  // ----- sorting a sorted sequence

  lemma {:induction false} MergeOfOrdered<T>(cmp: Comparator<T>, a: seq<T>, b: seq<T>)
    requires forall i, j :: 0 <= i < |a| && 0 <= j < |b| ==> cmp(a[i], b[j]) <= 0
    ensures Merge(cmp, a, b) == a + b
    decreases |a|
  {
    if a != [] && b != [] {
      MergeOfOrdered(cmp, a[1..], b);
      assert a + b == [a[0]] + (a[1..] + b);
    }
  }

  lemma MergeOfParts<T>(cmp: Comparator<T>, s: seq<T>, h: nat)
    requires Sorted(cmp, s) && h <= |s|
    ensures Sorted(cmp, s[..h]) && Sorted(cmp, s[h..])
    ensures Merge(cmp, s[..h], s[h..]) == s
  {
    forall i, j | 0 <= i < h && 0 <= j < |s| - h ensures cmp(s[..h][i], s[h..][j]) <= 0 {
      assert s[h..][j] == s[h + j];
    }
    MergeOfOrdered(cmp, s[..h], s[h..]);
    assert s == s[..h] + s[h..];
  }

  lemma {:induction false} SortKeepsSorted<T>(cmp: Comparator<T>, s: seq<T>)
    requires Sorted(cmp, s)
    ensures Sort(cmp, s) == s
    decreases |s|
  {
    if |s| > 1 {
      MergeOfParts(cmp, s, Half(|s|));
      SortKeepsSorted(cmp, s[..Half(|s|)]);
      SortKeepsSorted(cmp, s[Half(|s|)..]);
    }
  }

  /** Sorting leaves a sequence exactly as it is if and only if it was sorted already. */
  lemma SortFixesExactlySorted<T(!new)>(cmp: Comparator<T>, s: seq<T>)
    requires TotalPreorder(cmp)
    ensures Sort(cmp, s) == s <==> Sorted(cmp, s)
  {
    SortSorts(cmp, s);
    if Sorted(cmp, s) {
      SortKeepsSorted(cmp, s);
    }
  }
}
