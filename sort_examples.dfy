/**
 * The sorting examples of the accompanying tests: each of the three sorts,
 * run with the default integer ordering on a mixed, an already sorted and
 * a reversed list, yields the ascending list.
 */
module SortExamples {
  import opened Types
  import opened SortBasic

  /**
   * A list sorted under the default integer ordering is the ascending list
   * with the same elements.
   */
  lemma SortedIntsAre(s: seq<int>, t: seq<int>)
    requires Sorted(IntOrder, s) && multiset(s) == multiset(t)
    requires forall i, j :: 0 <= i < j < |t| ==> t[i] <= t[j]
    ensures s == t
  {
    IntOrderIsTotal();
    forall i, j | 0 <= i < j < |t|
      ensures Le(IntOrder, t[i], t[j])
    {
      IntLe(t[i], t[j]);
    }
    SortedPermutationUnique(IntOrder, s, t);
  }

  lemma Bag3(a: int, b: int, c: int)
    ensures multiset([a, b, c]) == multiset{a, b, c}
  {
  }

  lemma Bag5(a: int, b: int, c: int, d: int, e: int)
    ensures multiset([a, b, c, d, e]) == multiset{a, b, c, d, e}
  {
  }

  /** Sorting `[4, 2, 7, 1, 3]` yields `[1, 2, 3, 4, 7]`. */
  lemma MixedSorted(s: seq<int>)
    requires Sorted(IntOrder, s) && multiset(s) == multiset([4, 2, 7, 1, 3])
    ensures s == [1, 2, 3, 4, 7]
  {
    Bag5(4, 2, 7, 1, 3);
    Bag5(1, 2, 3, 4, 7);
    assert multiset{4, 2, 7, 1, 3} == multiset{1, 2, 3, 4, 7};
    SortedIntsAre(s, [1, 2, 3, 4, 7]);
  }

  /** Sorting `[1, 2, 3]` or `[3, 2, 1]` yields `[1, 2, 3]`. */
  lemma ThreeSorted(s: seq<int>)
    requires Sorted(IntOrder, s)
    requires multiset(s) == multiset([1, 2, 3]) || multiset(s) == multiset([3, 2, 1])
    ensures s == [1, 2, 3]
  {
    Bag3(1, 2, 3);
    Bag3(3, 2, 1);
    assert multiset{3, 2, 1} == multiset{1, 2, 3};
    SortedIntsAre(s, [1, 2, 3]);
  }

  /** Selection sort of a fresh array holding `s`, with the default integer ordering. */
  method SelectionSortList(s: seq<int>) returns (r: seq<int>)
    ensures Sorted(IntOrder, r) && multiset(r) == multiset(s)
  {
    IntOrderIsTotal();
    var a := new int[|s|](i requires 0 <= i < |s| => s[i]);
    assert a[..] == s;
    SelectionSort(a, IntOrder);
    r := a[..];
  }

  method SelectionSortExamples() returns (mixed: seq<int>, sorted: seq<int>, reversed: seq<int>)
    ensures mixed == [1, 2, 3, 4, 7] && sorted == [1, 2, 3] && reversed == [1, 2, 3]
  {
    mixed := SelectionSortList([4, 2, 7, 1, 3]);
    MixedSorted(mixed);
    sorted := SelectionSortList([1, 2, 3]);
    ThreeSorted(sorted);
    reversed := SelectionSortList([3, 2, 1]);
    ThreeSorted(reversed);
  }

  /** Insertion sort of a fresh array holding `s`, with the default integer ordering. */
  method InsertionSortList(s: seq<int>) returns (r: seq<int>)
    ensures Sorted(IntOrder, r) && multiset(r) == multiset(s)
  {
    IntOrderIsTotal();
    var a := new int[|s|](i requires 0 <= i < |s| => s[i]);
    assert a[..] == s;
    ghost var origin := InsertionSort(a, IntOrder);
    r := a[..];
  }

  method InsertionSortExamples() returns (mixed: seq<int>, sorted: seq<int>, reversed: seq<int>)
    ensures mixed == [1, 2, 3, 4, 7] && sorted == [1, 2, 3] && reversed == [1, 2, 3]
  {
    mixed := InsertionSortList([4, 2, 7, 1, 3]);
    MixedSorted(mixed);
    sorted := InsertionSortList([1, 2, 3]);
    ThreeSorted(sorted);
    reversed := InsertionSortList([3, 2, 1]);
    ThreeSorted(reversed);
  }

  /** Bubble sort of a fresh array holding `s`, with the default integer ordering. */
  method BubbleSortList(s: seq<int>) returns (r: seq<int>)
    ensures Sorted(IntOrder, r) && multiset(r) == multiset(s)
  {
    IntOrderIsTotal();
    var a := new int[|s|](i requires 0 <= i < |s| => s[i]);
    assert a[..] == s;
    BubbleSort(a, IntOrder);
    r := a[..];
  }

  method BubbleSortExamples() returns (mixed: seq<int>, sorted: seq<int>, reversed: seq<int>)
    ensures mixed == [1, 2, 3, 4, 7] && sorted == [1, 2, 3] && reversed == [1, 2, 3]
  {
    mixed := BubbleSortList([4, 2, 7, 1, 3]);
    MixedSorted(mixed);
    sorted := BubbleSortList([1, 2, 3]);
    ThreeSorted(sorted);
    reversed := BubbleSortList([3, 2, 1]);
    ThreeSorted(reversed);
  }
}
