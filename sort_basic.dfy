/**
 * The three elementary in-place sorts. Each one rearranges the caller's
 * array into ascending order under an `Ordering` by swapping elements, so
 * the array ends sorted and holds the same multiset of elements.
 *
 * The loops keep their invariants as predicates of the array's contents
 * `a[..]`; one lemma per loop step shows that the step preserves them.
 */
module SortBasic {
  import opened Types

  /** Every element of `s[..m]` is at most every element of `s[m..]`. */
  ghost predicate Partitioned<T>(cmp: (T, T) -> int, s: seq<T>, m: int) {
    forall k, l :: 0 <= k < m <= l < |s| ==> Le(cmp, s[k], s[l])
  }

  /** `s[j]` is a largest element of `s[..j + 1]`. */
  ghost predicate MaxAt<T>(cmp: (T, T) -> int, s: seq<T>, j: int) {
    0 <= j < |s| && forall k :: 0 <= k <= j ==> Le(cmp, s[k], s[j])
  }

  /** When `s[m]` exists, every element of `s[..m]` is at most `s[m]`. */
  ghost predicate BelowPivot<T>(cmp: (T, T) -> int, s: seq<T>, m: int) {
    0 <= m <= |s| && (m < |s| ==> forall k :: 0 <= k < m ==> Le(cmp, s[k], s[m]))
  }

  /** `s` with the elements at positions `i` and `j` exchanged. */
  function Swapped<T>(s: seq<T>, i: int, j: int): (r: seq<T>)
    requires 0 <= i < |s| && 0 <= j < |s|
    ensures |r| == |s| && r[i] == s[j] && r[j] == s[i]
    ensures forall k :: 0 <= k < |s| && k != i && k != j ==> r[k] == s[k]
    ensures multiset(r) == multiset(s)
    ensures i == j ==> r == s
  {
    s[i := s[j]][j := s[i]]
  }

  /**
   * `p` records where every element of `s` came from: position `k` of `s`
   * holds the element at position `p[k]` of `s0`, and no two positions came
   * from the same place.
   */
  ghost predicate Origins<T>(s: seq<T>, s0: seq<T>, p: seq<int>) {
    && |p| == |s| == |s0|
    && (forall k :: 0 <= k < |p| ==> 0 <= p[k] < |s0| && s[k] == s0[p[k]])
    && (forall k, l :: 0 <= k < l < |p| ==> p[k] != p[l])
  }

  /**
   * Among the positions of `s[..hi]` other than `skip`, elements that tie
   * under `cmp` still appear in the order of their origins `p`.
   */
  ghost predicate TiesInOrder<T>(cmp: (T, T) -> int, s: seq<T>, p: seq<int>, hi: int, skip: int) {
    && 0 <= hi <= |s| == |p|
    && (forall k, l :: 0 <= k < l < hi && k != skip && l != skip && cmp(s[k], s[l]) == 0 ==> p[k] < p[l])
  }

  /** `s` is a stable rearrangement of where its elements came from (`p`). */
  ghost predicate Stable<T>(cmp: (T, T) -> int, s: seq<T>, p: seq<int>) {
    TiesInOrder(cmp, s, p, |s|, |s|)
  }

  /** Exchanging two positions exchanges their origins. */
  lemma OriginsSwap<T>(s: seq<T>, s0: seq<T>, p: seq<int>, i: int, j: int)
    requires Origins(s, s0, p) && 0 <= i < |s| && 0 <= j < |s|
    ensures Origins(Swapped(s, i, j), s0, Swapped(p, i, j))
  {
  }

  /** Exchanges two elements of `a`; the only way the sorts change the array. */
  method Swap<T>(a: array<T>, i: int, j: int)
    requires 0 <= i < a.Length && 0 <= j < a.Length
    modifies a
    ensures a[..] == Swapped(old(a[..]), i, j)
  {
    a[i], a[j] := a[j], a[i];
  }

  /**
   * Under an ordering whose ties are equal values, a multiset has only one
   * sorted arrangement.
   */
  lemma {:induction false} SortedPermutationUnique<T(!new)>(cmp: (T, T) -> int, s: seq<T>, t: seq<T>)
    requires IsTotalOrdering(cmp) && TiesAreEqual(cmp)
    requires Sorted(cmp, s) && Sorted(cmp, t)
    requires multiset(s) == multiset(t)
    ensures s == t
  {
    assert |s| == |multiset(s)| == |t|;
    if s != [] {
      SortedHeadsAgree(cmp, s, t);
      MultisetTail(s);
      MultisetTail(t);
      assert s == [s[0]] + s[1..] && t == [t[0]] + t[1..];
      SortedTail(cmp, s);
      SortedTail(cmp, t);
      SortedPermutationUnique(cmp, s[1..], t[1..]);
    }
  }

  /** Two sorted sequences with the same elements start with the same element. */
  lemma SortedHeadsAgree<T(!new)>(cmp: (T, T) -> int, s: seq<T>, t: seq<T>)
    requires IsTotalOrdering(cmp) && TiesAreEqual(cmp)
    requires Sorted(cmp, s) && Sorted(cmp, t)
    requires multiset(s) == multiset(t) && s != []
    ensures t != [] && s[0] == t[0]
  {
    assert s[0] in multiset(t);
    var k :| 0 <= k < |t| && t[k] == s[0];
    assert t[0] in multiset(s);
    var l :| 0 <= l < |s| && s[l] == t[0];
    assert Le(cmp, t[0], s[0]) && Le(cmp, s[0], t[0]);
  }

  /** Dropping the first element drops one occurrence of it. */
  lemma MultisetTail<T>(s: seq<T>)
    requires s != []
    ensures multiset(s[1..]) == multiset(s) - multiset{s[0]}
  {
    assert s == [s[0]] + s[1..];
  }

  /** Dropping the first element of a sorted sequence leaves it sorted. */
  lemma SortedTail<T>(cmp: (T, T) -> int, s: seq<T>)
    requires s != [] && Sorted(cmp, s)
    ensures Sorted(cmp, s[1..])
  {
    var p := s[1..];
    forall k, l | 0 <= k < l < |p|
      ensures Le(cmp, p[k], p[l])
    {
      assert p[k] == s[k + 1] && p[l] == s[l + 1];
    }
  }

  /** A sorted prefix, a sorted suffix and a pivot between them make a sorted sequence. */
  lemma JoinSorted<T(!new)>(cmp: (T, T) -> int, s: seq<T>, m: int)
    requires IsTotalOrdering(cmp)
    requires 0 <= m <= |s|
    requires Sorted(cmp, s[..m]) && Sorted(cmp, s[m..]) && BelowPivot(cmp, s, m)
    ensures Sorted(cmp, s)
  {
    forall k, l | 0 <= k < l < |s|
      ensures Le(cmp, s[k], s[l])
    {
      if l < m {
        assert s[..m][k] == s[k] && s[..m][l] == s[l];
      } else if m <= k {
        assert s[m..][k - m] == s[k] && s[m..][l - m] == s[l];
      } else {
        assert s[m..][0] == s[m] && s[m..][l - m] == s[l];
        LeTrans(cmp, s[k], s[m], s[l]);
      }
    }
  }

  /**
   * The inner scan of selection sort: the index of the first minimum of
   * `a[lo..]`. A candidate replaces the current minimum only when it is
   * strictly smaller, so on ties the earliest position wins.
   */
  method MinIndexFrom<T(!new)>(a: array<T>, lo: int, cmp: (T, T) -> int) returns (m: int)
    requires IsTotalOrdering(cmp)
    requires 0 <= lo < a.Length
    ensures lo <= m < a.Length
    ensures forall k :: lo <= k < a.Length ==> Le(cmp, a[m], a[k])
    ensures forall k :: lo <= k < m ==> Lt(cmp, a[m], a[k])
  {
    m := lo;
    var j := lo + 1;
    while j < a.Length
      invariant lo + 1 <= j <= a.Length
      invariant lo <= m < j
      invariant forall k :: lo <= k < j ==> Le(cmp, a[m], a[k])
      invariant forall k :: lo <= k < m ==> Lt(cmp, a[m], a[k])
    {
      if cmp(a[j], a[m]) < 0 {
        forall k | lo <= k < j
          ensures Le(cmp, a[j], a[k])
        {
          LtLeTrans(cmp, a[j], a[m], a[k]);
        }
        forall k | lo <= k < m
          ensures Lt(cmp, a[j], a[k])
        {
          LtTrans(cmp, a[j], a[m], a[k]);
        }
        m := j;
      }
      j := j + 1;
    }
  }

  /**
   * One step of selection sort: swapping a minimum of `s[i..]` into
   * position `i` extends the sorted, partitioned prefix by one.
   */
  lemma SelectionStep<T(!new)>(cmp: (T, T) -> int, s: seq<T>, i: int, m: int)
    requires IsTotalOrdering(cmp)
    requires 0 <= i <= m < |s|
    requires Sorted(cmp, s[..i]) && Partitioned(cmp, s, i)
    requires forall k :: i <= k < |s| ==> Le(cmp, s[m], s[k])
    ensures Sorted(cmp, Swapped(s, i, m)[..i + 1])
    ensures Partitioned(cmp, Swapped(s, i, m), i + 1)
  {
    var t := Swapped(s, i, m);
    var p := t[..i + 1];
    forall k, l | 0 <= k < l < |p|
      ensures Le(cmp, p[k], p[l])
    {
      if l < i {
        assert s[..i][k] == s[k] && s[..i][l] == s[l];
      }
    }
    forall k, l | 0 <= k < i + 1 <= l < |t|
      ensures Le(cmp, t[k], t[l])
    {
      if k == i {
        if l == m {
          assert Le(cmp, s[m], s[i]);
        }
      }
    }
  }

  /**
   * In a sorted sequence the first minimum of a suffix is its first element,
   * so selection sort's exchange on sorted input is an exchange of a
   * position with itself.
   */
  lemma FirstMinimumOfSorted<T>(cmp: (T, T) -> int, s: seq<T>, i: int, m: int)
    requires Sorted(cmp, s) && 0 <= i <= m < |s|
    requires forall k :: i <= k < m ==> Lt(cmp, s[m], s[k])
    ensures m == i
  {
    assert i < m ==> Le(cmp, s[i], s[m]);
  }

  /**
   * Selection sort: for every position in turn, the first minimum of the
   * unsorted suffix is swapped into it.
   */
  method SelectionSort<T(!new)>(a: array<T>, cmp: (T, T) -> int)
    requires IsTotalOrdering(cmp)
    modifies a
    ensures Sorted(cmp, a[..])
    ensures multiset(a[..]) == multiset(old(a[..]))
    ensures Sorted(cmp, old(a[..])) ==> a[..] == old(a[..])
  {
    ghost var wasSorted := Sorted(cmp, a[..]);
    var n := a.Length;
    var i := 0;
    while i < n
      invariant 0 <= i <= n
      invariant Sorted(cmp, a[..i]) && Partitioned(cmp, a[..], i)
      invariant multiset(a[..]) == multiset(old(a[..]))
      invariant wasSorted ==> a[..] == old(a[..])
    {
      var minIdx := MinIndexFrom(a, i, cmp);
      if wasSorted {
        FirstMinimumOfSorted(cmp, a[..], i, minIdx);
      }
      SelectionStep(cmp, a[..], i, minIdx);
      Swap(a, i, minIdx);
      i := i + 1;
    }
    assert a[..i] == a[..];
  }

  /**
   * The order facts of the inner (shifting) loop of insertion sort while it
   * moves the element now at `j` into `s[..hi + 1]`: leaving position `j`
   * out, that prefix is sorted, and the element at `j` is strictly smaller
   * than every element it has already been moved past.
   */
  ghost predicate InnerOrder<T>(cmp: (T, T) -> int, s: seq<T>, hi: int, j: int) {
    && 0 <= j <= hi < |s|
    && (forall k, l :: 0 <= k < l <= hi && k != j && l != j ==> Le(cmp, s[k], s[l]))
    && (forall l :: j < l <= hi ==> Lt(cmp, s[j], s[l]))
  }

  /** Insertion begins with a sorted prefix and the new element at its end. */
  lemma InnerOrderStart<T>(cmp: (T, T) -> int, s: seq<T>, i: int)
    requires 0 <= i < |s| && Sorted(cmp, s[..i])
    ensures InnerOrder(cmp, s, i, i)
  {
    forall k, l | 0 <= k < l <= i && k != i && l != i
      ensures Le(cmp, s[k], s[l])
    {
      assert s[..i][k] == s[k] && s[..i][l] == s[l];
    }
  }

  /** Swapping the inserted element with a strictly greater predecessor moves it one place left. */
  lemma InnerOrderShift<T(!new)>(cmp: (T, T) -> int, s: seq<T>, hi: int, j: int)
    requires IsTotalOrdering(cmp)
    requires InnerOrder(cmp, s, hi, j) && 0 < j && Lt(cmp, s[j], s[j - 1])
    ensures InnerOrder(cmp, Swapped(s, j, j - 1), hi, j - 1)
  {
  }

  /** Once its predecessor is not greater, the inserted element is in place. */
  lemma InnerOrderPlaced<T(!new)>(cmp: (T, T) -> int, s: seq<T>, hi: int, j: int)
    requires IsTotalOrdering(cmp)
    requires InnerOrder(cmp, s, hi, j) && (j == 0 || Le(cmp, s[j - 1], s[j]))
    ensures Sorted(cmp, s[..hi + 1])
  {
    var p := s[..hi + 1];
    forall k, l | 0 <= k < l < |p|
      ensures Le(cmp, p[k], p[l])
    {
      if l == j && k < j - 1 {
        LeTrans(cmp, s[k], s[j - 1], s[j]);
      }
    }
  }

  /**
   * Moving the inserted element one place left, past a strictly greater
   * predecessor, keeps every other pair of tied elements in order.
   */
  lemma TiesInOrderShift<T>(cmp: (T, T) -> int, s: seq<T>, p: seq<int>, hi: int, j: int)
    requires 0 < j < hi && TiesInOrder(cmp, s, p, hi, j)
    ensures TiesInOrder(cmp, Swapped(s, j, j - 1), Swapped(p, j, j - 1), hi, j - 1)
  {
    var t, q := Swapped(s, j, j - 1), Swapped(p, j, j - 1);
    forall k, l | 0 <= k < l < hi && k != j - 1 && l != j - 1 && cmp(t[k], t[l]) == 0
      ensures q[k] < q[l]
    {
      var k', l' := if k == j then j - 1 else k, if l == j then j - 1 else l;
      assert t[k] == s[k'] && t[l] == s[l'] && q[k] == p[k'] && q[l] == p[l'];
    }
  }

  /**
   * The inserted element, whose origin follows every other origin in the
   * prefix and which is strictly smaller than everything after it, keeps
   * tied elements in order once placed.
   */
  lemma TiesInOrderPlaced<T>(cmp: (T, T) -> int, s: seq<T>, p: seq<int>, hi: int, j: int)
    requires InnerOrder(cmp, s, hi, j) && TiesInOrder(cmp, s, p, hi + 1, j)
    requires forall k :: 0 <= k <= hi && k != j ==> p[k] < p[j]
    ensures TiesInOrder(cmp, s, p, hi + 1, hi + 1)
  {
  }

  /**
   * The state of the outer loop of insertion sort before it inserts the
   * element at `i`: the
   * prefix `s[..i]` is sorted and stable with respect to the origins `p`,
   * whose values there are exactly the positions below `i`, while the
   * elements from `i` on have not moved yet.
   */
  ghost predicate OuterState<T>(cmp: (T, T) -> int, s: seq<T>, s0: seq<T>, p: seq<int>, i: int) {
    && 1 <= i && (|s| == 0 || i <= |s|)
    && (|s| == 0 || Sorted(cmp, s[..i]))
    && multiset(s) == multiset(s0) && Origins(s, s0, p)
    && (|s| == 0 || TiesInOrder(cmp, s, p, i, i))
    && (forall k :: 0 <= k < |p| ==> (k < i ==> p[k] < i) && (i <= k ==> p[k] == k))
  }

  /** Before the first insertion every element is at its origin. */
  lemma OuterStart<T>(cmp: (T, T) -> int, s: seq<T>)
    ensures OuterState(cmp, s, s, seq(|s|, k => k), 1)
  {
  }

  /** After the last insertion the whole sequence is sorted and stable. */
  lemma OuterFinish<T>(cmp: (T, T) -> int, s: seq<T>, s0: seq<T>, p: seq<int>, i: int)
    requires OuterState(cmp, s, s0, p, i) && |s| <= i
    ensures Sorted(cmp, s) && multiset(s) == multiset(s0)
    ensures Origins(s, s0, p) && Stable(cmp, s, p)
  {
    if |s| > 0 {
      assert s[..i] == s;
    }
  }

  /**
   * The state of the inner loop during one insertion into `s[..hi + 1]`,
   * while the element that started at `hi` sits at `j`: `s` is `s1`
   * rearranged within the prefix, and the shift so far has only moved the
   * element past strictly greater ones.
   */
  ghost predicate InnerState<T>(cmp: (T, T) -> int, s: seq<T>, s1: seq<T>, hi: int, j: int) {
    && InnerOrder(cmp, s, hi, j) && |s1| == |s|
    && s[hi + 1..] == s1[hi + 1..] && multiset(s) == multiset(s1)
    && (j == hi ==> s == s1)
    && (j < hi ==> Lt(cmp, s1[hi], s1[hi - 1]))
  }

  /**
   * The origins `q` in the inner loop during the same insertion: they are `p` rearranged
   * within the prefix, the moving element keeps the origin it had at `hi`,
   * which follows every other origin in the prefix, and ties other than the
   * moving element are in the order of their origins.
   */
  ghost predicate InnerOrigins<T>(cmp: (T, T) -> int, s: seq<T>, q: seq<int>, s0: seq<T>, p: seq<int>, hi: int, j: int) {
    && 0 <= j <= hi < |q| == |p|
    && Origins(s, s0, q) && TiesInOrder(cmp, s, q, hi + 1, j)
    && q[hi + 1..] == p[hi + 1..] && q[j] == p[hi]
    && (forall k :: 0 <= k <= hi && k != j ==> q[k] < p[hi])
  }

  /** The state at the start of an insertion. */
  lemma InnerStart<T>(cmp: (T, T) -> int, s: seq<T>, s0: seq<T>, p: seq<int>, hi: int)
    requires OuterState(cmp, s, s0, p, hi) && hi < |s|
    ensures InnerState(cmp, s, s, hi, hi) && InnerOrigins(cmp, s, p, s0, p, hi, hi)
  {
    InnerOrderStart(cmp, s, hi);
  }

  /** One exchange of the moving element with a strictly greater predecessor. */
  lemma InnerShift<T(!new)>(cmp: (T, T) -> int, s: seq<T>, s1: seq<T>, hi: int, j: int)
    requires IsTotalOrdering(cmp)
    requires InnerState(cmp, s, s1, hi, j) && 0 < j && Lt(cmp, s[j], s[j - 1])
    ensures InnerState(cmp, Swapped(s, j, j - 1), s1, hi, j - 1)
  {
    InnerOrderShift(cmp, s, hi, j);
    assert Swapped(s, j, j - 1)[hi + 1..] == s[hi + 1..];
  }

  /** The same exchange, as seen by the origins. */
  lemma InnerShiftOrigins<T>(cmp: (T, T) -> int, s: seq<T>, q: seq<int>, s0: seq<T>, p: seq<int>, hi: int, j: int)
    requires InnerOrigins(cmp, s, q, s0, p, hi, j) && 0 < j
    ensures InnerOrigins(cmp, Swapped(s, j, j - 1), Swapped(q, j, j - 1), s0, p, hi, j - 1)
  {
    TiesInOrderShift(cmp, s, q, hi + 1, j);
    OriginsSwap(s, s0, q, j, j - 1);
    assert Swapped(q, j, j - 1)[hi + 1..] == q[hi + 1..];
  }

  /**
   * Once the moving element's predecessor is not greater, the insertion is
   * complete: the sorted, stable prefix is one longer.
   */
  lemma InnerFinish<T(!new)>(cmp: (T, T) -> int, s: seq<T>, q: seq<int>, s0: seq<T>, s1: seq<T>, p: seq<int>, hi: int, j: int)
    requires IsTotalOrdering(cmp)
    requires OuterState(cmp, s1, s0, p, hi) && hi < |s1|
    requires InnerState(cmp, s, s1, hi, j) && InnerOrigins(cmp, s, q, s0, p, hi, j)
    requires j == 0 || Le(cmp, s[j - 1], s[j])
    ensures OuterState(cmp, s, s0, q, hi + 1)
    ensures s[hi + 1..] == s1[hi + 1..] && (Le(cmp, s1[hi - 1], s1[hi]) ==> s == s1)
  {
    InnerOrderPlaced(cmp, s, hi, j);
    TiesInOrderPlaced(cmp, s, q, hi, j);
    forall k | hi + 1 <= k < |q|
      ensures q[k] == k
    {
      assert q[k] == q[hi + 1..][k - hi - 1] == p[k];
    }
  }

  /**
   * One step of an insertion: the moving element at `j` is exchanged with
   * its strictly greater predecessor, and so are their origins.
   */
  method ShiftLeft<T(!new)>(a: array<T>, hi: int, j: int, cmp: (T, T) -> int,
                            ghost s0: seq<T>, ghost s1: seq<T>, ghost p: seq<int>, ghost q: seq<int>)
    returns (ghost q': seq<int>)
    requires IsTotalOrdering(cmp)
    requires InnerState(cmp, a[..], s1, hi, j) && InnerOrigins(cmp, a[..], q, s0, p, hi, j)
    requires 0 < j && Lt(cmp, a[j], a[j - 1])
    modifies a
    ensures a[..] == Swapped(old(a[..]), j, j - 1) && q' == Swapped(q, j, j - 1)
    ensures InnerState(cmp, a[..], s1, hi, j - 1) && InnerOrigins(cmp, a[..], q', s0, p, hi, j - 1)
  {
    InnerShift(cmp, a[..], s1, hi, j);
    InnerShiftOrigins(cmp, a[..], q, s0, p, hi, j);
    Swap(a, j, j - 1);
    q' := Swapped(q, j, j - 1);
  }

  /**
   * One insertion: the element at `i` is moved left past the predecessors
   * that are strictly greater than it, which extends the sorted, stable
   * prefix by one and leaves the elements after `i` alone. An element no
   * smaller than its predecessor does not move. The ghost `p` and `q` are
   * the origins of the elements before and after.
   */
  method Insert<T(!new)>(a: array<T>, i: int, cmp: (T, T) -> int, ghost s0: seq<T>, ghost p: seq<int>)
    returns (ghost q: seq<int>)
    requires IsTotalOrdering(cmp)
    requires 0 < i < a.Length && OuterState(cmp, a[..], s0, p, i)
    modifies a
    ensures OuterState(cmp, a[..], s0, q, i + 1)
    ensures a[i + 1..] == old(a[i + 1..])
    ensures Le(cmp, old(a[i - 1]), old(a[i])) ==> a[..] == old(a[..])
  {
    InnerStart(cmp, a[..], s0, p, i);
    q := p;
    var j := i;
    while j > 0 && cmp(a[j], a[j - 1]) < 0
      invariant InnerState(cmp, a[..], old(a[..]), i, j)
      invariant InnerOrigins(cmp, a[..], q, s0, p, i, j)
    {
      q := ShiftLeft(a, i, j, cmp, s0, old(a[..]), p, q);
      j := j - 1;
    }
    InnerFinish(cmp, a[..], q, s0, old(a[..]), p, i, j);
  }

  /**
   * Insertion sort: every element in turn, from the second on, is inserted
   * into the sorted prefix before it. The sort is stable: the ghost
   * `origin` says where each element came from, and tied elements keep
   * their original order.
   */
  method InsertionSort<T(!new)>(a: array<T>, cmp: (T, T) -> int) returns (ghost origin: seq<int>)
    requires IsTotalOrdering(cmp)
    modifies a
    ensures Sorted(cmp, a[..])
    ensures multiset(a[..]) == multiset(old(a[..]))
    ensures Sorted(cmp, old(a[..])) ==> a[..] == old(a[..])
    ensures Origins(a[..], old(a[..]), origin) && Stable(cmp, a[..], origin)
  {
    ghost var wasSorted := Sorted(cmp, a[..]);
    OuterStart(cmp, a[..]);
    origin := seq(a.Length, k => k);
    var i := 1;
    while i < a.Length
      invariant OuterState(cmp, a[..], old(a[..]), origin, i)
      invariant wasSorted ==> a[..] == old(a[..])
    {
      if wasSorted {
        assert Le(cmp, a[..][i - 1], a[..][i]);
      }
      origin := Insert(a, i, cmp, old(a[..]), origin);
      i := i + 1;
    }
    OuterFinish(cmp, a[..], old(a[..]), origin, i);
  }

  /** A sorted prefix followed by an element no smaller than any in it is still sorted. */
  lemma SortedExtend<T>(cmp: (T, T) -> int, s: seq<T>, m: int)
    requires 0 <= m < |s| && Sorted(cmp, s[..m]) && MaxAt(cmp, s, m)
    ensures Sorted(cmp, s[..m + 1])
  {
    var p := s[..m + 1];
    forall k, l | 0 <= k < l < |p|
      ensures Le(cmp, p[k], p[l])
    {
      if l < m {
        assert s[..m][k] == s[k] && s[..m][l] == s[l];
      }
    }
  }

  /**
   * The state of a bubble-sort pass over `s[..end]` that started from `s0`
   * and has reached position `j`: `s[j]` is a largest element of `s[..j + 1]`,
   * the prefix stays below the pivot `s[end]`, the suffix `s[end..]` and the
   * multiset of elements are those of `s0`, and while nothing has been
   * swapped (`clean`) the sequence is still `s0` and its scanned part
   * `s[..j + 1]` is sorted.
   */
  ghost predicate PassState<T>(cmp: (T, T) -> int, s: seq<T>, s0: seq<T>, j: int, end: int, clean: bool) {
    && 0 <= j < end <= |s| == |s0|
    && MaxAt(cmp, s, j) && BelowPivot(cmp, s, end)
    && s[end..] == s0[end..] && multiset(s) == multiset(s0)
    && (clean ==> s == s0 && Sorted(cmp, s[..j + 1]))
  }

  /**
   * One comparison of a bubble-sort pass: exchanging the pair at `j`,
   * `j + 1` when it is inverted carries the largest element of `s[..j + 1]`
   * to position `j + 1`; the pass stays clean only if no exchange happens.
   */
  lemma BubbleStep<T(!new)>(cmp: (T, T) -> int, s: seq<T>, s0: seq<T>, j: int, end: int, clean: bool)
    requires IsTotalOrdering(cmp)
    requires PassState(cmp, s, s0, j, end, clean) && j < end - 1
    ensures Lt(cmp, s[j + 1], s[j]) ==> PassState(cmp, Swapped(s, j, j + 1), s0, j + 1, end, false)
    ensures !Lt(cmp, s[j + 1], s[j]) ==> PassState(cmp, s, s0, j + 1, end, clean)
  {
    if Lt(cmp, s[j + 1], s[j]) {
      var t := Swapped(s, j, j + 1);
      assert Lt(cmp, t[j], t[j + 1]);
      assert t[end..] == s[end..];
    } else {
      forall k | 0 <= k <= j
        ensures Le(cmp, s[k], s[j + 1])
      {
        LeTrans(cmp, s[k], s[j], s[j + 1]);
      }
      if clean {
        SortedExtend(cmp, s, j + 1);
      }
    }
  }

  /**
   * The comparison at `j` inside a pass: exchanges `a[j]` and `a[j + 1]`
   * when they are inverted and reports whether it did.
   */
  method BubbleCompare<T(!new)>(a: array<T>, j: int, end: int, cmp: (T, T) -> int, ghost s0: seq<T>, ghost clean: bool)
    returns (exchanged: bool)
    requires IsTotalOrdering(cmp)
    requires PassState(cmp, a[..], s0, j, end, clean) && j < end - 1
    modifies a
    ensures exchanged <==> Lt(cmp, old(a[j + 1]), old(a[j]))
    ensures exchanged ==> a[..] == Swapped(old(a[..]), j, j + 1)
    ensures !exchanged ==> a[..] == old(a[..])
    ensures PassState(cmp, a[..], s0, j + 1, end, clean && !exchanged)
    ensures clean && Sorted(cmp, s0[..end]) ==> !exchanged
  {
    if clean && Sorted(cmp, s0[..end]) {
      SortedAdjacent(cmp, s0, end, j);
    }
    BubbleStep(cmp, a[..], s0, j, end, clean);
    exchanged := cmp(a[j + 1], a[j]) < 0;
    if exchanged {
      Swap(a, j, j + 1);
    }
  }

  /** Neighbours inside a sorted prefix are in order. */
  lemma SortedAdjacent<T>(cmp: (T, T) -> int, s: seq<T>, end: int, j: int)
    requires 0 <= j < end - 1 && end <= |s| && Sorted(cmp, s[..end])
    ensures Le(cmp, s[j], s[j + 1])
  {
    assert s[..end][j] == s[j] && s[..end][j + 1] == s[j + 1];
  }

  /**
   * One pass of bubble sort over the unsorted prefix `a[..end]`: every
   * adjacent inversion met from left to right is swapped, which carries the
   * prefix's largest element to position `end - 1` and leaves the suffix
   * `a[end..]` alone. The pass reports whether it swapped anything; when it
   * did not, the prefix is already sorted.
   */
  method BubblePass<T(!new)>(a: array<T>, end: int, cmp: (T, T) -> int) returns (swapped: bool)
    requires IsTotalOrdering(cmp)
    requires 0 < end <= a.Length && BelowPivot(cmp, a[..], end)
    modifies a
    ensures MaxAt(cmp, a[..], end - 1) && BelowPivot(cmp, a[..], end)
    ensures a[end..] == old(a[end..])
    ensures multiset(a[..]) == multiset(old(a[..]))
    ensures !swapped ==> a[..] == old(a[..]) && Sorted(cmp, a[..end])
    ensures Sorted(cmp, old(a[..end])) ==> !swapped && a[..] == old(a[..])
  {
    ghost var s0 := a[..];
    ghost var wasSorted := Sorted(cmp, s0[..end]);
    swapped := false;
    var j := 0;
    while j < end - 1
      invariant PassState(cmp, a[..], s0, j, end, !swapped)
      invariant wasSorted ==> !swapped
    {
      var exchanged := BubbleCompare(a, j, end, cmp, s0, !swapped);
      swapped := swapped || exchanged;
      j := j + 1;
    }
  }

  /**
   * After a pass over `s[..k]` has carried the prefix's largest element to
   * `k - 1`, the sorted suffix grows by that element; a clean pass leaves
   * the whole sequence sorted.
   */
  lemma BubbleRound<T(!new)>(cmp: (T, T) -> int, s: seq<T>, k: int, clean: bool)
    requires IsTotalOrdering(cmp)
    requires 0 < k <= |s| && Sorted(cmp, s[k..]) && BelowPivot(cmp, s, k)
    requires MaxAt(cmp, s, k - 1) && (clean ==> Sorted(cmp, s[..k]))
    ensures Sorted(cmp, s[k - 1..]) && BelowPivot(cmp, s, k - 1)
    ensures clean ==> Sorted(cmp, s)
  {
    assert s[k - 1..][1..] == s[k..];
    JoinSorted(cmp, s[k - 1..], 1);
    if clean {
      JoinSorted(cmp, s, k);
    }
  }

  /**
   * Bubble sort: passes over a shrinking unsorted prefix; after pass `i`
   * the last `i + 1` positions hold the largest elements in their final
   * order, and a pass without any swap ends the sort early.
   */
  method BubbleSort<T(!new)>(a: array<T>, cmp: (T, T) -> int)
    requires IsTotalOrdering(cmp)
    modifies a
    ensures Sorted(cmp, a[..])
    ensures multiset(a[..]) == multiset(old(a[..]))
    ensures Sorted(cmp, old(a[..])) ==> a[..] == old(a[..])
  {
    ghost var wasSorted := Sorted(cmp, a[..]);
    var n := a.Length;
    var i := 0;
    while i < n
      invariant 0 <= i <= n
      invariant Sorted(cmp, a[n - i..]) && BelowPivot(cmp, a[..], n - i)
      invariant multiset(a[..]) == multiset(old(a[..]))
      invariant wasSorted ==> i == 0 && a[..] == old(a[..])
    {
      var swapped := BubblePass(a, n - i, cmp);
      BubbleRound(cmp, a[..], n - i, !swapped);
      if !swapped {
        break;
      }
      i := i + 1;
    }
  }
}
