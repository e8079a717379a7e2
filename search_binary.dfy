/**
 * Binary search over an inclusive range `[l, r]` of a sequence.
 *
 * The search narrows with the natural `==` and `<` on its elements and never
 * consults the ordering it is given. `Bisect` is the specification of that
 * search as written and `BinarySearch` is the loop that computes it.
 * `BisectBy` and `BinarySearchBy` are the search that narrows with the
 * given ordering instead; with the default integer ordering the two agree.
 */
module SearchBinary {
  import opened Types

  datatype Option<T> = None | Some(value: T)

  /**
   * Bisection of `s[l..r]` (both ends included), narrowing with `<` on
   * integers. A found index lies in the range and holds `x`, whatever the
   * order of `s`.
   */
  function Bisect(x: int, s: seq<int>, l: int, r: int): (res: Option<int>)
    requires 0 <= l && r < |s|
    ensures res.Some? ==> l <= res.value <= r && s[res.value] == x
    decreases r - l + 1
  {
    if l > r then None
    else
      var m := (l + r) / 2;
      if s[m] == x then Some(m)
      else if x < s[m] then Bisect(x, s, l, m - 1)
      else Bisect(x, s, m + 1, r)
  }

  /** A value that occurs in a range of an ascending sequence is found there. */
  lemma {:induction false} BisectComplete(x: int, s: seq<int>, l: int, r: int, k: int)
    requires 0 <= l <= k <= r < |s| && s[k] == x
    requires Sorted(IntOrder, s)
    ensures Bisect(x, s, l, r).Some?
    decreases r - l
  {
    var m := (l + r) / 2;
    if s[m] != x {
      if k < m {
        IntLe(s[k], s[m]);
      } else if m < k {
        IntLe(s[m], s[k]);
      }
      if x < s[m] {
        BisectComplete(x, s, l, m - 1, k);
      } else {
        BisectComplete(x, s, m + 1, r, k);
      }
    }
  }

  /**
   * The search over the whole of `items`: `l` and `r` close in on the
   * position of `x` until it is found or the range is empty. The ordering
   * `f` is accepted and ignored, so the result is the same for every `f`.
   */
  method BinarySearch(x: int, items: seq<int>, f: (int, int) -> int) returns (res: Option<int>)
    ensures res == Bisect(x, items, 0, |items| - 1)
    ensures res.Some? ==> 0 <= res.value < |items| && items[res.value] == x
    ensures x !in items ==> res == None
    ensures Sorted(IntOrder, items) && x in items ==> res.Some?
  {
    if Sorted(IntOrder, items) && x in items {
      var k :| 0 <= k < |items| && items[k] == x;
      BisectComplete(x, items, 0, |items| - 1, k);
    }
    var l, r := 0, |items| - 1;
    while l <= r
      invariant 0 <= l <= r + 1 <= |items|
      invariant Bisect(x, items, l, r) == Bisect(x, items, 0, |items| - 1)
      decreases r - l + 1
    {
      var m := (l + r) / 2;
      if items[m] == x {
        return Some(m);
      } else if x < items[m] {
        r := m - 1;
      } else {
        l := m + 1;
      }
    }
    return None;
  }

  /**
   * Bisection of `s[l..r]` narrowing with the ordering `cmp`: a midpoint
   * that ties with `x` is the answer, and the half that cannot hold `x`
   * under `cmp` is dropped.
   */
  function BisectBy<T>(cmp: (T, T) -> int, x: T, s: seq<T>, l: int, r: int): (res: Option<int>)
    requires 0 <= l && r < |s|
    ensures res.Some? ==> l <= res.value <= r && cmp(x, s[res.value]) == 0
    decreases r - l + 1
  {
    if l > r then None
    else
      var m := (l + r) / 2;
      var c := cmp(x, s[m]);
      if c == 0 then Some(m)
      else if c < 0 then BisectBy(cmp, x, s, l, m - 1)
      else BisectBy(cmp, x, s, m + 1, r)
  }

  /**
   * A value that occurs in a range of a sequence sorted under a total
   * ordering is found there by `BisectBy`.
   */
  lemma {:induction false} BisectByComplete<T(!new)>(cmp: (T, T) -> int, x: T, s: seq<T>, l: int, r: int, k: int)
    requires IsTotalOrdering(cmp) && Sorted(cmp, s)
    requires 0 <= l <= k <= r < |s| && s[k] == x
    ensures BisectBy(cmp, x, s, l, r).Some?
    decreases r - l
  {
    var m := (l + r) / 2;
    var c := cmp(x, s[m]);
    if c < 0 {
      BisectByComplete(cmp, x, s, l, m - 1, k);
    } else if c > 0 {
      BisectByComplete(cmp, x, s, m + 1, r, k);
    }
  }

  /** With the default integer ordering, `BisectBy` is `Bisect`. */
  lemma {:induction false} BisectByDefault(x: int, s: seq<int>, l: int, r: int)
    requires 0 <= l && r < |s|
    ensures BisectBy(IntOrder, x, s, l, r) == Bisect(x, s, l, r)
    decreases r - l + 1
  {
    if l <= r {
      var m := (l + r) / 2;
      if IntOrder(x, s[m]) < 0 {
        BisectByDefault(x, s, l, m - 1);
      } else if IntOrder(x, s[m]) > 0 {
        BisectByDefault(x, s, m + 1, r);
      }
    }
  }

  /**
   * The search over the whole of `items` narrowing with `cmp`. A found
   * index ties with `x`; under a total ordering that `items` is sorted by,
   * a value that occurs is found; when ties are equal values, a value that
   * does not occur is not found.
   */
  method BinarySearchBy<T(!new)>(x: T, items: seq<T>, cmp: (T, T) -> int) returns (res: Option<int>)
    ensures res == BisectBy(cmp, x, items, 0, |items| - 1)
    ensures res.Some? ==> 0 <= res.value < |items| && cmp(x, items[res.value]) == 0
    ensures TiesAreEqual(cmp) && x !in items ==> res == None
    ensures IsTotalOrdering(cmp) && Sorted(cmp, items) && x in items ==> res.Some?
  {
    if IsTotalOrdering(cmp) && Sorted(cmp, items) && x in items {
      var k :| 0 <= k < |items| && items[k] == x;
      BisectByComplete(cmp, x, items, 0, |items| - 1, k);
    }
    var l, r := 0, |items| - 1;
    while l <= r
      invariant 0 <= l <= r + 1 <= |items|
      invariant BisectBy(cmp, x, items, l, r) == BisectBy(cmp, x, items, 0, |items| - 1)
      decreases r - l + 1
    {
      var m := (l + r) / 2;
      var c := cmp(x, items[m]);
      if c == 0 {
        return Some(m);
      } else if c < 0 {
        r := m - 1;
      } else {
        l := m + 1;
      }
    }
    return None;
  }

  /**
   * The ordering is ignored: `[3, 2, 1]` is sorted under the descending
   * integer ordering and holds 3, yet the search as written misses it,
   * while the search that narrows with the ordering finds it at 0.
   */
  lemma DescendingMissed()
    ensures IsTotalOrdering((a: int, b: int) => IntOrder(b, a))
    ensures Sorted((a: int, b: int) => IntOrder(b, a), [3, 2, 1])
    ensures Bisect(3, [3, 2, 1], 0, 2) == None
    ensures BisectBy((a: int, b: int) => IntOrder(b, a), 3, [3, 2, 1], 0, 2) == Some(0)
  {
    IntOrderIsTotal();
  }

  /** The two searches of the accompanying tests, over `0, 1, ..., 9`. */
  method BinarySearchExamples() returns (three: Option<int>, ten: Option<int>)
    ensures three == Some(3) && ten == None
  {
    var items := [0, 1, 2, 3, 4, 5, 6, 7, 8, 9];
    assert forall i | 0 <= i < |items| :: items[i] == i;
    forall i, j | 0 <= i < j < |items|
      ensures Le(IntOrder, items[i], items[j])
    {
      IntLe(items[i], items[j]);
    }
    assert items[3] == 3;
    three := BinarySearch(3, items, IntOrder);
    ten := BinarySearch(10, items, IntOrder);
  }
}
