/**
 * The three-way comparison abstraction every search and sort is built on.
 *
 * An ordering is a total function `(T, T) -> int` whose sign says whether the
 * first argument precedes (negative), ties with (zero) or follows (positive)
 * the second. The default ordering is derived from a type's natural
 * less-than and equality operators.
 */
module Types {

  /** Strict precedence under `cmp`: `x` comes before `y`. */
  predicate Lt<T>(cmp: (T, T) -> int, x: T, y: T) {
    cmp(x, y) < 0
  }

  /** Non-strict precedence under `cmp`: `y` does not come before `x`. */
  predicate Le<T>(cmp: (T, T) -> int, x: T, y: T) {
    cmp(y, x) >= 0
  }

  /** `s` is non-decreasing under `cmp`: no later element precedes an earlier one. */
  ghost predicate Sorted<T>(cmp: (T, T) -> int, s: seq<T>) {
    forall i, j :: 0 <= i < j < |s| ==> Le(cmp, s[i], s[j])
  }

  /**
   * The total-order assumptions an `Ordering` must meet for the sorts to be
   * correct: every value ties with itself, the sign of `cmp(x, y)` is the
   * opposite of the sign of `cmp(y, x)`, and "does not follow" is transitive.
   */
  ghost predicate IsTotalOrdering<T(!new)>(cmp: (T, T) -> int) {
    && (forall x :: cmp(x, x) == 0)
    && (forall x, y :: cmp(x, y) < 0 <==> cmp(y, x) > 0)
    && (forall x, y, z {:trigger cmp(x, y), cmp(y, z), cmp(x, z)} ::
          cmp(x, y) <= 0 && cmp(y, z) <= 0 ==> cmp(x, z) <= 0)
  }

  /**
   * Only equal values tie. This holds of the default ordering on a totally
   * ordered type, but not of an ordering that compares by a key.
   */
  ghost predicate TiesAreEqual<T(!new)>(cmp: (T, T) -> int) {
    forall x, y :: cmp(x, y) == 0 ==> x == y
  }

  /** Strict precedence is transitive under a total ordering. */
  lemma LtTrans<T(!new)>(cmp: (T, T) -> int, x: T, y: T, z: T)
    requires IsTotalOrdering(cmp)
    requires Lt(cmp, x, y) && Lt(cmp, y, z)
    ensures Lt(cmp, x, z)
  {
    assert cmp(x, z) <= 0;
  }

  /** Non-strict precedence is transitive under a total ordering. */
  lemma LeTrans<T(!new)>(cmp: (T, T) -> int, x: T, y: T, z: T)
    requires IsTotalOrdering(cmp)
    requires Le(cmp, x, y) && Le(cmp, y, z)
    ensures Le(cmp, x, z)
  {
    assert cmp(x, y) <= 0 && cmp(y, z) <= 0;
  }

  /** A strict step followed by a non-strict one is strict. */
  lemma LtLeTrans<T(!new)>(cmp: (T, T) -> int, x: T, y: T, z: T)
    requires IsTotalOrdering(cmp)
    requires Lt(cmp, x, y) && Le(cmp, y, z)
    ensures Lt(cmp, x, z)
  {
    assert cmp(x, y) <= 0 && cmp(y, z) <= 0;
  }

  /** A strict order on `T`: irreflexive, transitive and connected. */
  ghost predicate IsStrictTotalOrder<T(!new)>(lt: (T, T) -> bool) {
    && (forall x :: !lt(x, x))
    && (forall x, y, z :: lt(x, y) && lt(y, z) ==> lt(x, z))
    && (forall x, y :: x != y ==> lt(x, y) || lt(y, x))
  }

  /**
   * The default ordering: less-than is asked first, then equality, and any
   * other pair is reported as "greater". `lt` stands for the natural `<` of
   * the element type.
   */
  function DefaultOrder<T(==)>(lt: (T, T) -> bool, x: T, y: T): (r: int)
    ensures r == -1 || r == 0 || r == 1
    ensures r == -1 <==> lt(x, y)
    ensures r == 0 <==> !lt(x, y) && x == y
    ensures r == 1 <==> !lt(x, y) && x != y
  {
    if lt(x, y) then -1
    else if x == y then 0
    else 1
  }

  /** The default ordering on integers, with their natural `<`. */
  function IntOrder(x: int, y: int): (r: int)
    ensures r == -1 <==> x < y
    ensures r == 0 <==> x == y
    ensures r == 1 <==> x > y
  {
    DefaultOrder((a: int, b: int) => a < b, x, y)
  }

  /**
   * When `lt` is a strict total order, the default ordering meets every
   * assumption the sorts place on an `Ordering`.
   */
  lemma DefaultOrderIsTotal<T(!new)>(lt: (T, T) -> bool)
    requires IsStrictTotalOrder(lt)
    ensures IsTotalOrdering((x: T, y: T) => DefaultOrder(lt, x, y))
  {
    var cmp := (x: T, y: T) => DefaultOrder(lt, x, y);
    forall x: T, y: T, z: T | cmp(x, y) <= 0 && cmp(y, z) <= 0
      ensures cmp(x, z) <= 0
    {
      if x != z && lt(z, x) {
        if x == y {
          assert lt(z, y);
        } else {
          assert lt(x, y);
          if y == z {
          } else {
            assert lt(y, z);
          }
        }
      }
    }
  }

  /**
   * Without a total order the default ordering is not antisymmetric: two
   * distinct values that are not less than each other both compare as
   * "greater" than the other.
   */
  lemma DefaultOrderIncomparable<T>(lt: (T, T) -> bool, x: T, y: T)
    requires x != y && !lt(x, y) && !lt(y, x)
    ensures DefaultOrder(lt, x, y) == 1 && DefaultOrder(lt, y, x) == 1
  {
  }

  /** `IntOrder` is reflexive, antisymmetric and a total ordering. */
  lemma IntOrderIsTotal()
    ensures forall x: int :: IntOrder(x, x) == 0
    ensures forall x: int, y: int :: IntOrder(x, y) == -IntOrder(y, x)
    ensures IsTotalOrdering(IntOrder)
    ensures TiesAreEqual(IntOrder)
  {
  }

  /** Sortedness under `IntOrder` is the natural non-decreasing order. */
  lemma IntLe(x: int, y: int)
    ensures Le(IntOrder, x, y) <==> x <= y
  {
  }
}
