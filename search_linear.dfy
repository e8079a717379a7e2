/**
 * Linear membership search: a front-to-back scan that compares with the
 * element type's natural equality and stops at the first match.
 */
module SearchLinear {

  /**
   * Reports whether `x` occurs in `items`. The ghost result `at` is the
   * scan position where the search stopped: the first occurrence of `x`,
   * or `|items|` when there is none.
   */
  method Find<T(==)>(x: T, items: seq<T>) returns (found: bool, ghost at: int)
    ensures found <==> x in items
    ensures 0 <= at <= |items| && x !in items[..at]
    ensures found ==> at < |items| && items[at] == x
    ensures !found ==> at == |items|
  {
    for i := 0 to |items|
      invariant x !in items[..i]
    {
      if x == items[i] {
        return true, i;
      }
    }
    return false, |items|;
  }

  /** The scenarios the repository's tests check, on `[1, 2, 3]`. */
  method FindExamples() returns (one: bool, two: bool, three: bool, four: bool)
    ensures one && two && three && !four
  {
    ghost var at: int;
    one, at := Find(1, [1, 2, 3]);
    two, at := Find(2, [1, 2, 3]);
    three, at := Find(3, [1, 2, 3]);
    four, at := Find(4, [1, 2, 3]);
  }
}
