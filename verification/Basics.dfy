/** What several of the models share. */
module Basics {
  type Byte = b: int | 0 <= b < 0x100

  const WORD: int := 0x1_0000_0000

  /** C `unsigned`. */
  type Word = x: int | 0 <= x < WORD

  datatype Option<+T> = None | Some(value: T) {
    predicate IsFailure() { None? }
    function PropagateFailure<U>(): Option<U> requires None? { None }
    function Extract(): T requires Some? { value }
  }

  lemma SubsetSize<T>(a: set<T>, b: set<T>)
    requires a <= b
    ensures |a| <= |b|
  {
    assert b == a + (b - a);
  }
}
