/** The characters of a document and the outcome of a partial operation. */
module Text {
  type Byte = b: int | 0 <= b < 0x100

  type Char = seq<Byte>

  /** A character of a document and the user who wrote it. */
  datatype Cell = Cell(ch: Char, author: nat)

  /** The result of code that contains an assertion which may fail. */
  datatype Outcome<+T> = Done(value: T) | AssertionFailed {
    predicate IsFailure() {
      AssertionFailed?
    }

    function PropagateFailure<U>(): Outcome<U>
      requires AssertionFailed?
    {
      AssertionFailed
    }

    function Extract(): T
      requires Done?
    {
      value
    }
  }

  /** A singly linked list. */
  datatype List<+T> = Nil | Cons(head: T, tail: List<T>)

  function Append<T>(l: List<T>, r: List<T>): List<T> {
    match l
    case Nil => r
    case Cons(x, rest) => Cons(x, Append(rest, r))
  }
}
