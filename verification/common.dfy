/** Values shared by every part of the Mu Torere model: the three cell states
    and the way a ValueError raised by the game code is reported. */
module Common {

  /** A space is empty (0) or holds a counter of player 1 or player 2. */
  predicate IsState(s: int) {
    s == 0 || s == 1 || s == 2
  }

  /** One of the two players. */
  predicate IsPlayer(p: int) {
    p == 1 || p == 2
  }

  /** The only exception the game code raises. */
  datatype Error = ValueError

  /** Outcome of a call that returns nothing: it returns normally or raises. */
  datatype Outcome = Pass | Fail(error: Error)

  /** Outcome of a call that returns a value: the value, or the raised error. */
  datatype Result<T> = Success(value: T) | Failure(error: Error)

  datatype Option<T> = None | Some(value: T)
}
