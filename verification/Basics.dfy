/** What several modules need. */
module Basics {
  datatype Option<T> = None | Some(value: T)

  function MaxInt(x: int, y: int): int {
    if x >= y then x else y
  }

  function Abs(x: real): real {
    if x < 0.0 then -x else x
  }

  function Max(x: real, y: real): real {
    if x < y then y else x
  }
}
