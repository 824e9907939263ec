/** The optional value used wherever the Python code returns None or raises, and integer helpers shared by every module. */
module Wrappers {

  datatype Option<+T> = None | Some(value: T)

  function IMin(a: int, b: int): int { if a <= b then a else b }

  function IMax(a: int, b: int): int { if a >= b then a else b }

  function IAbs(x: int): nat { if x < 0 then -x else x }
}
