// Small value types shared by the components of the page.
module Common {

  /** A value that may be absent: JavaScript's `null` / `undefined` in the source. */
  datatype Option<+T> = None | Some(value: T)

  function Min(a: int, b: int): int { if a <= b then a else b }

  function Max(a: int, b: int): int { if a >= b then a else b }
}
