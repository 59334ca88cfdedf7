/** Helpers every model shares. */
module Basics {

  function Min(a: int, b: int): int { if a < b then a else b }

  function Max(a: int, b: int): int { if a > b then a else b }

  /** Names the value a folded predicate is about: `forall c | Same(c, x) :: P(c)` is
      P(x), but says so only where Same(x, x) is asserted. */
  ghost predicate Same<T(!new)>(a: T, b: T) { a == b }
}
