/**
 * JavaScript value notions shared by the whole model: `undefined`/`null`
 * as `None`, the truthiness test that `!!x` and `x || y` perform on
 * strings and numbers, and `Math.min` / `Math.max` on integers.
 */
module Js {

  /** A value that may be `undefined` (or `null`). */
  datatype Option<+T> = None | Some(value: T)

  /** `!!s` for a string that may be missing: present and non-empty. */
  predicate TruthyString(s: Option<string>) {
    s.Some? && s.value != ""
  }

  /** `!!n` for a number that may be missing: present and non-zero. */
  predicate TruthyInt(n: Option<int>) {
    n.Some? && n.value != 0
  }

  /** `n || 0` for a count that may be missing. */
  function CountOrZero(n: Option<nat>): nat {
    if n.Some? then n.value else 0
  }

  function Min(a: int, b: int): int {
    if a <= b then a else b
  }

  function Max(a: int, b: int): int {
    if a >= b then a else b
  }
}
