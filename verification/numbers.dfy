/** The little numeric vocabulary the tracker borrows from JavaScript:
    `Math.round` and the `||` fallback applied to a parsed number. */
module Numbers {
  import opened Wrappers

  function Min(a: int, b: int): int {
    if a <= b then a else b
  }

  /** `Math.round`: the nearest integer, with halves rounded up. */
  function Round(x: real): (n: int)
    ensures n as real - 0.5 <= x < n as real + 0.5
  {
    (x + 0.5).Floor
  }

  /** The characterisation above pins the result down: there is exactly one
      integer within half a unit (halves going up). */
  lemma RoundUnique(x: real, n: int)
    requires n as real - 0.5 <= x < n as real + 0.5
    ensures Round(x) == n
  {
  }

  /** Rounding never reverses the order of its arguments. */
  lemma RoundMonotone(x: real, y: real)
    requires x <= y
    ensures Round(x) <= Round(y)
  {
  }

  /** A whole number rounds to itself. */
  lemma RoundWhole(n: int)
    ensures Round(n as real) == n
  {
    RoundUnique(n as real, n);
  }

  /** `parsed || fallback` where `parsed` is the outcome of `parseFloat`:
      NaN (`None`) and zero are both falsy, so either yields the fallback. */
  function OrElse(parsed: Option<real>, fallback: real): (r: real)
    ensures parsed.Some? && parsed.value != 0.0 ==> r == parsed.value
    ensures !(parsed.Some? && parsed.value != 0.0) ==> r == fallback
    ensures r == 0.0 ==> fallback == 0.0
  {
    if parsed.Some? && parsed.value != 0.0 then parsed.value else fallback
  }

  /** A value that was itself produced by `OrElse` with the same fallback
      survives being stored and read back: this is why persisting an edit and
      reloading gives the edited value again. */
  lemma OrElseStable(parsed: Option<real>, fallback: real)
    ensures OrElse(Some(OrElse(parsed, fallback)), fallback) == OrElse(parsed, fallback)
  {
  }
}
