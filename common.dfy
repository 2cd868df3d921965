/** Shared vocabulary of the visualiser model: optional values, the notice
    channel's severities, the outcome of one module operation, the
    project's colour constants and the integer drawn from a random number. */
module Common {

  datatype Option<+T> = None | Some(value: T)

  /** Severities of the notice (log) channel. */
  datatype Severity = Info | Success | Warning | Error | Highlight

  /** One entry of the notice channel. */
  datatype Notice = Notice(severity: Severity, message: string)

  /** How one operation of an algorithm module ends: it ran to the end, a
      precondition of the data structure rejected it (the notice it logged
      says why), a suspension found the module cancelled, or a runtime
      error was thrown (its message). */
  datatype Status = Done | Rejected(notice: Notice) | Cancelled | Failed(error: string)

  /** The colour constants of the application's configuration. */
  const PRIMARY: int := 0x38bdf8
  const SUCCESS: int := 0x10b981
  const ERROR: int := 0xef4444
  const WARNING: int := 0xf59e0b
  const BASE: int := 0x1e293b
  const HIGHLIGHT: int := 0xfacc15
  const WHITE: int := 0xffffff

  /** Concatenation regroups freely. */
  lemma AppendAssoc<T>(a: seq<T>, b: seq<T>, c: seq<T>)
    ensures a + b + c == a + (b + c)
  {
  }

  /** Appending after a non-empty sequence keeps its head and appends
      after its tail; appending after nothing gives the appended part. */
  lemma SnocSplits<T>(a: seq<T>, x: T)
    ensures [] + [x] == [x]
    ensures a != [] ==> (a + [x])[0] == a[0] && (a + [x])[1..] == a[1..] + [x]
  {
  }

  /** The last element of a concatenation ending in a non-empty part is
      that part's last, and the concatenation is empty only if both
      parts are. */
  lemma LastOfAppend<T>(a: seq<T>, b: seq<T>)
    ensures a + b == [] <==> a == [] && b == []
    ensures b != [] ==> (a + b)[|a + b| - 1] == b[|b| - 1]
  {
  }

  /** `Math.floor(r * k)` for a draw `r` of `Math.random()`: an integer in
      `[0, k)`. */
  function RandomBelow(r: real, k: nat): (v: int)
    requires 0.0 <= r < 1.0
    requires k > 0
    ensures 0 <= v < k
  {
    assert r * (k as real) < 1.0 * (k as real);
    (r * k as real).Floor
  }
}
