/** Value types and numeric helpers shared by both extraction pipelines and the table code. */
module Common {

  /** A JavaScript value that may be absent (`null` / `undefined`) or present. */
  datatype Option<+T> = None | Some(value: T)

  /** `Math.round`: the nearest integer, with halves rounded towards +infinity. */
  function Round(x: real): (r: int)
    ensures r as real - 0.5 <= x < r as real + 0.5
  {
    (x + 0.5).Floor
  }

  /** JavaScript truthiness of an optional string: absent or empty is falsy. */
  predicate Falsy(v: Option<string>)
  {
    v.None? || v == Some("")
  }

  function MinR(a: real, b: real): real { if a <= b then a else b }
  function MaxR(a: real, b: real): real { if a >= b then a else b }
  function MinI(a: int, b: int): int { if a <= b then a else b }
  function MaxI(a: int, b: int): int { if a >= b then a else b }

  /** Rounding never moves past an integer bound of its argument. */
  lemma RoundAtMost(x: real, n: int)
    requires x <= n as real
    ensures Round(x) <= n
  {
  }
}
