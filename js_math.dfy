/** The one JavaScript numeric primitive the core relies on, stated exactly over the reals. */
module JsMath {

  /** `Math.round`: the nearest integer, ties going up (towards +infinity). */
  function Round(x: real): (r: int)
    ensures x - 0.5 < r as real <= x + 0.5
  {
    (x + 0.5).Floor
  }

  /** Rounding keeps a value that lies between two integers between them. */
  lemma RoundWithin(x: real, lo: int, hi: int)
    requires lo as real <= x <= hi as real
    ensures lo <= Round(x) <= hi
  {
  }

  /** Rounding an integer-valued real gives that integer back. */
  lemma RoundOfInteger(n: int)
    ensures Round(n as real) == n
  {
  }
}
