/** JavaScript's `Math.round`, shared by the colour conversion and the weight rounding. */
module JsMath {

  /** `Math.round`: the nearest integer, halves rounded up. */
  function Round(x: real): (k: int)
    ensures x - 0.5 < k as real <= x + 0.5
  {
    (x + 0.5).Floor
  }

  /** `Math.round` gives back an integer unchanged. */
  lemma RoundInteger(k: int)
    ensures Round(k as real) == k
  {
  }
}
