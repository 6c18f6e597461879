/** The puzzle's dimensions and the search limits, and the masks they determine. */
module Settings {
  import opened Words

  const CHARACTERS := 26
  const SIDES := 4
  const CHARS_PER_SIDE := 3
  const BOX_CHARS := SIDES * CHARS_PER_SIDE

  /** The width of `char_mask_t`. */
  const MASK_BITS := 32

  /** A 32-bit word that only uses the bits of the box letters. */
  predicate IsMask(w: Word) {
    |w| == MASK_BITS && forall i :: BOX_CHARS <= i < MASK_BITS ==> !w[i]
  }

  /** A character mask. */
  type Mask = w: Word | IsMask(w) witness Zero(MASK_BITS)

  type BoxIndex = i: nat | i < BOX_CHARS

  const EMPTY_MASK: Mask := Zero(MASK_BITS)
  const SOLUTION_MASK: Mask := LowBits(MASK_BITS, BOX_CHARS)

  function Join(a: Mask, b: Mask): (m: Mask) {
    Or(a, b)
  }

  /** How deep to search, how many solutions to keep, and up to which depth to search uncached. */
  datatype Limits = Limits(maxSearchSize: nat, maxSolutions: nat, cacheMinDepth: nat)

  const MIN_SOLUTION_SIZE := 1
  const LIMITS := Limits(3, 20, 2)

  method ComputeSolutionMask() returns (out: Word)
    ensures out == SOLUTION_MASK
  {
    out := Zero(MASK_BITS);
    for i := 0 to BOX_CHARS
      invariant |out| == MASK_BITS
      invariant forall k :: 0 <= k < MASK_BITS ==> out[k] == (k < i)
    {
      out := Or(out, OneAt(MASK_BITS, i));
    }
  }
}
