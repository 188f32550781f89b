/** Shared vocabulary: the 8-bit samples a canvas RGBA buffer holds. */
module Samples {

  /** One 8-bit channel sample, 0 to 255 inclusive. */
  type Sample = x: int | 0 <= x < 256
}
