/** Python `bytes`: a sequence of octets, and the digit arithmetic the codecs
    use to cut octets into smaller fields. */
module Bytes {

  type byte = x: int | 0 <= x < 256

  /** Appending the digit `r` to `q` in radix `d` can be undone by `/` and `%`. */
  lemma DigitSplit(q: int, r: int, d: int)
    requires d == 4 || d == 16 || d == 64
    requires 0 <= r < d
    ensures (q * d + r) / d == q && (q * d + r) % d == r
  {
    // Fixing the radix in each case leaves only linear arithmetic.
    if d == 4 {
    } else if d == 16 {
    } else {
    }
  }
}
