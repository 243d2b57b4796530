/**
 * The byte-scaled hazard map of `exportLandslideHazardMap`: the classifier's
 * probability surface is multiplied by 100 and cast to an unsigned byte
 * before it is exported. One pixel is modelled: the probability is a given
 * real in [0, 1], the output of the random forest in probability mode.
 */
module Export {

  /** An unsigned 8-bit pixel value. */
  newtype uint8 = x: int | 0 <= x < 256

  /** `toByte()` on a value the byte range can hold: the fraction is dropped. */
  function ToByte(x: real): (b: uint8)
    requires 0.0 <= x < 256.0
    ensures b as real <= x < b as real + 1.0
  {
    x.Floor as uint8
  }

  /**
   * `probability.multiply(100).toByte()`: the hazard class of a pixel, in
   * whole percent. It never exceeds 100, and reaches 100 only for a
   * probability of exactly 1.
   */
  function HazardByte(p: real): (b: uint8)
    requires 0.0 <= p <= 1.0
    ensures b <= 100
    ensures b as real <= p * 100.0 < b as real + 1.0
    ensures b == 100 <==> p == 1.0
  {
    ToByte(p * 100.0)
  }

  /** A higher probability never gets a lower byte value. */
  lemma HazardByteMonotone(p: real, q: real)
    requires 0.0 <= p <= q <= 1.0
    ensures HazardByte(p) <= HazardByte(q)
  {
    var bp, bq := HazardByte(p), HazardByte(q);
    assert bp as real <= p * 100.0 <= q * 100.0 < bq as real + 1.0;
  }
}
