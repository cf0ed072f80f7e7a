/**
 * Sample types and scaling helpers of a 16-bit (Q16, non-HDRI) build: the
 * canonical sample range, the per-pixel record the exporter reads, the
 * export configuration, and the conversions from a canonical sample to an
 * 8-bit, 16-bit, 32-bit or arbitrary-depth external sample.
 */
module QuantumTypes {
  import opened Bits

  /** Largest canonical sample value. */
  const QuantumRange: nat := 65535

  type Quantum = x: int | 0 <= x <= 65535

  /** Opacity of a fully opaque pixel (opacity is stored, alpha is derived). */
  const OpaqueOpacity: Quantum := 0
  const TransparentOpacity: Quantum := 65535

  /** One pixel of the cache row. The colormap index (and the CMYK black) is kept
    * in a separate index row, as in the cache. */
  datatype Pixel = Pixel(red: Quantum, green: Quantum, blue: Quantum, opacity: Quantum)

  /** Alpha is the complement of the stored opacity. */
  function Alpha(p: Pixel): (a: Quantum)
    ensures a + p.opacity == QuantumRange
  {
    QuantumRange - p.opacity
  }

  datatype Endian = UndefinedEndian | LSBEndian | MSBEndian

  datatype AlphaType = UndefinedQuantumAlpha | AssociatedQuantumAlpha | DisassociatedQuantumAlpha

  /** The fixed part of the export configuration: depth of each external sample,
    * bit packing, the word size used by 32-bit packing, the pad after each pixel,
    * byte order, the polarity of 1-bit gray and the alpha association. */
  datatype QuantumConfig = QuantumConfig(
    depth: nat,
    pack: bool,
    quantum: nat,
    pad: nat,
    endian: Endian,
    minIsWhite: bool,
    alphaType: AlphaType)

  /** Largest value of a `depth`-bit sample. */
  function QuantumRangeOf(depth: nat): (r: nat)
    ensures r + 1 == Pow2(depth)
  {
    Pow2(depth) - 1
  }

  /** `ScaleQuantumToChar` of a Q16 build. */
  function ScaleQuantumToChar(q: Quantum): (c: byte)
    ensures 257 * c - 128 <= q <= 257 * c + 128
  {
    ((q + 128) - (q + 128) / 256) / 256
  }

  /** `ScaleCharToQuantum` of a Q16 build. */
  function ScaleCharToQuantum(c: byte): (q: Quantum)
    ensures q % 257 == 0 && q / 257 == c
  {
    257 * c
  }

  /** An 8-bit sample survives the trip to a canonical sample and back. */
  lemma CharRoundTrip(c: byte)
    ensures ScaleQuantumToChar(ScaleCharToQuantum(c)) == c
  {
  }

  /** `ScaleQuantumToShort` of a Q16 build is the identity. */
  function ScaleQuantumToShort(q: Quantum): (s: uint16)
    ensures s == q
  {
    q
  }

  /** `ScaleQuantumToLong` of a Q16 build spreads 16 bits over 32. */
  function ScaleQuantumToLong(q: Quantum): (w: uint32)
    ensures w / 65537 == q && w % 65537 == 0
  {
    65537 * q
  }

  /** `ScaleQuantumToAny`: `range * q / QuantumRange` rounded to the nearest
    * integer, ties upward. The rounding here is exact; the build computes it
    * in double precision, which gives the same integer for every range up
    * to 2^32 - 1 (no value is a tie, and both rounding errors stay far below
    * the distance to one), but not necessarily for deeper samples. */
  function ScaleQuantumToAny(q: Quantum, range: nat): (r: nat)
    ensures r <= range
    ensures 2 * r * QuantumRange <= 2 * range * q + QuantumRange < 2 * (r + 1) * QuantumRange
  {
    var n := 2 * range * q + QuantumRange;
    assert n <= (2 * range + 1) * QuantumRange;
    n / (2 * QuantumRange)
  }

  /** `ClampToQuantum` of a non-HDRI build: rounds to nearest and clamps. */
  function ClampToQuantum(x: real): (q: Quantum)
    ensures x <= 0.0 ==> q == 0
    ensures x >= QuantumRange as real ==> q == QuantumRange
    ensures 0.0 < x < QuantumRange as real ==> q as real <= x + 0.5 < q as real + 1.0
  {
    if x <= 0.0 then 0
    else if x >= QuantumRange as real then QuantumRange
    else (x + 0.5).Floor
  }
}
