/** The checksum of program tables as ISO/IEC 13818-1 Annex A defines it: a remainder of polynomials over
    GF(2). A polynomial is the sequence of its coefficients, highest power first. */
module CrcReference {
  import opened Bytes

  /** x^32 + x^26 + x^23 + x^22 + x^16 + x^12 + x^11 + x^10 + x^8 + x^7 + x^5 + x^4 + x^2 + x + 1. */
  predicate InGenerator(exponent: int) {
    exponent in {32, 26, 23, 22, 16, 12, 11, 10, 8, 7, 5, 4, 2, 1, 0}
  }

  function Generator(): (g: seq<bool>)
    ensures |g| == 33
  {
    seq(33, i => InGenerator(32 - i))
  }

  function Sum(p: seq<bool>, q: seq<bool>): (r: seq<bool>)
    requires |p| == |q|
    ensures |r| == |p|
  {
    seq(|p|, i requires 0 <= i < |p| => p[i] != q[i])
  }

  function Coefficients(n: nat, c: bool): (r: seq<bool>)
    ensures |r| == n
  {
    seq(n, _ => c)
  }

  /** The remainder of long division by the generator, as 32 coefficients. */
  function Remainder(p: seq<bool>): (r: seq<bool>)
    requires |p| >= 32
    ensures |r| == 32
    decreases |p|
  {
    if |p| == 32 then p
    else if p[0] then Remainder(Sum(p[..33], Generator())[1..] + p[33..])
    else Remainder(p[1..])
  }

  /** Coefficient `k` of an octet read as a polynomial of degree seven. */
  predicate OctetBit(b: byte, k: int)
    requires 0 <= k < 8
  {
    var weights := [1, 2, 4, 8, 16, 32, 64, 128];
    At([b], 0) / weights[k] % 2 == 1
  }

  /** A message, its first octet highest. */
  function MessagePolynomial(d: seq<byte>): (p: seq<bool>)
    ensures |p| == 8 * |d|
  {
    seq(8 * |d|, i requires 0 <= i < 8 * |d| => OctetBit(d[i / 8], 7 - i % 8))
  }

  /** The message times x^32, its first 32 coefficients complemented. */
  function Dividend(d: seq<byte>): (p: seq<bool>)
    ensures |p| == 8 * |d| + 32
  {
    Sum(MessagePolynomial(d) + Coefficients(32, false), Coefficients(32, true) + Coefficients(8 * |d|, false))
  }

  function Checksum(d: seq<byte>): (r: seq<bool>)
    ensures |r| == 32
  {
    Remainder(Dividend(d))
  }
}
