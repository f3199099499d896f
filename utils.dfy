/** Elements and hashing to scalars (utils.go). */
module Utils {
  import opened Numbers
  import opened Bn256

  /**
   * An element: a G1 point and a scalar, carried independently. The code
   * expects value == g1^x but never checks it (see Consistent).
   */
  datatype Element = Element(value: G1, x: int)

  /** The point of the element is g1 raised to its scalar. */
  predicate Consistent(e: Element, m: Modulus)
  {
    e.value % m == e.x % m
  }

  /** A SHA-256 digest. */
  type Digest = s: seq<byte> | |s| == 32 witness seq(32, _ => 0)

  /**
   * The digest of the message, read as a big-endian unsigned integer and
   * reduced modulo the group order.
   */
  function HashToInt(sha256: seq<byte> -> Digest, message: seq<byte>, m: Modulus): (r: nat)
    ensures r < m
    ensures (FromBigEndian(sha256(message)) - r) % m == 0
    ensures FromBigEndian(sha256(message)) < m ==> r == FromBigEndian(sha256(message))
  {
    var hash := sha256(message);
    var n := FromBigEndian(hash);
    if n < m then ModSmall(n, m); n % m
    else
      CongruentIffDifference(n, n % m, m);
      ModMod(n, m);
      n % m
  }

  /** A digest decodes to an integer below 2^256. */
  lemma DigestBelow2To256(d: Digest)
    ensures FromBigEndian(d) < Pow(2, 256)
  {
    FromBigEndianBound(d);
    PowBytes(32);
  }
}
