/** Key material of the accumulator authority (key.go). */
module Keys {
  import opened Numbers
  import opened Bn256
  import opened Effects

  /** The trapdoor alpha. */
  datatype SecretKey = SecretKey(alpha: int)

  /** The generators of G1 and G2 and the commitment g2^alpha. */
  datatype PublicKey = PublicKey(g1: G1, g2: G2, alpha: G2)

  /**
   * Draws alpha from the random source. A failed draw is returned as the
   * error and no key is produced.
   */
  method NewSecretKey(draw: Draw, m: Modulus) returns (r: Result<SecretKey>)
    requires DrawBelow(draw, m)
    ensures draw.Exhausted? ==> r == Failure(RandomFailure)
    ensures draw.Drawn? ==> r == Success(SecretKey(draw.n))
    ensures r.Success? ==> 0 <= r.value.alpha < m
  {
    if draw.Exhausted? {
      return Failure(RandomFailure);
    }
    var alpha := draw.n;
    r := Success(SecretKey(alpha));
  }

  /**
   * The public key of a secret key: both generators, and g2 raised to alpha.
   * It depends on alpha alone.
   */
  function ToPublicKey(sk: SecretKey, m: Modulus): (pk: PublicKey)
    ensures pk.g1 == 1 && pk.g2 == 1
    ensures pk.alpha == sk.alpha % m
  {
    ModSmall(1, m);
    var g := ScalarBaseMult(1, m);
    var g2 := ScalarBaseMult(1, m);
    var pkAlpha := ScalarMult(g2, sk.alpha, m);
    PublicKey(g, g2, pkAlpha)
  }
}
