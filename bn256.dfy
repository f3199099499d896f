/**
 * The bilinear group library github.com/cloudflare/bn256, in the exponent
 * (discrete-logarithm) model.
 *
 * G1, G2 and GT are cyclic groups of one order m with fixed generators
 * g1, g2 and e(g1, g2). Each element is represented by its exponent with
 * respect to its group's generator, so the library's operations become
 * arithmetic modulo m:
 *   ScalarBaseMult(k)  ->  k mod m
 *   ScalarMult(P, k)   ->  p * k mod m
 *   Add(P, Q)          ->  p + q mod m      (G1, G2 and GT alike)
 *   Neg(P)             ->  -p mod m
 *   Pair(P, Q)         ->  p * q mod m
 * Every result is a canonical exponent in [0, m). Comparing the String()
 * forms of two elements is equality of their canonical exponents, and
 * Marshal is an arbitrary function of the canonical exponent.
 */
module Bn256 {
  import opened Numbers

  type G1 = nat
  type G2 = nat
  type GT = nat

  /** g^k for the group's generator g. */
  function ScalarBaseMult(k: int, m: Modulus): (p: nat)
    ensures p < m
  {
    k % m
  }

  /** P^k: the exponent of P scaled by k. */
  function ScalarMult(p: nat, k: int, m: Modulus): (q: nat)
    ensures q < m
  {
    (p * k) % m
  }

  /** The group operation (written additively by the library). */
  function Add(a: nat, b: nat, m: Modulus): (c: nat)
    ensures c < m
  {
    (a + b) % m
  }

  /** The inverse element: it cancels its argument. */
  function Neg(a: nat, m: Modulus): (b: nat)
    ensures b < m
    ensures Add(a, b, m) == 0
  {
    ModAddLeft(-(a as int), a, m);
    (-(a as int)) % m
  }

  /** The pairing e: G1 x G2 -> GT. */
  function Pair(p: G1, q: G2, m: Modulus): (t: GT)
    ensures t < m
  {
    (p * q) % m
  }

  /** Two elements print alike (String()) exactly when they are the same element. */
  predicate Equal(a: nat, b: nat, m: Modulus)
  {
    a % m == b % m
  }

  /** Point serialisation: one function per source group, of the canonical element. */
  datatype Codec = Codec(g1: G1 -> seq<byte>, g2: G2 -> seq<byte>)

  function MarshalG1(c: Codec, p: G1, m: Modulus): seq<byte>
  {
    c.g1(p % m)
  }

  function MarshalG2(c: Codec, p: G2, m: Modulus): seq<byte>
  {
    c.g2(p % m)
  }

  /** Pairing with the generator g2 keeps the exponent. */
  lemma PairWithGenerator(p: G1, m: Modulus)
    ensures Pair(p, 1, m) == p % m
  {
  }

  /** Scaling the generator by k gives exponent k. */
  lemma ScalarMultGenerator(k: int, m: Modulus)
    ensures ScalarMult(1, k, m) == k % m
  {
  }

  /** The pairing of the model is bilinear: e(P^a, Q^b) = e(P, Q)^(a*b). */
  lemma PairBilinear(p: G1, q: G2, a: int, b: int, m: Modulus)
    ensures Pair(ScalarMult(p, a, m), ScalarMult(q, b, m), m) == ScalarMult(Pair(p, q, m), a * b, m)
  {
    calc {
      Pair(ScalarMult(p, a, m), ScalarMult(q, b, m), m);
      (((p * a) % m) * ((q * b) % m)) % m;
      { ModMul(p * a, q * b, m); }
      ((p * a) * (q * b)) % m;
      { assert (p * a) * (q * b) == (p * q) * (a * b); }
      ((p * q) * (a * b)) % m;
      { ModMulLeft(p * q, a * b, m); }
      (((p * q) % m) * (a * b)) % m;
    }
  }

  /** ... and not degenerate: e(g1, g2) is not the identity of GT. */
  lemma PairNonDegenerate(m: Modulus)
    ensures Pair(ScalarBaseMult(1, m), ScalarBaseMult(1, m), m) == 1
  {
    ModSmall(1, m);
  }
}
