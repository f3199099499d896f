/**
 * The non-interactive membership proof and its verification (proof.go).
 *
 * The challenge is derived Fiat-Shamir style from the accumulator, the
 * element's point and the first two commitments; the verifier checks
 * e(g1^s, g2) = e(T1, g2) * e(X, g2)^c.
 */
module Proofs {
  import opened Numbers
  import opened Bn256
  import opened Keys
  import opened Utils

  /** The prover's first message: T1 in G1, T2 in G2, T3 in GT. */
  datatype ProofCommitment = ProofCommitment(t1: G1, t2: G2, t3: GT)

  datatype MembershipProof = MembershipProof(commitment: ProofCommitment, response: int)
  {
    /**
     * Recomputes the challenge and checks the response against it. The
     * third commitment takes no part: the comment's "Check 1" is not made.
     */
    predicate Verify(acc: G1, elem: Element, pk: PublicKey, codec: Codec, m: Modulus)
    {
      var challenge := Challenge(codec, acc, elem.value, commitment.t1, commitment.t2, m);
      var lhs := Pair(ScalarBaseMult(response, m), pk.g2, m);
      var temp1 := Pair(commitment.t1, pk.g2, m);
      var temp2 := ScalarMult(Pair(elem.value, pk.g2, m), challenge, m);
      var rhs := Add(temp1, temp2, m);
      lhs == rhs
    }
  }

  /** Marshal(acc) ‖ Marshal(X) ‖ Marshal(T1) ‖ Marshal(T2). */
  function ChallengeInput(codec: Codec, acc: G1, x: G1, t1: G1, t2: G2, m: Modulus): seq<byte>
  {
    MarshalG1(codec, acc, m) + MarshalG1(codec, x, m) + MarshalG1(codec, t1, m) + MarshalG2(codec, t2, m)
  }

  /**
   * The challenge: the transcript read as a big-endian integer, reduced
   * modulo the order. It is a function of (acc, X, T1, T2) alone, so prover
   * and verifier obtain the same value from the same inputs.
   */
  function Challenge(codec: Codec, acc: G1, x: G1, t1: G1, t2: G2, m: Modulus): (c: nat)
    ensures c < m
    ensures (FromBigEndian(ChallengeInput(codec, acc, x, t1, t2, m)) - c) % m == 0
  {
    var n := FromBigEndian(ChallengeInput(codec, acc, x, t1, t2, m));
    CongruentIffDifference(n, n % m, m);
    ModMod(n, m);
    n % m
  }

  /** Under a genuine public key, Verify checks s = t1 + c*x_pt (mod m). */
  lemma VerifyMeaning(p: MembershipProof, acc: G1, elem: Element, sk: SecretKey, codec: Codec, m: Modulus)
    ensures p.Verify(acc, elem, ToPublicKey(sk, m), codec, m)
        <==> p.response % m
             == (p.commitment.t1 + Challenge(codec, acc, elem.value, p.commitment.t1, p.commitment.t2, m) * elem.value) % m
  {
    var pk := ToPublicKey(sk, m);
    var t1 := p.commitment.t1;
    var c := Challenge(codec, acc, elem.value, t1, p.commitment.t2, m);
    ModMod(p.response, m);
    assert Pair(ScalarBaseMult(p.response, m), pk.g2, m) == p.response % m;
    calc {
      Add(Pair(t1, pk.g2, m), ScalarMult(Pair(elem.value, pk.g2, m), c, m), m);
      (t1 % m + ((elem.value % m) * c) % m) % m;
      { ModMulLeft(elem.value, c, m); }
      (t1 % m + (elem.value * c) % m) % m;
      { ModAdd(t1, elem.value * c, m); }
      (t1 + c * elem.value) % m;
    }
  }

  /** The third commitment does not influence the verdict. */
  lemma VerifyIgnoresT3(p: MembershipProof, t3: GT, acc: G1, elem: Element, pk: PublicKey, codec: Codec, m: Modulus)
    ensures p.(commitment := p.commitment.(t3 := t3)).Verify(acc, elem, pk, codec, m)
        == p.Verify(acc, elem, pk, codec, m)
  {
  }

  /** A proof that verifies stops verifying once its response is increased by one. */
  lemma TamperedResponseRejected(p: MembershipProof, acc: G1, elem: Element, sk: SecretKey, codec: Codec, m: Modulus)
    requires p.Verify(acc, elem, ToPublicKey(sk, m), codec, m)
    ensures !p.(response := p.response + 1).Verify(acc, elem, ToPublicKey(sk, m), codec, m)
  {
    var tampered := p.(response := p.response + 1);
    VerifyMeaning(p, acc, elem, sk, codec, m);
    VerifyMeaning(tampered, acc, elem, sk, codec, m);
    if tampered.Verify(acc, elem, ToPublicKey(sk, m), codec, m) {
      CongruentIffDifference(p.response + 1, p.response, m);
      ModSmall(1, m);
      assert false;
    }
  }
}
