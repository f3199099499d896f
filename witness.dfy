/**
 * Membership and non-membership witnesses, and the zero-knowledge membership
 * proof built from a membership witness (witness.go).
 */
module Witnesses {
  import opened Numbers
  import opened Bn256
  import opened Effects
  import opened Keys
  import opened Utils
  import opened Proofs

  /** A membership witness: one G1 point W. */
  datatype Witness = Witness(value: G1)
  {
    /** Checks e(W, g2^alpha) * e(X, g2) = e(V, g2) against the given accumulator value. */
    predicate Verify(acc: G1, elem: Element, pk: PublicKey, m: Modulus)
    {
      var pair1 := Pair(value, pk.alpha, m);
      var pair2 := Pair(elem.value, pk.g2, m);
      var lhs := Add(pair1, pair2, m);
      var rhs := Pair(acc, pk.g2, m);
      lhs == rhs
    }

    /**
     * Commits with a random blinding value rho (T1 = W^rho, T2 = g2^rho,
     * T3 = e(W, g2)), derives the challenge from the transcript and answers
     * with s = rho + c*x mod the order. A failed draw is an error.
     */
    method ZkProof(acc: G1, elem: Element, pk: PublicKey, draw: Draw, codec: Codec, m: Modulus)
      returns (r: Result<MembershipProof>)
      ensures draw.Exhausted? ==> r == Failure(RandomFailure)
      ensures draw.Drawn? ==> r == Success(Prove(this, acc, elem, pk, draw.n, codec, m))
    {
      if draw.Exhausted? {
        return Failure(RandomFailure);
      }
      var rho := draw.n;

      var t1 := ScalarMult(value, rho, m);
      var t2 := ScalarMult(pk.g2, rho, m);
      var t3 := Pair(value, pk.g2, m);
      var commitment := ProofCommitment(t1, t2, t3);

      var challengeInput: seq<byte> := [];
      challengeInput := challengeInput + MarshalG1(codec, acc, m);
      challengeInput := challengeInput + MarshalG1(codec, elem.value, m);
      challengeInput := challengeInput + MarshalG1(codec, t1, m);
      challengeInput := challengeInput + MarshalG2(codec, t2, m);
      assert challengeInput == ChallengeInput(codec, acc, elem.value, t1, t2, m);

      var challenge := FromBigEndian(challengeInput);
      challenge := challenge % m;

      var response := challenge * elem.x;
      response := response + rho;
      response := response % m;

      r := Success(MembershipProof(commitment, response));
    }
  }

  /** The proof ZkProof returns for the blinding value rho. */
  function Prove(w: Witness, acc: G1, elem: Element, pk: PublicKey, rho: int, codec: Codec, m: Modulus)
    : MembershipProof
  {
    var t1 := ScalarMult(w.value, rho, m);
    var t2 := ScalarMult(pk.g2, rho, m);
    var t3 := Pair(w.value, pk.g2, m);
    var c := Challenge(codec, acc, elem.value, t1, t2, m);
    MembershipProof(ProofCommitment(t1, t2, t3), (c * elem.x + rho) % m)
  }

  /**
   * The membership witness W = V^(1/(x + alpha)) for the element's scalar x,
   * or an error when x + alpha has no inverse modulo the order.
   */
  function GenerateWitness(acc: G1, sk: SecretKey, elem: Element, m: Modulus): (r: Result<Witness>)
    ensures r.Failure? ==> r.error == NoInverse
    ensures r.Success? ==> r.value.value < m && (r.value.value * (elem.x + sk.alpha)) % m == acc % m
    ensures IsPrime(m) ==> (r.Failure? <==> (elem.x + sk.alpha) % m == 0)
  {
    var sum := elem.x + sk.alpha;
    var inv := ModInverse(sum, m);
    if inv.None? then Failure(NoInverse)
    else
      InverseCancels(acc, sum, inv.value, m);
      Success(Witness(ScalarMult(acc, inv.value, m)))
  }

  /** A non-membership witness (D, v): a G1 point and a scalar. */
  datatype NonMembershipWitness = NonMembershipWitness(d: G1, v: int)
  {
    /** Checks e(V, g2) = e(g1^v, g2) * e(D, g2^alpha * g2^y) against the given accumulator value. */
    predicate Verify(acc: G1, elem: Element, pk: PublicKey, m: Modulus)
    {
      var g2y := ScalarMult(pk.g2, elem.x, m);
      var alphaPlusY := Add(pk.alpha, g2y, m);
      var g1v := ScalarBaseMult(v, m);
      var pair1 := Pair(g1v, pk.g2, m);
      var pair2 := Pair(d, alphaPlusY, m);
      var rhs := Add(pair1, pair2, m);
      var lhs := Pair(acc, pk.g2, m);
      lhs == rhs
    }
  }

  /**
   * Picks a random v and solves D = (V - g1^v)^(1/(y + alpha)), then checks
   * V = g1^v + D^(y + alpha) before returning (D, v). The draw is made, and
   * its failure reported, before the inverse is computed.
   */
  method GenerateNonMembershipWitness(acc: G1, sk: SecretKey, elem: Element, draw: Draw, m: Modulus)
    returns (r: Result<NonMembershipWitness>)
    ensures draw.Exhausted? ==> r == Failure(RandomFailure)
    ensures draw.Drawn? ==> (r.Failure? <==> ModInverse(elem.x + sk.alpha, m).None?)
    ensures r.Failure? ==> r.error != InvalidWitness
    ensures r.Success? ==> r.value.v == draw.n && r.value.d < m
    ensures r.Success? ==> (r.value.v + r.value.d * (elem.x + sk.alpha)) % m == acc % m
    ensures r.Success? ==> r.value.Verify(acc, elem, ToPublicKey(sk, m), m)
    ensures IsPrime(m) ==> (r.Failure? <==> draw.Exhausted? || (elem.x + sk.alpha) % m == 0)
  {
    var sum := elem.x + sk.alpha;
    sum := sum % m;

    if draw.Exhausted? {
      return Failure(RandomFailure);
    }
    var v := draw.n;

    var gv := ScalarBaseMult(v, m);
    var gvInv := Neg(gv, m);
    var temp := Add(acc, gvInv, m);

    var sumInv := ModInverse(sum, m);
    InverseOfResidue(elem.x + sk.alpha, m);
    if sumInv.None? {
      return Failure(NoInverse);
    }
    var d := ScalarMult(temp, sumInv.value, m);

    var dPowSum := ScalarMult(d, sum, m);
    var result := Add(gv, dPowSum, m);
    SelfCheckHolds(acc, v, sum, sumInv.value, m);
    ModSmall(result, m);

    if !Equal(result, acc, m) {
      return Failure(InvalidWitness);
    }

    r := Success(NonMembershipWitness(d, v));
    WitnessEquation(acc, v, d, elem.x + sk.alpha, m);
    NonMembershipVerifyMeaning(r.value, acc, elem, sk, m);
  }

  /** The inverse of a number and of its residue exist together. */
  lemma InverseOfResidue(g: int, m: Modulus)
    ensures ModInverse(g % m, m).Some? <==> ModInverse(g, m).Some?
  {
    ModMod(g, m);
  }

  /** The self-check of GenerateNonMembershipWitness always passes. */
  lemma SelfCheckHolds(acc: G1, v: int, sum: int, inv: int, m: Modulus)
    requires (sum * inv) % m == 1
    ensures var gv := ScalarBaseMult(v, m);
            var d := ScalarMult(Add(acc, Neg(gv, m), m), inv, m);
            Add(gv, ScalarMult(d, sum, m), m) == acc % m
  {
    var gv := ScalarBaseMult(v, m);
    var neg := Neg(gv, m);
    var temp := Add(acc, neg, m);
    var d := ScalarMult(temp, inv, m);
    assert ScalarMult(d, sum, m) == temp by {
      InverseCancels(temp, sum, inv, m);
      ModSmall(temp, m);
    }
    assert (gv + neg) % m == 0;
    assert Add(gv, temp, m) == (gv + (acc + neg)) % m by {
      ModAddLeft(acc + neg, gv, m);
    }
    assert (gv + (acc + neg)) % m == ((gv + neg) % m + acc) % m by {
      assert gv + (acc + neg) == (gv + neg) + acc;
      ModAddLeft(gv + neg, acc, m);
    }
  }

  /** The witness equation v + D*(y + alpha) = V, from the self-check. */
  lemma WitnessEquation(acc: G1, v: int, d: G1, s: int, m: Modulus)
    requires Add(ScalarBaseMult(v, m), ScalarMult(d, s % m, m), m) == acc % m
    ensures (v + d * s) % m == acc % m
  {
    assert ScalarMult(d, s % m, m) == (d * s) % m by {
      ModMulLeft(s, d, m);
    }
    ModAdd(v, d * s, m);
  }

  // ---------------------------------------------------------------------
  // What the checks decide, under a genuine public key.

  /** Witness.Verify holds exactly when w*alpha + x_pt = V (mod m). */
  lemma WitnessVerifyMeaning(w: Witness, acc: G1, elem: Element, sk: SecretKey, m: Modulus)
    ensures w.Verify(acc, elem, ToPublicKey(sk, m), m)
        <==> (w.value * sk.alpha + elem.value) % m == acc % m
  {
    var pk := ToPublicKey(sk, m);
    var pair1 := Pair(w.value, pk.alpha, m);
    assert pair1 == (w.value * sk.alpha) % m by {
      ModMulLeft(sk.alpha, w.value, m);
    }
    var pair2 := Pair(elem.value, pk.g2, m);
    PairWithGenerator(elem.value, m);
    PairWithGenerator(acc, m);
    assert Add(pair1, pair2, m) == (w.value * sk.alpha + elem.value) % m by {
      ModAdd(w.value * sk.alpha, elem.value, m);
    }
  }

  /** NonMembershipWitness.Verify holds exactly when V = v + D*(alpha + y) (mod m). */
  lemma NonMembershipVerifyMeaning(w: NonMembershipWitness, acc: G1, elem: Element, sk: SecretKey, m: Modulus)
    ensures w.Verify(acc, elem, ToPublicKey(sk, m), m)
        <==> acc % m == (w.v + w.d * (elem.x + sk.alpha)) % m
  {
    var pk := ToPublicKey(sk, m);
    var y, alpha := elem.x, sk.alpha;
    PairWithGenerator(acc, m);
    var g1v := ScalarBaseMult(w.v, m);
    var pair1 := Pair(g1v, pk.g2, m);
    assert pair1 == w.v % m by {
      PairWithGenerator(g1v, m);
      ModMod(w.v, m);
    }
    var g2y := ScalarMult(pk.g2, y, m);
    ScalarMultGenerator(y, m);
    var sum := y + alpha;
    var alphaPlusY := Add(pk.alpha, g2y, m);
    assert alphaPlusY == sum % m by {
      ModAdd(alpha, y, m);
    }
    var pair2 := Pair(w.d, alphaPlusY, m);
    assert pair2 == (w.d * sum) % m by {
      ModMulRight(w.d, sum, m);
    }
    assert Add(pair1, pair2, m) == (w.v + w.d * sum) % m by {
      ModAdd(w.v, w.d * sum, m);
    }
  }

  /** s*(W*alpha + x) = V*alpha + s*x (mod m) when W*s = V (mod m). */
  lemma ScaledWitnessEquation(w: int, s: int, alpha: int, x: int, acc: int, m: Modulus)
    requires (w * s) % m == acc % m
    ensures (s * (w * alpha + x)) % m == (acc * alpha + s * x) % m
  {
    assert s * (w * alpha + x) == (w * s) * alpha + s * x;
    assert ((w * s) * alpha) % m == (acc * alpha) % m by {
      ModMulLeft(w * s, alpha, m);
      ModMulLeft(acc, alpha, m);
    }
    ModAddLeft((w * s) * alpha, s * x, m);
    ModAddLeft(acc * alpha, s * x, m);
    ModAdd((w * s) * alpha, s * x, m);
    ModAdd(acc * alpha, s * x, m);
  }

  /** V*alpha + (x + alpha)*x - (x + alpha)*V = x*(x + alpha - V). */
  lemma WitnessPolynomial(x: int, alpha: int, acc: int)
    ensures acc * alpha + (x + alpha) * x - (x + alpha) * acc == x * (x + alpha - acc)
  {
    assert (x + alpha) * x == x * x + alpha * x;
    assert (x + alpha) * acc == x * acc + alpha * acc;
    assert x * (x + alpha - acc) == x * x + x * alpha - x * acc;
  }

  /**
   * With s = x + alpha invertible and W*s = V (mod m), the witness equation
   * W*alpha + x = V holds exactly when x*(x + alpha - V) = 0 (mod m).
   */
  lemma WitnessCongruenceIff(w: int, inv: int, alpha: int, x: int, acc: int, m: Modulus)
    requires ((x + alpha) * inv) % m == 1
    requires (w * (x + alpha)) % m == acc % m
    ensures (w * alpha + x) % m == acc % m <==> (x * (x + alpha - acc)) % m == 0
  {
    var s := x + alpha;
    // s*(W*alpha + x) = s*V, s being invertible
    CancelUnit(s, inv, w * alpha + x, acc, m);
    // s*(W*alpha + x) = V*alpha + s*x
    ScaledWitnessEquation(w, s, alpha, x, acc, m);
    CongruentIffDifference(acc * alpha + s * x, s * acc, m);
    WitnessPolynomial(x, alpha, acc);
  }

  /**
   * A witness GenerateWitness returns for a consistent element verifies
   * exactly when x * (x + alpha - V) = 0 (mod m); for a prime order, exactly
   * when x = 0 or V = x + alpha.
   */
  lemma GeneratedWitnessVerifiesIff(acc: G1, sk: SecretKey, elem: Element, m: Modulus)
    requires Consistent(elem, m)
    requires GenerateWitness(acc, sk, elem, m).Success?
    ensures GenerateWitness(acc, sk, elem, m).value.Verify(acc, elem, ToPublicKey(sk, m), m)
        <==> (elem.x * (elem.x + sk.alpha - acc)) % m == 0
    ensures IsPrime(m) ==>
              (GenerateWitness(acc, sk, elem, m).value.Verify(acc, elem, ToPublicKey(sk, m), m)
               <==> elem.x % m == 0 || acc % m == (elem.x + sk.alpha) % m)
  {
    var w := GenerateWitness(acc, sk, elem, m).value;
    var x, alpha := elem.x, sk.alpha;
    var verified := w.Verify(acc, elem, ToPublicKey(sk, m), m);
    assert verified <==> (w.value * alpha + x) % m == acc % m by {
      WitnessVerifyMeaning(w, acc, elem, sk, m);
      ModAdd(w.value * alpha, elem.value, m);
      ModAdd(w.value * alpha, x, m);
    }
    assert verified <==> (x * (x + alpha - acc)) % m == 0 by {
      WitnessCongruenceIff(w.value, ModInverse(x + alpha, m).value, alpha, x, acc, m);
    }
    if IsPrime(m) {
      ProductZeroIff(x, x + alpha - acc, m);
      CongruentIffDifference(x + alpha, acc, m);
    }
  }

  /**
   * Checked against an element whose scalar differs (mod a prime order), a
   * valid non-membership witness fails unless D = 0.
   */
  lemma NonMembershipRejectsOtherElement(w: NonMembershipWitness, acc: G1, elem: Element, other: Element,
                                         sk: SecretKey, m: Modulus)
    requires IsPrime(m)
    requires w.Verify(acc, elem, ToPublicKey(sk, m), m)
    requires other.x % m != elem.x % m
    ensures w.Verify(acc, other, ToPublicKey(sk, m), m) <==> w.d % m == 0
  {
    NonMembershipVerifyMeaning(w, acc, elem, sk, m);
    NonMembershipVerifyMeaning(w, acc, other, sk, m);
    var a := w.v + w.d * (elem.x + sk.alpha);
    var b := w.v + w.d * (other.x + sk.alpha);
    CongruentIffDifference(a, b, m);
    assert a - b == w.d * (elem.x - other.x);
    CongruentIffDifference(elem.x, other.x, m);
    ProductZeroIff(w.d, elem.x - other.x, m);
  }

  /**
   * A valid non-membership witness has D = 0 exactly when its v already
   * equals the accumulator value, provided y + alpha is invertible.
   */
  lemma NonMembershipDegenerateIff(w: NonMembershipWitness, acc: G1, elem: Element, sk: SecretKey, m: Modulus)
    requires ModInverse(elem.x + sk.alpha, m).Some?
    requires w.Verify(acc, elem, ToPublicKey(sk, m), m)
    ensures w.d % m == 0 <==> w.v % m == acc % m
  {
    var s := elem.x + sk.alpha;
    NonMembershipVerifyMeaning(w, acc, elem, sk, m);
    CongruentIffDifference(w.v + w.d * s, w.v, m);
    assert (w.v + w.d * s) - w.v == s * w.d;
    CancelUnit(s, ModInverse(s, m).value, w.d, 0, m);
    assert s * 0 == 0;
    ModSmall(0, m);
  }

  /**
   * Under a genuine key the proof ZkProof builds has T1 = W^rho, T2 = g2^rho,
   * T3 = e(W, g2) and response rho + c*x reduced into [0, m).
   */
  lemma ProveCommitments(w: Witness, acc: G1, elem: Element, sk: SecretKey, rho: int, codec: Codec, m: Modulus)
    ensures var p := Prove(w, acc, elem, ToPublicKey(sk, m), rho, codec, m);
            && p.commitment.t1 == (w.value * rho) % m
            && p.commitment.t2 == rho % m
            && p.commitment.t3 == w.value % m
            && 0 <= p.response < m
            && p.response
               == (rho + Challenge(codec, acc, elem.value, p.commitment.t1, p.commitment.t2, m) * elem.x) % m
  {
    ScalarMultGenerator(rho, m);
    PairWithGenerator(w.value, m);
  }

  /** c*x + rho = W*rho + c*x_pt (mod m) exactly when rho*(W - 1) = 0 (mod m). */
  lemma ResponseCheckIff(w: int, rho: int, c: int, x: int, xPt: int, m: Modulus)
    requires xPt % m == x % m
    ensures (c * x + rho) % m == ((w * rho) % m + c * xPt) % m <==> (rho * (w - 1)) % m == 0
  {
    var wr := w * rho;
    assert (c * xPt) % m == (c * x) % m by {
      ModMulRight(c, xPt, m);
      ModMulRight(c, x, m);
    }
    assert (wr % m + c * xPt) % m == (wr + c * x) % m by {
      ModAddLeft(wr, c * xPt, m);
      ModAdd(wr, c * xPt, m);
      ModAdd(wr, c * x, m);
    }
    CongruentIffDifference(c * x + rho, wr + c * x, m);
    assert (c * x + rho) - (wr + c * x) == -(rho * (w - 1));
    NegatedZero(rho * (w - 1), m);
  }

  /**
   * For a consistent element and a genuine key, the proof ZkProof builds
   * verifies exactly when rho*(W - 1) = 0 (mod m); for a prime order, exactly
   * when rho = 0 or W = g1.
   */
  lemma HonestProofVerifiesIff(w: Witness, acc: G1, elem: Element, sk: SecretKey, rho: int, codec: Codec, m: Modulus)
    requires Consistent(elem, m)
    ensures Prove(w, acc, elem, ToPublicKey(sk, m), rho, codec, m).Verify(acc, elem, ToPublicKey(sk, m), codec, m)
        <==> (rho * (w.value - 1)) % m == 0
    ensures IsPrime(m) ==>
              (Prove(w, acc, elem, ToPublicKey(sk, m), rho, codec, m).Verify(acc, elem, ToPublicKey(sk, m), codec, m)
               <==> rho % m == 0 || w.value % m == 1)
  {
    var pk := ToPublicKey(sk, m);
    var p := Prove(w, acc, elem, pk, rho, codec, m);
    var c := Challenge(codec, acc, elem.value, p.commitment.t1, p.commitment.t2, m);
    VerifyMeaning(p, acc, elem, sk, codec, m);
    assert p.response % m == (c * elem.x + rho) % m by {
      ModMod(c * elem.x + rho, m);
    }
    ResponseCheckIff(w.value, rho, c, elem.x, elem.value, m);
    if IsPrime(m) {
      ProductZeroIff(rho, w.value - 1, m);
      CongruentIffDifference(w.value, 1, m);
      ModSmall(1, m);
    }
  }
}
