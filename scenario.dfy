/**
 * The flow of the demonstration program (main.go), stated for all keys and
 * elements: one element is accumulated, its witness is generated and
 * checked, a second element is tried, and a membership proof is built
 * from the first witness after a further Add.
 */
module Scenario {
  import opened Numbers
  import opened Bn256
  import opened Keys
  import opened Utils
  import opened Proofs
  import opened Accumulators
  import opened Witnesses
  import opened Effects

  /** The value of an accumulator after its first Add. */
  lemma FirstAdd(sk: SecretKey, elem: Element, m: Modulus)
    requires Consistent(elem, m)
    ensures Replay([Step(sk.alpha, elem.value)], m) == (elem.x + sk.alpha) % m
  {
    SingleAdd(sk.alpha, elem.value, m);
    ModAdd(elem.value, sk.alpha, m);
    ModAdd(elem.x, sk.alpha, m);
  }

  /**
   * After one Add of a consistent element, GenerateWitness succeeds whenever
   * x + alpha is invertible, the witness is the generator g1 itself, and it
   * verifies.
   */
  lemma SingleElementWitness(sk: SecretKey, elem: Element, m: Modulus)
    requires Consistent(elem, m)
    requires ModInverse(elem.x + sk.alpha, m).Some?
    ensures var acc := Replay([Step(sk.alpha, elem.value)], m);
            && GenerateWitness(acc, sk, elem, m) == Success(Witness(1))
            && Witness(1).Verify(acc, elem, ToPublicKey(sk, m), m)
  {
    var acc := Replay([Step(sk.alpha, elem.value)], m);
    var s := elem.x + sk.alpha;
    var inv := ModInverse(s, m).value;
    FirstAdd(sk, elem, m);
    assert GenerateWitness(acc, sk, elem, m) == Success(Witness(1)) by {
      assert ScalarMult(acc, inv, m) == 1 by {
        ModMulLeft(s, inv, m);
      }
    }
    assert Witness(1).Verify(acc, elem, ToPublicKey(sk, m), m) by {
      WitnessVerifyMeaning(Witness(1), acc, elem, sk, m);
      assert 1 * sk.alpha + elem.value == sk.alpha + elem.value;
      ModAdd(sk.alpha, elem.value, m);
      ModAdd(sk.alpha, elem.x, m);
      ModMod(s, m);
    }
  }

  /**
   * For a prime order, the witness GenerateWitness builds for a second,
   * different and non-zero element against the one-element accumulator is
   * rejected.
   */
  lemma SingleElementRejectsOther(sk: SecretKey, elem: Element, other: Element, m: Modulus)
    requires IsPrime(m)
    requires Consistent(elem, m) && Consistent(other, m)
    requires other.x % m != elem.x % m && other.x % m != 0
    requires (other.x + sk.alpha) % m != 0
    ensures var acc := Replay([Step(sk.alpha, elem.value)], m);
            && GenerateWitness(acc, sk, other, m).Success?
            && !GenerateWitness(acc, sk, other, m).value.Verify(acc, other, ToPublicKey(sk, m), m)
  {
    var acc := Replay([Step(sk.alpha, elem.value)], m);
    FirstAdd(sk, elem, m);
    GeneratedWitnessVerifiesIff(acc, sk, other, m);
    ModMod(elem.x + sk.alpha, m);
    CongruentIffDifference(elem.x + sk.alpha, other.x + sk.alpha, m);
    CongruentIffDifference(elem.x, other.x, m);
    assert (elem.x + sk.alpha) - (other.x + sk.alpha) == elem.x - other.x;
  }

  /**
   * For a prime order, the non-membership witness of a second element,
   * checked against the accumulated element, is rejected unless its random
   * v happened to equal the accumulator value.
   */
  lemma MemberRejectsNonMembershipWitness(w: NonMembershipWitness, acc: G1, elem: Element, nonElem: Element,
                                          sk: SecretKey, m: Modulus)
    requires IsPrime(m)
    requires w.Verify(acc, nonElem, ToPublicKey(sk, m), m)
    requires nonElem.x % m != elem.x % m
    requires (nonElem.x + sk.alpha) % m != 0
    ensures w.Verify(acc, elem, ToPublicKey(sk, m), m) <==> w.v % m == acc % m
  {
    NonMembershipRejectsOtherElement(w, acc, nonElem, elem, sk, m);
    NonMembershipDegenerateIff(w, acc, nonElem, sk, m);
  }

  /**
   * A proof built from a witness equal to g1 verifies whatever the
   * accumulator value it is checked against, so the first element's proof
   * still verifies after the second Add.
   */
  lemma GeneratorWitnessProofVerifies(w: Witness, acc: G1, elem: Element, sk: SecretKey, rho: int, codec: Codec,
                                      m: Modulus)
    requires Consistent(elem, m)
    requires w.value % m == 1
    ensures Prove(w, acc, elem, ToPublicKey(sk, m), rho, codec, m).Verify(acc, elem, ToPublicKey(sk, m), codec, m)
  {
    HonestProofVerifiesIff(w, acc, elem, sk, rho, codec, m);
    ModSmall(1, m);
    CongruentIffDifference(w.value, 1, m);
    ModMulRight(rho, w.value - 1, m);
    ModSmall(0, m);
    assert rho * 0 == 0;
  }

  /** Seven is prime. */
  lemma SevenIsPrime()
    ensures IsPrime(7)
  {
    forall d | 1 < d < 7
      ensures !Divides(d, 7)
    {
      assert d == 2 || d == 3 || d == 4 || d == 5 || d == 6;
    }
  }

  // The Add recurrence V := X + alpha*V and the witness equation
  // W^(x + alpha) = V do not fit together beyond one element. With order 7,
  // alpha = 2 and element scalars 1 then 3, the accumulator goes from 3 to 2:
  // the witness of the first element, valid at 3, fails at 2, and so does
  // the witness generated afresh at 2.

  /** With order 7 and alpha = 2, Adds of the points 1 then 3 give the values 3 then 2. */
  lemma StaleAccumulatorValues()
    ensures Replay([Step(2, 1)], 7) == 3
    ensures Replay([Step(2, 1), Step(2, 3)], 7) == 2
  {
    assert [Step(2, 1), Step(2, 3)][..1] == [Step(2, 1)];
    assert [Step(2, 1)][..0] == [];
  }

  /** With order 7 and alpha = 2, the element with scalar 1 has a witness against the value 2, and it fails. */
  lemma RegeneratedWitnessFails()
    ensures GenerateWitness(2, SecretKey(2), Element(1, 1), 7).Success?
    ensures !GenerateWitness(2, SecretKey(2), Element(1, 1), 7).value.Verify(2, Element(1, 1), ToPublicKey(SecretKey(2), 7), 7)
  {
    SevenIsPrime();
    GeneratedWitnessVerifiesIff(2, SecretKey(2), Element(1, 1), 7);
  }

  /** With order 7 and alpha = 2, the witness of the element with scalar 1 against the value 3 is g1, and it verifies. */
  lemma FirstWitnessValid()
    ensures GenerateWitness(3, SecretKey(2), Element(1, 1), 7) == Success(Witness(1))
    ensures Witness(1).Verify(3, Element(1, 1), ToPublicKey(SecretKey(2), 7), 7)
  {
    SevenIsPrime();
    StaleAccumulatorValues();
    SingleElementWitness(SecretKey(2), Element(1, 1), 7);
  }

  /** ... and the same witness fails against the value 2. */
  lemma OldWitnessFails()
    ensures !Witness(1).Verify(2, Element(1, 1), ToPublicKey(SecretKey(2), 7), 7)
  {
    WitnessVerifyMeaning(Witness(1), 2, Element(1, 1), SecretKey(2), 7);
  }
}
