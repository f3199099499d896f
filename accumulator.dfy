/**
 * The accumulator state and its update (accumulator.go).
 *
 * The state is one G1 point V. It starts at the generator g1, and each Add
 * replaces V by X + alpha*V (written additively), where X is the added
 * element's point and alpha the secret key.
 */
module Accumulators {
  import opened Numbers
  import opened Bn256
  import opened Keys
  import opened Utils

  /** One Add: the secret exponent used and the point of the added element. */
  datatype Step = Step(alpha: int, point: G1)

  /** The accumulator value reached from the generator by the steps of `h`, in order. */
  function Replay(h: seq<Step>, m: Modulus): (v: G1)
  {
    if h == [] then ScalarBaseMult(1, m)
    else
      var last := h[|h| - 1];
      Add(last.point, ScalarMult(Replay(h[..|h| - 1], m), last.alpha, m), m)
  }

  class Accumulator {
    /** The accumulated value V (its exponent with respect to g1). */
    var value: G1
    /** The Adds applied so far, oldest first. */
    ghost var history: seq<Step>

    ghost predicate Valid(m: Modulus)
      reads this
    {
      value == Replay(history, m)
    }

    /** NewAccumulator: V is the G1 generator. */
    constructor (m: Modulus)
      ensures Valid(m) && history == []
      ensures value == 1
    {
      ModSmall(1, m);
      value := ScalarBaseMult(1, m);
      history := [];
    }

    /**
     * Folds an element in: V := X + alpha*V. Only V changes; the key and the
     * element are values and stay as they were.
     */
    method Add(sk: SecretKey, elem: Element, m: Modulus)
      requires Valid(m)
      modifies this
      ensures Valid(m)
      ensures history == old(history) + [Step(sk.alpha, elem.value)]
      ensures value == (elem.value + old(value) * sk.alpha) % m
    {
      var alphaPoint := ScalarMult(value, sk.alpha, m);
      var elemPoint := Bn256.Add(elem.value, alphaPoint, m);
      ModAddLeft(value * sk.alpha, elem.value, m);
      value := elemPoint;
      history := history + [Step(sk.alpha, elem.value)];
      assert history[..|history| - 1] == old(history);
    }
  }

  /**
   * The closed form of the recurrence, read from the front: alpha^n plus
   * each added point weighted by alpha raised to the number of Adds after it.
   */
  function WeightedSum(h: seq<Step>, alpha: int): int
  {
    if h == [] then 0
    else h[0].point * Pow(alpha, |h| - 1) + WeightedSum(h[1..], alpha)
  }

  lemma {:induction false} WeightedSumSnoc(h: seq<Step>, s: Step, alpha: int)
    ensures WeightedSum(h + [s], alpha) == alpha * WeightedSum(h, alpha) + s.point
  {
    if h == [] {
      assert [s][1..] == [];
    } else {
      assert (h + [s])[1..] == h[1..] + [s];
      WeightedSumSnoc(h[1..], s, alpha);
      calc {
        WeightedSum(h + [s], alpha);
        h[0].point * Pow(alpha, |h|) + WeightedSum(h[1..] + [s], alpha);
        h[0].point * (alpha * Pow(alpha, |h| - 1)) + alpha * WeightedSum(h[1..], alpha) + s.point;
        { assert h[0].point * (alpha * Pow(alpha, |h| - 1)) == alpha * (h[0].point * Pow(alpha, |h| - 1)); }
        alpha * (h[0].point * Pow(alpha, |h| - 1) + WeightedSum(h[1..], alpha)) + s.point;
      }
    }
  }

  /**
   * n Adds under one key yield alpha^n + sum of x_i * alpha^(n-1-i) (mod m):
   * the recurrence v_n = x_n + alpha * v_(n-1) from v_0 = 1, solved.
   */
  lemma {:induction false} ReplayClosedForm(h: seq<Step>, alpha: int, m: Modulus)
    requires forall i :: 0 <= i < |h| ==> h[i].alpha == alpha
    ensures Replay(h, m) == (Pow(alpha, |h|) + WeightedSum(h, alpha)) % m
  {
    if h == [] {
      ModSmall(1, m);
    } else {
      var init, last := h[..|h| - 1], h[|h| - 1];
      assert h == init + [last];
      ReplayClosedForm(init, alpha, m);
      WeightedSumSnoc(init, last, alpha);
      var prev := Pow(alpha, |init|) + WeightedSum(init, alpha);
      assert Replay(init, m) == prev % m;
      assert Replay(h, m) == (last.point + (prev * alpha) % m) % m by {
        ModMulLeft(prev, alpha, m);
      }
      ModAddLeft(prev * alpha, last.point, m);
      assert Pow(alpha, |h|) == alpha * Pow(alpha, |init|);
      assert WeightedSum(h, alpha) == alpha * WeightedSum(init, alpha) + last.point;
      assert last.point + prev * alpha == Pow(alpha, |h|) + WeightedSum(h, alpha);
    }
  }

  /** One Add of X onto a fresh accumulator gives x + alpha. */
  lemma SingleAdd(alpha: int, point: G1, m: Modulus)
    ensures Replay([Step(alpha, point)], m) == (point + alpha) % m
  {
    ReplayClosedForm([Step(alpha, point)], alpha, m);
  }
}
