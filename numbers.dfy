/**
 * Integer arithmetic the protocol borrows from Go's math/big package:
 * Euclidean reduction modulo the group order, the modular inverse
 * (`ModInverse`) and the big-endian byte decoding (`SetBytes`).
 *
 * The group order is not fixed here: every operation takes it as a
 * parameter `m`, and primality is an explicit hypothesis `IsPrime(m)`
 * on exactly the facts that need it.
 */
module Numbers {

  /** A modulus of the integers: the order of the bilinear groups. */
  type Modulus = n: int | n > 1 witness 2

  /** An octet, as produced by SHA-256 and by point marshalling. */
  type byte = b: int | 0 <= b < 256

  /** `d` is a positive divisor of `n`. */
  predicate Divides(d: int, n: int)
  {
    d > 0 && n % d == 0
  }

  ghost predicate IsPrime(n: int)
  {
    n > 1 && forall d :: 1 < d < n ==> !Divides(d, n)
  }

  function Pow(b: int, e: nat): int
  {
    if e == 0 then 1 else b * Pow(b, e - 1)
  }

  // ---------------------------------------------------------------------
  // Euclidean remainder: the few facts the protocol proofs are built from.

  /** A multiple of `m` strictly between -m and m is zero. */
  lemma MultipleInRange(m: int, k: int)
    requires m > 0 && -m < m * k < m
    ensures k == 0
  {
  }

  lemma ModAddMultiple(a: int, k: int, m: int)
    requires m > 0
    ensures (a + m * k) % m == a % m
  {
    var t := a + m * k;
    assert t == m * (t / m) + t % m;
    assert a == m * (a / m) + a % m;
    assert t % m - a % m == m * (k + a / m - t / m);
    MultipleInRange(m, k + a / m - t / m);
  }

  lemma ModOfMultiple(k: int, m: int)
    requires m > 0
    ensures (m * k) % m == 0
  {
    ModAddMultiple(0, k, m);
  }

  lemma ModSmall(a: int, m: int)
    requires 0 <= a < m
    ensures a % m == a
  {
    ModAddMultiple(a, 0, m);
    assert a == m * (a / m) + a % m;
    MultipleInRange(m, a / m);
  }

  lemma ModMod(a: int, m: int)
    requires m > 0
    ensures (a % m) % m == a % m
  {
    ModSmall(a % m, m);
  }

  /** Reducing a summand first does not change the sum's residue. */
  lemma ModAddLeft(a: int, b: int, m: int)
    requires m > 0
    ensures (a % m + b) % m == (a + b) % m
  {
    assert a == m * (a / m) + a % m;
    ModAddMultiple(a % m + b, a / m, m);
  }

  lemma ModAdd(a: int, b: int, m: int)
    requires m > 0
    ensures (a % m + b % m) % m == (a + b) % m
  {
    ModAddLeft(a, b % m, m);
    ModAddLeft(b, a, m);
  }

  /** Reducing a factor first does not change the product's residue. */
  lemma ModMulLeft(a: int, b: int, m: int)
    requires m > 0
    ensures ((a % m) * b) % m == (a * b) % m
  {
    var q := a / m;
    assert a == m * q + a % m;
    assert a * b == (a % m) * b + m * (q * b);
    ModAddMultiple((a % m) * b, q * b, m);
  }

  /** ... whichever factor is reduced. */
  lemma ModMulRight(a: int, b: int, m: int)
    requires m > 0
    ensures (a * (b % m)) % m == (a * b) % m
  {
    ModMulLeft(b, a, m);
    assert a * (b % m) == (b % m) * a;
    assert a * b == b * a;
  }

  lemma ModMul(a: int, b: int, m: int)
    requires m > 0
    ensures ((a % m) * (b % m)) % m == (a * b) % m
  {
    ModMulLeft(a, b % m, m);
    ModMulLeft(b, a, m);
  }

  /** Two integers are congruent exactly when their difference vanishes. */
  lemma CongruentIffDifference(a: int, b: int, m: int)
    requires m > 0
    ensures a % m == b % m <==> (a - b) % m == 0
  {
    ModAddMultiple(a - b, b / m, m);
    assert b == m * (b / m) + b % m;
    ModAdd(a - b, b, m);
    if a % m == b % m {
      ModAddLeft(a, -b, m);
      ModAddLeft(-b, b % m, m);
      assert (a - b) % m == (b % m - b) % m;
      assert b % m - b == m * -(b / m);
      ModOfMultiple(-(b / m), m);
    } else {
      if (a - b) % m == 0 {
        ModAddLeft(a - b, b, m);
        assert false;
      }
    }
  }

  // ---------------------------------------------------------------------
  // Divisibility and the extended Euclidean algorithm.

  lemma DividesLinear(d: int, u: int, v: int, s: int, t: int)
    requires Divides(d, u) && Divides(d, v)
    ensures Divides(d, u * s + v * t)
  {
    assert u == d * (u / d) + u % d;
    assert v == d * (v / d) + v % d;
    assert u * s + v * t == d * ((u / d) * s + (v / d) * t);
    ModOfMultiple((u / d) * s + (v / d) * t, d);
  }

  lemma DivisorBound(d: int, n: int)
    requires Divides(d, n) && n > 0
    ensures d <= n
  {
    assert n == d * (n / d) + n % d;
    assert n / d >= 1;
  }

  datatype Option<T> = None | Some(value: T)

  /** Greatest common divisor with Bézout coefficients: a*x + b*y == gcd. */
  datatype Bezout = Bezout(gcd: nat, x: int, y: int)

  function ExtGcd(a: nat, b: nat): (r: Bezout)
    ensures a * r.x + b * r.y == r.gcd
    ensures a > 0 || b > 0 ==> Divides(r.gcd, a) && Divides(r.gcd, b)
    decreases b
  {
    if b == 0 then
      assert a > 0 ==> a % a == 0 by {
        if a > 0 { ModOfMultiple(1, a); }
      }
      Bezout(a, 1, 0)
    else
      var q := a / b;
      var rec := ExtGcd(b, a % b);
      assert a == b * q + a % b;
      assert a * rec.y + b * (rec.x - q * rec.y) == b * rec.x + (a % b) * rec.y;
      assert Divides(rec.gcd, a) by {
        DividesLinear(rec.gcd, b, a % b, q, 1);
      }
      Bezout(rec.gcd, rec.y, rec.x - q * rec.y)
  }

  /**
   * big.Int's ModInverse(g, m): the inverse of g in the integers modulo m,
   * as a residue in [0, m), or None (Go's nil) when g and m share a factor.
   */
  function ModInverse(g: int, m: Modulus): (r: Option<nat>)
    ensures r.Some? ==> r.value < m && (g * r.value) % m == 1
    ensures IsPrime(m) ==> (r.None? <==> g % m == 0)
  {
    var e := ExtGcd(g % m, m);
    if e.gcd != 1 then
      GcdOfNonZero(g, m);
      None
    else
      BezoutInverse(g, m);
      ZeroHasNoInverse(g, m);
      Some(e.x % m)
  }

  lemma GcdOfNonZero(g: int, m: Modulus)
    ensures IsPrime(m) && g % m != 0 ==> ExtGcd(g % m, m).gcd == 1
  {
    if IsPrime(m) && g % m != 0 {
      var d := ExtGcd(g % m, m).gcd;
      DivisorBound(d, g % m);
      assert Divides(d, m);
    }
  }

  lemma ZeroHasNoInverse(g: int, m: Modulus)
    ensures g % m == 0 ==> ExtGcd(g % m, m).gcd == m
  {
    if g % m == 0 {
      assert ExtGcd(0, m) == Bezout(m, 0, 1);
    }
  }

  lemma BezoutInverse(g: int, m: Modulus)
    requires ExtGcd(g % m, m).gcd == 1
    ensures (g * (ExtGcd(g % m, m).x % m)) % m == 1
  {
    var e := ExtGcd(g % m, m);
    calc {
      (g * (e.x % m)) % m;
      { ModMulLeft(e.x, g, m); }
      (g * e.x) % m;
      { ModMulLeft(g, e.x, m); }
      ((g % m) * e.x) % m;
      { ModAddMultiple((g % m) * e.x, e.y, m); }
      1 % m;
      { ModSmall(1, m); }
      1;
    }
  }

  /** When ModInverse reports no inverse, there is indeed none. */
  lemma {:induction false} NoInverseWhenNone(g: int, k: int, m: Modulus)
    requires ModInverse(g, m).None?
    ensures (g * k) % m != 1
  {
    var e := ExtGcd(g % m, m);
    var d := e.gcd;
    if (g * k) % m == 1 {
      assert g == (g % m) * 1 + m * (g / m);
      DividesLinear(d, g % m, m, 1, g / m);
      var q := (g * k) / m;
      assert g * k == m * q + 1;
      DividesLinear(d, g, m, k, -q);
      assert g * k + m * -q == 1;
      DivisorBound(d, 1);
    }
  }

  /** Euclid's lemma: a prime modulus leaves no zero divisors. */
  lemma NoZeroDivisors(a: int, b: int, p: Modulus)
    requires IsPrime(p)
    requires (a * b) % p == 0
    ensures a % p == 0 || b % p == 0
  {
    if a % p != 0 {
      var inv := ModInverse(a, p).value;
      CancelUnit(a, inv, b, 0, p);
      ModSmall(0, p);
    }
  }

  /** Modulo a prime, a product vanishes exactly when one of its factors does. */
  lemma ProductZeroIff(a: int, b: int, p: Modulus)
    requires IsPrime(p)
    ensures (a * b) % p == 0 <==> a % p == 0 || b % p == 0
  {
    if (a * b) % p == 0 {
      NoZeroDivisors(a, b, p);
    }
    if a % p == 0 {
      ModMulLeft(a, b, p);
    } else if b % p == 0 {
      ModMulLeft(b, a, p);
    }
  }

  /** Multiplying by a and then by an inverse of s undoes a multiplication by s. */
  lemma InverseCancels(a: int, s: int, inv: int, m: Modulus)
    requires (s * inv) % m == 1
    ensures (((a * inv) % m) * s) % m == a % m
  {
    calc {
      (((a * inv) % m) * s) % m;
      { ModMulLeft(a * inv, s, m); }
      ((a * inv) * s) % m;
      { assert (a * inv) * s == a * (s * inv); }
      (a * (s * inv)) % m;
      { ModMulLeft(s * inv, a, m); }
      (((s * inv) % m) * a) % m;
    }
  }

  /** A factor with an inverse can be cancelled from both sides of a congruence. */
  lemma CancelUnit(s: int, inv: int, a: int, b: int, m: Modulus)
    requires (s * inv) % m == 1
    ensures (s * a) % m == (s * b) % m <==> a % m == b % m
  {
    if (s * a) % m == (s * b) % m {
      InverseCancels(s * a, inv, s, m);
      InverseCancels(s * b, inv, s, m);
      assert s * a * inv == (s * inv) * a;
      assert s * b * inv == (s * inv) * b;
      ModMulLeft(s * inv, a, m);
      ModMulLeft(s * inv, b, m);
      ModMulLeft(s * a, inv, m);
      ModMulLeft(s * b, inv, m);
    }
    if a % m == b % m {
      ModMulLeft(a, s, m);
      ModMulLeft(b, s, m);
    }
  }

  /** The residue of a negated multiple vanishes with that of the multiple. */
  lemma NegatedZero(a: int, m: Modulus)
    ensures (-a) % m == 0 <==> a % m == 0
  {
    CongruentIffDifference(0, a, m);
    ModSmall(0, m);
  }

  // ---------------------------------------------------------------------
  // big.Int's SetBytes: a byte string read as a big-endian unsigned integer.

  function FromBigEndian(s: seq<byte>): nat
  {
    if s == [] then 0 else FromBigEndian(s[..|s| - 1]) * 256 + s[|s| - 1]
  }

  lemma {:induction false} FromBigEndianBound(s: seq<byte>)
    ensures FromBigEndian(s) < Pow(256, |s|)
  {
    if s != [] {
      var init := s[..|s| - 1];
      FromBigEndianBound(init);
      assert FromBigEndian(init) + 1 <= Pow(256, |init|);
      assert (FromBigEndian(init) + 1) * 256 <= Pow(256, |init|) * 256;
    }
  }

  /** Concatenation shifts the first part left by the bytes of the second. */
  lemma {:induction false} FromBigEndianAppend(a: seq<byte>, b: seq<byte>)
    ensures FromBigEndian(a + b) == FromBigEndian(a) * Pow(256, |b|) + FromBigEndian(b)
    decreases |b|
  {
    if b == [] {
      assert a + b == a;
    } else {
      var init := b[..|b| - 1];
      assert (a + b)[..|a + b| - 1] == a + init;
      FromBigEndianAppend(a, init);
      assert Pow(256, |b|) == Pow(256, |init|) * 256;
    }
  }

  /** Strings of one length decode to the same integer only when equal. */
  lemma {:induction false} FromBigEndianInjective(a: seq<byte>, b: seq<byte>)
    requires |a| == |b|
    requires FromBigEndian(a) == FromBigEndian(b)
    ensures a == b
  {
    if a != [] {
      var n := |a| - 1;
      var ia, ib := a[..n], b[..n];
      var x, y := FromBigEndian(ia), FromBigEndian(ib);
      assert x * 256 + a[n] == y * 256 + b[n];
      MultipleInRange(256, y - x);
      FromBigEndianInjective(ia, ib);
      assert a == ia + [a[n]];
      assert b == ib + [b[n]];
    }
  }

  lemma {:induction false} PowMultiply(b: int, e1: nat, e2: nat)
    ensures Pow(b, e1 + e2) == Pow(b, e1) * Pow(b, e2)
    decreases e1
  {
    if e1 > 0 {
      PowMultiply(b, e1 - 1, e2);
      assert Pow(b, e1 + e2) == b * Pow(b, e1 - 1 + e2);
    }
  }

  lemma {:induction false} PowBytes(n: nat)
    ensures Pow(256, n) == Pow(2, 8 * n)
  {
    if n > 0 {
      PowBytes(n - 1);
      PowMultiply(2, 8 * (n - 1), 8);
      assert Pow(2, 8) == 256;
    }
  }
}
