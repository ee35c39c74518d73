/**
 * Primality and modular inverses. `IsPrime` is exact primality: it stands in
 * for big-integer's probabilistic `isProbablePrime` and for `isPrime`, i.e. the
 * model assumes the test never errs. `ModInv` is the library's `modInv`,
 * defined by the property that makes it an inverse.
 */
module Primes {
  import opened Common
  import opened ModArith

  /** `d` divides `n`. */
  predicate Divides(d: nat, n: nat)
    requires d > 0
  {
    n % d == 0
  }

  predicate IsPrime(n: nat)
  {
    n >= 2 && forall d :: 2 <= d < n ==> !Divides(d, n)
  }

  /** `t` is an inverse of `s` modulo `m`. */
  predicate IsInverse(s: int, t: int, m: nat)
    requires m > 0
  {
    (s * t) % m == 1
  }

  /**
   * `s.modInv(m)`: the inverse of `s` in `[0, m)`, or `None` where the
   * library throws because `s` and `m` are not coprime.
   */
  function ModInv(s: nat, m: nat): (r: Option<nat>)
    requires m > 0
    ensures r.Some? ==> r.value < m && IsInverse(s, r.value, m)
    ensures r.None? ==> forall t: nat :: t < m ==> !IsInverse(s, t, m)
  {
    InverseFrom(s, m, 0)
  }

  /** Searches `[t, m)` for an inverse of `s`. */
  function InverseFrom(s: nat, m: nat, t: nat): (r: Option<nat>)
    requires m > 0
    decreases m - t
    ensures r.Some? ==> t <= r.value < m && IsInverse(s, r.value, m)
    ensures r.None? ==> forall u: nat :: t <= u < m ==> !IsInverse(s, u, m)
  {
    if t >= m then None
    else if IsInverse(s, t, m) then Some(t)
    else InverseFrom(s, m, t + 1)
  }

  /** Modulo `m`, an element has at most one inverse in `[0, m)`. */
  lemma InverseUnique(s: nat, t: nat, t': nat, m: nat)
    requires m > 0 && t < m && t' < m
    requires IsInverse(s, t, m) && IsInverse(s, t', m)
    ensures t == t'
  {
    DivModUnique(t, m, 0, t);
    DivModUnique(t', m, 0, t');
    DivModUnique(1, m, 0, 1);
    calc {
      t;
      t % m;
      (t * 1) % m;
      (t * ((s * t') % m)) % m;
      { MulMod(t, s * t', m); DivModUnique(t, m, 0, t); }
      (t * (s * t')) % m;
      { assert t * (s * t') == t' * (s * t); }
      (t' * (s * t)) % m;
      { MulMod(t', s * t, m); DivModUnique(t', m, 0, t'); }
      (t' * ((s * t) % m)) % m;
      (t' * 1) % m;
      t';
    }
  }

  /** The defining property of the modular inverse, in both directions. */
  lemma ModInvCharacterised(s: nat, t: nat, m: nat)
    requires m > 0
    ensures ModInv(s, m) == Some(t) <==> t < m && IsInverse(s, t, m)
  {
    if t < m && IsInverse(s, t, m) {
      InverseUnique(s, t, ModInv(s, m).value, m);
    }
  }

  /**
   * Extended Euclid: `(d, u, v)` with `a*u + b*v == d`, where `d` divides
   * both `a` and `b`.
   */
  ghost function Bezout(a: nat, b: nat): (r: (nat, int, int))
    decreases b
    ensures a * r.1 + b * r.2 == r.0
    ensures a > 0 || b > 0 ==> r.0 > 0
    ensures r.0 > 0 ==> Divides(r.0, a) && Divides(r.0, b)
  {
    if b == 0 then
      (a, 1, 0)
    else
      var (d, u, v) := Bezout(b, a % b);
      EuclidStep(a, b, d, u, v);
      (d, v, u - (a / b) * v)
  }

  /** One step of Euclid's algorithm carries the combination and the common divisor back. */
  lemma EuclidStep(a: nat, b: nat, d: nat, u: int, v: int)
    requires b > 0 && b * u + (a % b) * v == d
    requires d > 0 ==> Divides(d, b) && Divides(d, a % b)
    ensures a * v + b * (u - (a / b) * v) == d
    ensures d > 0 ==> Divides(d, a)
  {
    var k, r := a / b, a % b;
    assert a == b * k + r;
    assert a * v + b * (u - k * v) == b * u + r * v;
    if d > 0 {
      DividesLinear(d, b, r, k);
      assert k * b + r == a;
    }
  }

  /** A positive multiple of `d` is at least `d`. */
  lemma DivisorAtMost(d: nat, n: nat)
    requires d > 0 && n > 0 && Divides(d, n)
    ensures d <= n
  {
    assert n == d * (n / d);
    assert n / d >= 1;
    MulAtLeast(d, n / d);
  }

  /** Every element not divisible by a prime `p` is invertible modulo `p`. */
  lemma InverseExists(s: nat, p: nat)
    requires IsPrime(p) && s % p != 0
    ensures ModInv(s, p).Some?
  {
    var (d, u, v) := Bezout(s % p, p);
    CoprimeToPrime(s % p, p);
    var t := InverseFromCombination(s, p, u, v);
  }

  /** Below a prime, every positive number shares only the divisor 1 with it. */
  lemma CoprimeToPrime(a: nat, p: nat)
    requires IsPrime(p) && 0 < a < p
    ensures Bezout(a, p).0 == 1
  {
    var d := Bezout(a, p).0;
    DivisorAtMost(d, a);
    assert !(2 <= d < p);
  }

  /** `(s mod p) * u + p * v = 1` makes `u mod p` the inverse of `s`. */
  lemma InverseFromCombination(s: nat, p: nat, u: int, v: int) returns (t: nat)
    requires p > 1 && (s % p) * u + p * v == 1
    ensures t < p && IsInverse(s, t, p)
  {
    var s' := s % p;
    CombinationResidue(s', u, v, p);
    t := u % p;
    DivModUnique(t, p, 0, t);
    DivModUnique(s', p, 0, s');
    calc {
      (s * t) % p;
      { MulMod(s, t, p); }
      (s' * t) % p;
      { MulMod(s', u, p); }
      (s' * u) % p;
    }
  }

  /** `a*u + p*v = 1` means `a*u` leaves remainder 1. */
  lemma CombinationResidue(a: int, u: int, v: int, p: nat)
    requires p > 1 && a * u + p * v == 1
    ensures (a * u) % p == 1
  {
    ModAddMultiple(p, -v, 1);
    DivModUnique(1, p, 0, 1);
    assert a * u == p * (-v) + 1;
  }

  /** A prime dividing a product divides one of its factors (Euclid's lemma). */
  lemma NonzeroProduct(a: nat, b: nat, p: nat)
    requires IsPrime(p) && a % p != 0 && b % p != 0
    ensures (a * b) % p != 0
  {
    InverseExists(a, p);
    var t := ModInv(a, p).value;
    if (a * b) % p == 0 {
      CancelByInverse(a, b, t, p);
    }
  }

  /** If `a*t = 1` and `a*b = 0` modulo `m`, then `b = 0` modulo `m`. */
  lemma CancelByInverse(a: int, b: int, t: int, m: int)
    requires m > 0 && (a * t) % m == 1 && (a * b) % m == 0
    ensures b % m == 0
  {
    var at, ab := a * t, a * b;
    assert (at * b) % m == b % m by {
      MulModLeft(at, b, m);
    }
    assert at * b == ab * t by {
      assert at * b == a * t * b;
      assert ab * t == a * b * t;
    }
    assert (ab * t) % m == 0 by {
      MulModLeft(ab, t, m);
    }
  }

  /** Powers of an element not divisible by a prime are not divisible by it. */
  lemma {:induction false} ModPowNonzero(g: nat, e: nat, p: nat)
    requires IsPrime(p) && g % p != 0
    ensures ModPow(g, e, p) != 0
  {
    if e == 0 {
      DivModUnique(1, p, 0, 1);
    } else {
      ModPowNonzero(g, e - 1, p);
      NonzeroProduct(g, Pow(g, e - 1), p);
    }
  }

  function Factorial(n: nat): (r: nat)
    ensures r >= 1
  {
    if n == 0 then 1 else n * Factorial(n - 1)
  }

  lemma {:induction false} FactorialDivisible(n: nat, d: nat)
    requires 1 <= d <= n
    ensures Divides(d, Factorial(n))
  {
    if d == n {
      DivModUnique(n * Factorial(n - 1), n, Factorial(n - 1), 0);
    } else {
      FactorialDivisible(n - 1, d);
      DivModUnique(0, d, 0, 0);
      DividesLinear(d, Factorial(n - 1), 0, n);
    }
  }

  /** The least divisor of `n` in `[k, n]`, given none below `k`. */
  function LeastFactorFrom(n: nat, k: nat): (r: nat)
    requires 2 <= k <= n
    requires forall j :: 2 <= j < k ==> !Divides(j, n)
    decreases n - k
    ensures k <= r <= n && Divides(r, n)
    ensures forall j :: 2 <= j < r ==> !Divides(j, n)
  {
    DivModUnique(n, n, 1, 0);
    if Divides(k, n) then k else LeastFactorFrom(n, k + 1)
  }

  /** Divisibility is transitive. */
  lemma DividesTransitive(a: nat, b: nat, c: nat)
    requires a > 0 && b > 0 && Divides(a, b) && Divides(b, c)
    ensures Divides(a, c)
  {
    DivModUnique(0, a, 0, 0);
    DividesLinear(a, b, 0, c / b);
    assert c == (c / b) * b;
  }

  /** There is a prime above every bound (Euclid's theorem). */
  lemma PrimeAbove(n: nat) returns (q: nat)
    ensures IsPrime(q) && q > n
  {
    var big := Factorial(n) + 1;
    q := LeastFactorFrom(big, 2);
    forall d | 2 <= d < q
      ensures !Divides(d, q)
    {
      if Divides(d, q) {
        DividesTransitive(d, q, big);
      }
    }
    if q <= n {
      FactorialDivisible(n, q);
      ModAddMultiple(q, Factorial(n) / q, 1);
      assert Factorial(n) == q * (Factorial(n) / q);
      DivModUnique(1, q, 0, 1);
    }
  }

  /** Every prime other than 2 is odd. */
  lemma OddPrime(q: nat)
    requires IsPrime(q) && q > 2
    ensures q % 2 == 1
  {
    assert !Divides(2, q);
  }
}
