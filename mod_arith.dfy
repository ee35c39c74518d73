/**
 * Integer arithmetic as the `big-integer` library computes it: powers, `modPow`,
 * and `mod`/`remainder` (whose sign follows the dividend), with the
 * division lemmas the rest of the model is proved from.
 */
module ModArith {

  function Pow(b: nat, e: nat): (r: nat)
    ensures b > 0 ==> r > 0
  {
    if e == 0 then 1 else b * Pow(b, e - 1)
  }

  /** `b.modPow(e, m)` for a positive modulus. */
  function ModPow(b: nat, e: nat, m: nat): (r: nat)
    requires m > 0
    ensures r < m
  {
    Pow(b, e) % m
  }

  /**
   * `a.mod(m)` / `a.remainder(m)` of big-integer: division truncates toward
   * zero, so the remainder takes the sign of the dividend.
   */
  function Rem(a: int, m: nat): (r: int)
    requires m > 0
    ensures a >= 0 ==> 0 <= r < m
    ensures a < 0 ==> -(m as int) < r <= 0
    ensures (a - r) % m == 0
  {
    if a >= 0 then
      DivModUnique(a - a % m, m, a / m, 0);
      a % m
    else
      DivModUnique(a + (-a) % m, m, -((-a) / m), 0);
      -((-a) % m)
  }

  lemma DivModUnique(n: int, m: int, k: int, r: int)
    requires m > 0 && 0 <= r < m && n == m * k + r
    ensures n / m == k && n % m == r
  {
    var k', r' := n / m, n % m;
    assert m * (k - k') == r' - r;
    if k > k' {
      MulAtLeast(m, k - k');
    } else if k < k' {
      MulAtLeast(m, k' - k);
    }
  }

  lemma MulAtLeast(m: int, d: int)
    requires m > 0 && d >= 1
    ensures m * d >= m
  {
    assert m * d == m * (d - 1) + m;
  }

  /** Adding a multiple of the modulus does not change the remainder. */
  lemma ModAddMultiple(m: int, k: int, c: int)
    requires m > 0
    ensures (m * k + c) % m == c % m
  {
    assert m * k + c == m * (k + c / m) + c % m;
    DivModUnique(m * k + c, m, k + c / m, c % m);
  }

  lemma MulModLeft(a: int, b: int, m: int)
    requires m > 0
    ensures (a * b) % m == ((a % m) * b) % m
  {
    var k, r := a / m, a % m;
    assert a * b == (m * k + r) * b == m * (k * b) + r * b;
    ModAddMultiple(m, k * b, r * b);
  }

  /** Remainders may be taken of both factors before multiplying. */
  lemma MulMod(a: int, b: int, m: int)
    requires m > 0
    ensures (a * b) % m == ((a % m) * (b % m)) % m
  {
    MulModLeft(a, b, m);
    MulModLeft(b, a % m, m);
    assert b * (a % m) == (a % m) * b;
    assert (b % m) * (a % m) == (a % m) * (b % m);
  }

  /** Both operands are multiples of `d`, so is every combination of them. */
  lemma DividesLinear(d: int, u: int, v: int, k: int)
    requires d > 0 && u % d == 0 && v % d == 0
    ensures (k * u + v) % d == 0
  {
    assert u == d * (u / d);
    assert v == d * (v / d);
    assert k * u + v == d * (k * (u / d) + v / d);
    DivModUnique(k * u + v, d, k * (u / d) + v / d, 0);
  }

  lemma {:induction false} PowAdd(b: nat, e1: nat, e2: nat)
    ensures Pow(b, e1 + e2) == Pow(b, e1) * Pow(b, e2)
  {
    if e1 > 0 {
      PowAdd(b, e1 - 1, e2);
      assert Pow(b, e1 + e2) == b * Pow(b, e1 - 1 + e2);
    }
  }

  lemma {:induction false} PowMul(b: nat, e1: nat, e2: nat)
    ensures Pow(Pow(b, e1), e2) == Pow(b, e1 * e2)
  {
    if e2 > 0 {
      PowMul(b, e1, e2 - 1);
      PowAdd(b, e1, e1 * (e2 - 1));
      assert e1 + e1 * (e2 - 1) == e1 * e2;
    }
  }

  lemma {:induction false} PowOne(e: nat)
    ensures Pow(1, e) == 1
  {
    if e > 0 { PowOne(e - 1); }
  }

  /** The base may be reduced modulo `m` before exponentiating. */
  lemma {:induction false} ModPowOfMod(b: nat, e: nat, m: nat)
    requires m > 0
    ensures ModPow(b % m, e, m) == ModPow(b, e, m)
  {
    if e > 0 {
      var r, u, v := b % m, Pow(b % m, e - 1), Pow(b, e - 1);
      ModPowOfMod(b, e - 1, m);
      assert u % m == v % m;
      DivModUnique(r, m, 0, r);
      calc {
        Pow(r, e) % m;
        (r * u) % m;
        { MulMod(r, u, m); }
        ((r % m) * (u % m)) % m;
        ((r % m) * (v % m)) % m;
        { MulMod(b, v, m); }
        (b * v) % m;
        Pow(b, e) % m;
      }
    }
  }

  /** `(g^a)^b = g^(a*b)` in the group modulo `m`. */
  lemma ModPowPow(g: nat, a: nat, b: nat, m: nat)
    requires m > 0
    ensures ModPow(ModPow(g, a, m), b, m) == ModPow(g, a * b, m)
  {
    ModPowOfMod(Pow(g, a), b, m);
    PowMul(g, a, b);
  }

  /** Exponentiation turns addition of exponents into multiplication modulo `m`. */
  lemma ModPowAdd(g: nat, a: nat, b: nat, m: nat)
    requires m > 0
    ensures ModPow(g, a + b, m) == (ModPow(g, a, m) * ModPow(g, b, m)) % m
  {
    PowAdd(g, a, b);
    MulMod(Pow(g, a), Pow(g, b), m);
  }

  /** A positive power of zero is zero. */
  lemma ModPowZeroBase(e: nat, m: nat)
    requires m > 0 && e > 0
    ensures ModPow(0, e, m) == 0
  {
  }
}
