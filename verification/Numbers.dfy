/** Modular arithmetic, greatest common divisors, primes and Fermat's little theorem:
    the mathematics the field, scalar and curve layers are proved against. */
module Numbers {

  // ---------- congruence ----------

  ghost predicate Cong(a: int, b: int, m: int)
    requires m > 0
  {
    a % m == b % m
  }

  lemma MulAtLeast(k: int, m: int)
    requires m > 0 && k > 0
    ensures k * m >= m
  {
    assert (k - 1) * m >= 0;
    assert k * m == (k - 1) * m + m;
  }

  lemma SmallMultiple(k: int, m: int)
    requires m > 0 && -m < k * m < m
    ensures k == 0
  {
    if k > 0 {
      MulAtLeast(k, m);
    } else if k < 0 {
      MulAtLeast(-k, m);
    }
  }

  /** Quotient and remainder are determined by the division equation. */
  lemma DivModUnique(a: int, m: int, q: int, r: int)
    requires m > 0 && a == q * m + r && 0 <= r < m
    ensures a / m == q && a % m == r
  {
    var q', r' := a / m, a % m;
    assert (q - q') * m == q * m - q' * m == r' - r;
    SmallMultiple(q - q', m);
  }

  /** Adding a multiple of the modulus changes nothing. */
  lemma ModShift(a: int, k: int, m: int)
    requires m > 0
    ensures (a + k * m) % m == a % m
  {
    assert a + k * m == (a / m + k) * m + a % m;
    DivModUnique(a + k * m, m, a / m + k, a % m);
  }

  /** Congruence means differing by a multiple of the modulus. */
  lemma CongQuotient(a: int, b: int, m: int) returns (k: int)
    requires m > 0 && Cong(a, b, m)
    ensures a == b + k * m
  {
    k := a / m - b / m;
    assert a == a / m * m + a % m && b == b / m * m + b % m;
    assert a / m * m - b / m * m == k * m;
  }

  lemma CongFrom(a: int, b: int, k: int, m: int)
    requires m > 0 && a == b + k * m
    ensures Cong(a, b, m)
  {
    ModShift(b, k, m);
  }

  lemma CongMod(a: int, m: int)
    requires m > 0
    ensures Cong(a % m, a, m)
  {
    CongFrom(a, a % m, a / m, m);
  }

  lemma CongAdd(a: int, a': int, b: int, b': int, m: int)
    requires m > 0 && Cong(a, a', m) && Cong(b, b', m)
    ensures Cong(a + b, a' + b', m)
  {
    var k := CongQuotient(a, a', m);
    var l := CongQuotient(b, b', m);
    assert k * m + l * m == (k + l) * m;
    CongFrom(a + b, a' + b', k + l, m);
  }

  lemma CongNeg(a: int, a': int, m: int)
    requires m > 0 && Cong(a, a', m)
    ensures Cong(-a, -a', m)
  {
    var k := CongQuotient(a, a', m);
    assert -(k * m) == (-k) * m;
    CongFrom(-a, -a', -k, m);
  }

  lemma CongSub(a: int, a': int, b: int, b': int, m: int)
    requires m > 0 && Cong(a, a', m) && Cong(b, b', m)
    ensures Cong(a - b, a' - b', m)
  {
    CongNeg(b, b', m);
    CongAdd(a, a', -b, -b', m);
  }

  lemma CongMul(a: int, a': int, b: int, b': int, m: int)
    requires m > 0 && Cong(a, a', m) && Cong(b, b', m)
    ensures Cong(a * b, a' * b', m)
  {
    var k := CongQuotient(a, a', m);
    var l := CongQuotient(b, b', m);
    calc {
      a * b;
      (a' + k * m) * (b' + l * m);
      a' * b' + a' * (l * m) + (k * m) * b' + (k * m) * (l * m);
      { assert a' * (l * m) == (a' * l) * m; assert (k * m) * b' == (k * b') * m;
        assert (k * m) * (l * m) == (k * (l * m)) * m; }
      a' * b' + (a' * l) * m + (k * b') * m + (k * (l * m)) * m;
      a' * b' + (a' * l + k * b' + k * (l * m)) * m;
    }
    CongFrom(a * b, a' * b', a' * l + k * b' + k * (l * m), m);
  }

  /** Two residues in range that are congruent are equal. */
  lemma CongCanonical(a: int, b: int, m: int)
    requires m > 0 && 0 <= a < m && 0 <= b < m && Cong(a, b, m)
    ensures a == b
  {
    DivModUnique(a, m, 0, a);
    DivModUnique(b, m, 0, b);
  }

  // ---------- greatest common divisor ----------

  ghost predicate Divides(d: int, a: int) {
    exists k :: a == k * d
  }

  /** Euclid's recursion, the reference the word-level inversion loop is compared with. */
  function Gcd(a: nat, b: nat): nat
    decreases b
  {
    if b == 0 then a else Gcd(b, a % b)
  }

  lemma DividesLinear(d: int, a: int, b: int, q: int)
    requires Divides(d, a) && Divides(d, b)
    ensures Divides(d, a + q * b)
  {
    var k :| a == k * d;
    var l :| b == l * d;
    assert q * (l * d) == (q * l) * d;
    assert a + q * b == (k + q * l) * d;
  }

  /** Gcd is a common divisor that every common divisor divides. */
  lemma {:induction false} GcdIsGreatest(a: nat, b: nat, d: int)
    ensures Divides(Gcd(a, b), a) && Divides(Gcd(a, b), b)
    ensures Divides(d, a) && Divides(d, b) ==> Divides(d, Gcd(a, b))
    decreases b
  {
    if b == 0 {
      assert a == 1 * a && b == 0 * a;
    } else {
      GcdIsGreatest(b, a % b, d);
      assert a == a % b + (a / b) * b;
      DividesLinear(Gcd(a, b), a % b, b, a / b);
      if Divides(d, a) && Divides(d, b) {
        DividesLinear(d, a, b, -(a / b));
        assert a + (-(a / b)) * b == a % b by { assert (-(a / b)) * b == -((a / b) * b); }
      }
    }
  }

  /** Bezout coefficients. */
  lemma {:induction false} Bezout(a: nat, b: nat) returns (x: int, y: int)
    ensures x * a + y * b == Gcd(a, b)
    decreases b
  {
    if b == 0 {
      x, y := 1, 0;
    } else {
      var x', y' := Bezout(b, a % b);
      x, y := y', x' - (a / b) * y';
      calc {
        x * a + y * b;
        y' * a + (x' - (a / b) * y') * b;
        y' * a + x' * b - ((a / b) * y') * b;
        { assert ((a / b) * y') * b == y' * ((a / b) * b); }
        y' * a + x' * b - y' * ((a / b) * b);
        { assert y' * a - y' * ((a / b) * b) == y' * (a - (a / b) * b); assert a - (a / b) * b == a % b; }
        x' * b + y' * (a % b);
      }
    }
  }

  // ---------- inverses ----------

  ghost predicate IsInverse(r: int, a: int, m: int)
    requires m > 0
  {
    0 <= r < m && (a * r) % m == 1 % m
  }

  lemma SwapFactors(a: int, x: int, y: int)
    ensures (a * x) * y == (a * y) * x
  {
  }

  lemma InverseUnique(r: int, r': int, a: int, m: int)
    requires m > 0 && IsInverse(r, a, m) && IsInverse(r', a, m)
    ensures r == r'
  {
    var u, v := a * r, a * r';
    SwapFactors(a, r, r');
    CrossCancel(u, v, r, r', m);
  }

  lemma CrossCancel(u: int, v: int, r: int, r': int, m: int)
    requires m > 0 && 0 <= r < m && 0 <= r' < m && Cong(u, 1, m) && Cong(v, 1, m) && v * r == u * r'
    ensures r == r'
  {
    CongMul(v, 1, r, r, m);
    CongMul(u, 1, r', r', m);
    CongCanonical(r, r', m);
  }

  lemma InverseExists(a: nat, m: nat) returns (r: int)
    requires m > 0 && Gcd(m, a) == 1
    ensures IsInverse(r, a, m)
  {
    var x, y := Bezout(m, a);
    r := y % m;
    CongMod(y, m);
    CongMul(a, a, y % m, y, m);
    CongFrom(1, a * y, x, m);
  }

  /** The inverse of a modulo m, or 0 when there is none. */
  ghost function Inverse(a: nat, m: nat): (r: nat)
    requires m > 0
    ensures Gcd(m, a) == 1 ==> IsInverse(r, a, m)
    ensures Gcd(m, a) != 1 ==> r == 0
  {
    if Gcd(m, a) == 1 then
      assert exists r: nat :: IsInverse(r, a, m) by { var r := InverseExists(a, m); assert IsInverse(r, a, m); }
      var r: nat :| IsInverse(r, a, m); r
    else 0
  }

  // ---------- primes ----------

  ghost predicate Prime(p: int) {
    p >= 2 && forall d: nat :: 1 < d < p ==> !Divides(d, p)
  }

  lemma DivisorBound(d: int, a: int)
    requires a > 0 && d >= 0 && Divides(d, a)
    ensures 1 <= d <= a
  {
    var k :| a == k * d;
    if d > a {
      SmallMultiple(k, d);
    }
  }

  lemma PrimeCoprime(p: nat, a: nat)
    requires Prime(p) && a % p != 0
    ensures Gcd(p, a) == 1
  {
    var g := Gcd(p, a);
    GcdIsGreatest(p, a, 1);
    DivisorBound(g, p);
    if g == p {
      var k :| a == k * p;
      DivModUnique(a, p, k, 0);
    }
  }

  lemma MultipleIsZero(k: int, p: int)
    requires p > 0
    ensures (k * p) % p == 0
  {
    DivModUnique(k * p, p, k, 0);
  }

  /** Euclid's lemma. */
  lemma EuclidLemma(p: nat, a: int, b: int)
    requires Prime(p) && (a * b) % p == 0
    ensures a % p == 0 || b % p == 0
  {
    if a % p != 0 {
      var a' := a % p;
      CongMod(a, p);
      assert a' % p != 0;
      PrimeCoprime(p, a');
      var r := InverseExists(a', p);
      CongMul(a', a, b, b, p);
      CongMul(a' * b, 0, r, r, p);
      CongMul(a' * r, 1, b, b, p);
      assert (a' * b) * r == (a' * r) * b;
    }
  }

  /** Cancelling a factor that is not zero modulo a prime. */
  lemma CancelLeft(p: nat, c: int, a: int, b: int)
    requires Prime(p) && c % p != 0 && Cong(c * a, c * b, p)
    ensures Cong(a, b, p)
  {
    CongSub(c * a, c * b, c * b, c * b, p);
    assert c * a - c * b == c * (a - b);
    EuclidLemma(p, c, a - b);
    CongAdd(a - b, 0, b, b, p);
  }

  // ---------- powers ----------

  function Pow(a: int, e: nat): int {
    if e == 0 then 1 else a * Pow(a, e - 1)
  }

  lemma {:induction false} PowAdd(a: int, e: nat, f: nat)
    ensures Pow(a, e + f) == Pow(a, e) * Pow(a, f)
  {
    if e == 0 {
    } else {
      PowAdd(a, e - 1, f);
      assert a * (Pow(a, e - 1) * Pow(a, f)) == (a * Pow(a, e - 1)) * Pow(a, f);
    }
  }

  lemma {:induction false} PowSquare(a: int, e: nat)
    ensures Pow(a * a, e) == Pow(a, 2 * e)
  {
    if e == 0 {
    } else {
      PowSquare(a, e - 1);
      PowAdd(a, 2, 2 * (e - 1));
      assert Pow(a, 2) == a * Pow(a, 1) && Pow(a, 1) == a * Pow(a, 0) && Pow(a, 0) == 1;
      assert Pow(a, 2) == a * a;
    }
  }

  lemma {:induction false} PowCong(a: int, b: int, e: nat, m: int)
    requires m > 0 && Cong(a, b, m)
    ensures Cong(Pow(a, e), Pow(b, e), m)
  {
    if e == 0 {
    } else {
      PowCong(a, b, e - 1, m);
      CongMul(a, b, Pow(a, e - 1), Pow(b, e - 1), m);
    }
  }

  lemma {:induction false} PowPositive(a: int, e: nat)
    requires a > 0
    ensures Pow(a, e) > 0
  {
    if e == 0 {
    } else {
      PowPositive(a, e - 1);
      assert a * Pow(a, e - 1) > 0;
    }
  }

  // ---------- Fermat's little theorem ----------

  function Binom(n: nat, k: nat): nat {
    if k == 0 then 1 else if n == 0 then 0 else Binom(n - 1, k - 1) + Binom(n - 1, k)
  }

  lemma {:induction false} BinomAbove(n: nat, k: nat)
    requires k > n
    ensures Binom(n, k) == 0
  {
    if n == 0 {
    } else {
      BinomAbove(n - 1, k - 1);
      BinomAbove(n - 1, k);
    }
  }

  lemma {:induction false} BinomDiagonal(n: nat)
    ensures Binom(n, n) == 1
  {
    if n == 0 {
    } else {
      BinomDiagonal(n - 1);
      BinomAbove(n - 1, n);
    }
  }

  lemma AbsorbAlgebra(n: int, k: int, u: int, v: int, w: int, x: int)
    requires v == x + w && k * u == (n - 1) * w && (k - 1) * v == (n - 1) * x
    ensures k * (v + u) == n * v
  {
    assert (n - 1) * v == (n - 1) * x + (n - 1) * w;
    assert k * (v + u) == (k - 1) * v + v + k * u;
  }

  lemma {:induction false} BinomAbsorb(n: nat, k: nat)
    requires n >= 1 && k >= 1
    ensures k * Binom(n, k) == n * Binom(n - 1, k - 1)
  {
    if n == 1 {
      BinomDiagonal(0);
      BinomDiagonal(1);
      if k > 1 {
        BinomAbove(1, k);
        BinomAbove(0, k - 1);
      }
    } else if k == 1 {
      BinomAbsorb(n - 1, 1);
    } else {
      BinomAbsorb(n - 1, k);
      BinomAbsorb(n - 1, k - 1);
      AbsorbAlgebra(n, k, Binom(n - 1, k), Binom(n - 1, k - 1), Binom(n - 2, k - 1), Binom(n - 2, k - 2));
    }
  }

  function BinomSum(a: int, n: nat, k: nat): int {
    Binom(n, k) * Pow(a, k) + if k == 0 then 0 else BinomSum(a, n, k - 1)
  }

  lemma PascalTerm(a: int, n: nat, k: nat)
    requires n >= 1 && k >= 1
    ensures Binom(n, k) * Pow(a, k) == a * (Binom(n - 1, k - 1) * Pow(a, k - 1)) + Binom(n - 1, k) * Pow(a, k)
  {
    var c, d, e := Binom(n - 1, k - 1), Binom(n - 1, k), Pow(a, k - 1);
    assert (c + d) * (a * e) == a * (c * e) + d * (a * e);
  }

  lemma {:induction false} BinomSumStep(a: int, n: nat, k: nat)
    requires n >= 1 && k >= 1
    ensures BinomSum(a, n, k) == BinomSum(a, n - 1, k) + a * BinomSum(a, n - 1, k - 1)
  {
    PascalTerm(a, n, k);
    var s := BinomSum(a, n - 1, k - 1);
    assert BinomSum(a, n, k) == Binom(n, k) * Pow(a, k) + BinomSum(a, n, k - 1);
    assert BinomSum(a, n - 1, k) == Binom(n - 1, k) * Pow(a, k) + s;
    if k == 1 {
      assert s == 1 * Pow(a, 0);
    } else {
      BinomSumStep(a, n, k - 1);
      Distribute(a, Binom(n - 1, k - 1) * Pow(a, k - 1), BinomSum(a, n - 1, k - 2));
    }
  }

  lemma Distribute(a: int, x: int, y: int)
    ensures a * (x + y) == a * x + a * y
  {
  }

  lemma {:induction false} BinomialTheorem(a: int, n: nat)
    ensures BinomSum(a, n, n) == Pow(1 + a, n)
  {
    if n == 0 {
    } else {
      BinomialTheorem(a, n - 1);
      BinomSumStep(a, n, n);
      BinomAbove(n - 1, n);
      var s := BinomSum(a, n - 1, n - 1);
      assert BinomSum(a, n - 1, n) == 0 * Pow(a, n) + s;
      assert s + a * s == (1 + a) * s;
    }
  }

  lemma {:induction false} BinomSumMod(a: int, p: nat, k: nat)
    requires Prime(p) && k < p
    ensures Cong(BinomSum(a, p, k), 1, p)
  {
    if k == 0 {
      assert BinomSum(a, p, 0) == 1 * Pow(a, 0);
    } else {
      BinomSumMod(a, p, k - 1);
      BinomAbsorb(p, k);
      var c := Binom(p, k);
      assert k * c == Binom(p - 1, k - 1) * p;
      MultipleIsZero(Binom(p - 1, k - 1), p);
      DivModUnique(k, p, 0, k);
      EuclidLemma(p, k, c);
      CongMul(c, 0, Pow(a, k), Pow(a, k), p);
      CongAdd(c * Pow(a, k), 0, BinomSum(a, p, k - 1), 1, p);
    }
  }

  lemma {:induction false} FermatPower(a: nat, p: nat)
    requires Prime(p)
    ensures Cong(Pow(a, p), a, p)
  {
    if a == 0 {
      assert Pow(0, p) == 0 * Pow(0, p - 1);
    } else {
      var b := a - 1;
      FermatPower(b, p);
      BinomialTheorem(b, p);
      BinomSumMod(b, p, p - 1);
      BinomDiagonal(p);
      assert BinomSum(b, p, p) == 1 * Pow(b, p) + BinomSum(b, p, p - 1);
      CongAdd(Pow(b, p), b, BinomSum(b, p, p - 1), 1, p);
    }
  }

  /** Fermat: a^(p-1) = 1 modulo a prime p that does not divide a. */
  lemma Fermat(a: nat, p: nat)
    requires Prime(p) && a % p != 0
    ensures Cong(Pow(a, p - 1), 1, p)
  {
    FermatPower(a, p);
    assert Pow(a, p) == a * Pow(a, p - 1) && a == a * 1;
    CancelLeft(p, a, Pow(a, p - 1), 1);
  }
}
