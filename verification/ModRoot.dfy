/** Square-and-multiply exponentiation and the square root for moduli p = 3 (mod 4). */
module ModRoot {
  import opened Numbers

  function Bit(e: nat, i: nat): (b: nat)
    ensures b <= 1
  {
    PowPositive(2, i);
    e / Pow(2, i) % 2
  }

  /** The bits of e not yet consumed before step i. */
  function Rest(e: nat, i: nat): nat {
    PowPositive(2, i);
    e / Pow(2, i)
  }

  lemma RestStep(e: nat, i: nat)
    ensures Rest(e, i) == 2 * Rest(e, i + 1) + Bit(e, i)
  {
    PowPositive(2, i);
    var w, q := Pow(2, i), Rest(e, i);
    var r := e % w;
    assert e == q * w + r;
    var h, b := q / 2, q % 2;
    HalveAlgebra(e, q, w, r, h, b);
    DivModUnique(e, 2 * w, h, b * w + r);
  }

  lemma HalveAlgebra(e: int, q: int, w: int, r: int, h: int, b: int)
    requires e == q * w + r && q == 2 * h + b && 0 <= r < w && 0 <= b <= 1
    ensures e == h * (2 * w) + (b * w + r) && 0 <= b * w + r < 2 * w
  {
    assert (2 * h + b) * w == h * (2 * w) + b * w;
    if b == 0 { assert b * w == 0; } else { assert b * w == w; }
  }

  lemma RestEnds(e: nat, n: nat)
    requires e < Pow(2, n)
    ensures Rest(e, n) == 0
  {
    DivModUnique(e, Pow(2, n), 0, e);
  }

  /** Consuming one bit: result * base^rest is kept modulo p. */
  lemma ExpStep(result: int, base: int, rest: nat, rest': nat, bit: nat, result': int, base': int, p: int)
    requires p > 0 && rest == 2 * rest' + bit && bit <= 1
    requires result' == (if bit != 0 then result * base % p else result)
    requires base' == base * base % p
    ensures Cong(result' * Pow(base', rest'), result * Pow(base, rest), p)
  {
    CongMod(base * base, p);
    PowCong(base', base * base, rest', p);
    PowSquare(base, rest');
    var s := Pow(base, 2 * rest');
    CongMod(result * base, p);
    if bit == 0 {
      CongMul(result', result, Pow(base', rest'), s, p);
    } else {
      CongMul(result', result * base, Pow(base', rest'), s, p);
      assert (result * base) * s == result * (base * s);
    }
  }

  /** exp: a^e modulo p, least significant bit first, for every exponent of the given width. */
  method Exp(a: nat, exponent: nat, p: nat, bits: nat) returns (result: nat)
    requires p >= 2 && exponent < Pow(2, bits)
    ensures result == Pow(a, exponent) % p
  {
    var base: nat := a;
    result := 1;
    DivModUnique(1, p, 0, 1);
    for i := 0 to bits
      invariant 0 <= result < p
      invariant Cong(result * Pow(base, Rest(exponent, i)), Pow(a, exponent), p)
    {
      RestStep(exponent, i);
      ghost var result0, base0 := result, base;
      if Bit(exponent, i) != 0 {
        result := result * base % p;
      }
      base := base * base % p;
      ExpStep(result0, base0, Rest(exponent, i), Rest(exponent, i + 1), Bit(exponent, i), result, base, p);
    }
    RestEnds(exponent, bits);
    DivModUnique(result, p, 0, result);
  }

  ghost predicate IsRoot(b: nat, a: nat, p: nat)
    requires p > 0
  {
    b * b % p == a
  }

  /** For prime p = 3 (mod 4), the power (p + 1) / 4 of a square is one of its roots. */
  lemma RootOfSquare(b: nat, a: nat, p: nat, e: nat, root: nat)
    requires Prime(p) && 4 * e == p + 1 && 0 < a < p && IsRoot(b, a, p)
    requires root == Pow(a, e) % p
    ensures IsRoot(root, a, p)
  {
    CongMod(Pow(a, e), p);
    CongMul(root, Pow(a, e), root, Pow(a, e), p);
    PowAdd(a, e, e);
    CongMod(b * b, p);
    PowCong(a, b * b, 2 * e, p);
    PowSquare(b, 2 * e);
    PowAdd(b, p - 1, 2);
    assert Pow(b, 2) == b * Pow(b, 1) && Pow(b, 1) == b * Pow(b, 0);
    NonzeroRoot(b, a, p);
    Fermat(b, p);
    CongMul(Pow(b, p - 1), 1, b * b, b * b, p);
    DivModUnique(a, p, 0, a);
  }

  lemma NonzeroRoot(b: nat, a: nat, p: nat)
    requires p > 0 && 0 < a && IsRoot(b, a, p)
    ensures b % p != 0
  {
    if b % p == 0 {
      CongMul(b, 0, b, b, p);
    }
  }

  /** What modsqrt returns: the candidate power if it squares back, otherwise 0. */
  function Sqrt(a: nat, p: nat): (root: nat)
    requires p > 0
    ensures root < p
  {
    if a == 0 then 0
    else
      var root := Pow(a, (p + 1) / 4) % p;
      if root * root % p == a then root else 0
  }

  lemma SqrtZero(p: nat)
    requires p > 0
    ensures Sqrt(0, p) == 0
  {
  }

  lemma SqrtIs(a: nat, p: nat, e: nat)
    requires p > 0 && 0 < a && e == (p + 1) / 4
    ensures var root := Pow(a, e) % p;
      if IsRoot(root, a, p) then Sqrt(a, p) == root && (root % p != 0 ==> root != 0) else Sqrt(a, p) == 0
  {
    hide Pow;
    if Pow(a, e) % p == 0 {
      DivModUnique(0, p, 0, 0);
    }
  }

  /** A genuine root whenever one exists, and 0 exactly for 0 and the non-residues. */
  lemma SqrtCorrect(a: nat, p: nat)
    requires Prime(p) && p % 4 == 3 && a < p
    ensures Sqrt(a, p) != 0 ==> IsRoot(Sqrt(a, p), a, p)
    ensures Sqrt(a, p) == 0 <==> a == 0 || !exists b: nat :: IsRoot(b, a, p)
  {
    hide Pow, Prime, IsRoot, Sqrt;
    if a != 0 {
      var e := (p + 1) / 4;
      SqrtIs(a, p, e);
      if b: nat :| IsRoot(b, a, p) {
        RootOfSquare(b, a, p, e, Pow(a, e) % p);
        NonzeroRoot(Pow(a, e) % p, a, p);
      }
    } else {
      SqrtZero(p);
    }
  }

  /** modsqrt: exponentiation by (p + 1) / 4, then the check that the candidate squares back. */
  method ModSqrt(a: nat, p: nat, bits: nat) returns (root: nat)
    requires Prime(p) && p % 4 == 3 && p < Pow(2, bits) && a < p
    ensures root == Sqrt(a, p)
    ensures root != 0 ==> IsRoot(root, a, p)
    ensures root == 0 <==> a == 0 || !exists b: nat :: IsRoot(b, a, p)
  {
    SqrtCorrect(a, p);
    if a == 0 {
      return 0;
    }
    root := Exp(a, (p + 1) / 4, p, bits);
    // the candidate of a non-residue does not square back
    if root * root % p != a {
      return 0;
    }
  }
}
