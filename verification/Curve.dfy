/** The affine group law of y^2 = x^3 + 7 over the integers modulo a prime, with exact field operations. */
module Curve {
  import opened Numbers
  import Limbs
  import ModInv
  import opened ModRoot

  // ---------- field operations on canonical residues ----------

  function FAdd(a: int, b: int, p: nat): int requires p > 0 { (a + b) % p }
  function FSub(a: int, b: int, p: nat): int requires p > 0 { (a - b) % p }
  function FMul(a: int, b: int, p: nat): int requires p > 0 { (a * b) % p }

  /** Multiplication by what the inversion loop returns. */
  ghost function FDiv(a: int, b: nat, p: nat): int requires p > 0 { FMul(a, Inverse(b, p), p) }

  lemma DivCancels(a: int, b: nat, p: nat)
    requires Prime(p) && b % p != 0
    ensures Cong(FDiv(a, b, p) * b, a, p)
  {
    PrimeCoprime(p, b);
    var inv := Inverse(b, p);
    QuotientTimes(a, b, inv, FDiv(a, b, p), p);
  }

  lemma QuotientTimes(a: int, b: int, inv: int, q: int, p: int)
    requires p > 0 && q == (a * inv) % p && Cong(b * inv, 1, p)
    ensures Cong(q * b, a, p)
  {
    var ai, bi := a * inv, b * inv;
    CongMod(ai, p);
    CongMul(q, ai, b, b, p);
    CongMul(bi, 1, a, a, p);
    assert ai * b == bi * a;
  }

  // ---------- points ----------

  /** x and y are 0 at infinity, as the default constructor leaves them. */
  datatype Point = Point(x: nat, y: nat, infinity: bool)

  const ZERO := Point(0, 0, true)

  ghost predicate Equation(x: int, y: int, p: nat)
    requires p > 0
  {
    Cong(y * y, x * x * x + 7, p)
  }

  ghost predicate OnCurve(a: Point, p: nat)
    requires p > 0
  {
    a == ZERO || (!a.infinity && a.x < p && a.y < p && Equation(a.x, a.y, p))
  }

  /** The point where the line of slope s through a meets the curve again, negated. */
  function LineThird(a: Point, x2: nat, s: int, p: nat): Point
    requires p > 0
  {
    var nx := FSub(FSub(FMul(s, s, p), a.x, p), x2, p);
    var ny := FSub(FMul(s, FSub(a.x, nx, p), p), a.y, p);
    Point(nx, ny, false)
  }

  ghost function Add(a: Point, b: Point, p: nat): Point
    requires p > 0
  {
    if a.infinity then b
    else if b.infinity then a
    else if a.x == b.x then
      if a.y != b.y then ZERO
      else if a.y == 0 then ZERO
      else LineThird(a, a.x, FDiv(FMul(FMul(a.x, a.x, p), 3, p), FMul(a.y, 2, p), p), p)
    else LineThird(a, b.x, FDiv(FSub(b.y, a.y, p), FSub(b.x, a.x, p), p), p)
  }

  function Neg(a: Point, p: nat): Point
    requires a.y <= p
  {
    if a.infinity then a else Point(a.x, if a.y == 0 then 0 else p - a.y, false)
  }

  // ---------- the line meets the cubic in three points ----------

  /** Subtracting the three known roots from the cubic leaves a linear remainder u X + v. */
  function LinearU(x1: int, x2: int, x3: int, c: int, s: int): int {
    -(2 * c * s + x1 * x2 + x1 * x3 + x2 * x3)
  }

  function LinearV(x1: int, x2: int, x3: int, c: int): int {
    7 - c * c + x1 * x2 * x3
  }

  lemma CubicExpansion(X: int, x1: int, x2: int, x3: int)
    ensures (X - x1) * (X - x2) * (X - x3)
         == X * X * X - (x1 + x2 + x3) * (X * X) + (x1 * x2 + x1 * x3 + x2 * x3) * X - x1 * x2 * x3
  {
    var a, q, l, c, d := x1 + x2, X * X, (x1 + x2) * X, x1 * x2, x1 * x3 + x2 * x3;
    TwoTerms(X, x1, x2);
    ThreeTerms(q, l, c, X, x3);
    Regrouped(a, X, q);
    Crossed(x1, x2, X, x3);
    SumTimes(a, x3, q);
    SumTimes(c, d, X);
    assert c + d == x1 * x2 + x1 * x3 + x2 * x3;
    Summed(q * X, l * X, c * X, q * x3, l * x3, c * x3, a * q, d * X);
  }

  lemma TwoTerms(X: int, x1: int, x2: int)
    ensures (X - x1) * (X - x2) == X * X - (x1 + x2) * X + x1 * x2
  {
  }

  lemma ThreeTerms(q: int, l: int, c: int, x: int, y: int)
    ensures (q - l + c) * (x - y) == q * x - l * x + c * x - q * y + l * y - c * y
  {
  }

  lemma Regrouped(a: int, X: int, q: int)
    requires q == X * X
    ensures a * X * X == a * q
  {
  }

  lemma Crossed(x1: int, x2: int, X: int, x3: int)
    ensures (x1 + x2) * X * x3 == (x1 * x3 + x2 * x3) * X
  {
  }

  lemma SumTimes(a: int, b: int, w: int)
    ensures (a + b) * w == a * w + w * b && (a + b) * w == a * w + b * w
  {
  }

  lemma Summed(qx: int, lx: int, cx: int, qy: int, ly: int, cy: int, aq: int, dx: int)
    requires lx == aq && ly == dx
    ensures qx - lx + cx - qy + ly - cy == qx - (aq + qy) + (cx + dx) - cy
  {
  }

  lemma LineSquare(X: int, c: int, s: int)
    ensures (c + s * X) * (c + s * X) == c * c + (2 * c * s) * X + (s * s) * (X * X)
  {
  }

  lemma LineCubic(X: int, x1: int, x2: int, x3: int, c: int, s: int)
    requires x3 == s * s - x1 - x2
    ensures X * X * X + 7 - (c + s * X) * (c + s * X)
         == (X - x1) * (X - x2) * (X - x3) + LinearU(x1, x2, x3, c, s) * X + LinearV(x1, x2, x3, c)
  {
    CubicExpansion(X, x1, x2, x3);
    LineSquare(X, c, s);
    var u, q, ss, cs, l := x1 * x2 + x1 * x3 + x2 * x3, X * X, s * s, 2 * c * s, (c + s * X) * (c + s * X);
    assert ss * q == (x1 + x2 + x3) * q;
    assert LinearU(x1, x2, x3, c, s) * X == -(cs * X) - u * X by {
      assert LinearU(x1, x2, x3, c, s) == -(cs + u);
    }
  }

  /** Congruence to 0 of a linear form at two points forces both coefficients to 0. */
  lemma TwoZeros(p: nat, u: int, v: int, x1: int, x2: int)
    requires Prime(p) && (x2 - x1) % p != 0
    requires Cong(u * x1 + v, 0, p) && Cong(u * x2 + v, 0, p)
    ensures Cong(u, 0, p) && Cong(v, 0, p)
  {
    CongSub(u * x2 + v, 0, u * x1 + v, 0, p);
    assert (u * x2 + v) - (u * x1 + v) == u * (x2 - x1);
    EuclidLemma(p, u, x2 - x1);
    CongMul(u, 0, x1, x1, p);
    CongSub(u * x1 + v, 0, u * x1, 0, p);
  }

  /** On the line c + s X through (x1, y1), the cubic's value at x1 is y1^2. */
  lemma RootOnLine(x1: int, y1: int, c: int, s: int, p: nat)
    requires p > 0 && Equation(x1, y1, p) && Cong(c + s * x1, y1, p)
    ensures Cong(x1 * x1 * x1 + 7 - (c + s * x1) * (c + s * x1), 0, p)
  {
    var l := c + s * x1;
    CongMul(l, y1, l, y1, p);
    CongSub(x1 * x1 * x1 + 7, y1 * y1, l * l, y1 * y1, p);
  }

  lemma ZeroProduct(a: int, b: int, c: int)
    requires a == 0 || b == 0 || c == 0
    ensures a * b * c == 0
  {
  }

  /** A root of the cubic minus the line that is one of x1, x2, x3 kills the linear remainder. */
  lemma RemainderAtRoot(X: int, x1: int, x2: int, x3: int, c: int, s: int, p: nat)
    requires p > 0 && x3 == s * s - x1 - x2 && (X == x1 || X == x2)
    requires Cong(X * X * X + 7 - (c + s * X) * (c + s * X), 0, p)
    ensures Cong(LinearU(x1, x2, x3, c, s) * X + LinearV(x1, x2, x3, c), 0, p)
  {
    LineCubic(X, x1, x2, x3, c, s);
    ZeroProduct(X - x1, X - x2, X - x3);
  }

  /** If the linear remainder vanishes, the third root satisfies the equation with the line's ordinate. */
  lemma ThirdOnCurve(x1: int, x2: int, x3: int, c: int, s: int, p: nat)
    requires p > 0 && x3 == s * s - x1 - x2
    requires Cong(LinearU(x1, x2, x3, c, s), 0, p) && Cong(LinearV(x1, x2, x3, c), 0, p)
    ensures Equation(x3, -(c + s * x3), p)
  {
    var u, v, l := LinearU(x1, x2, x3, c, s), LinearV(x1, x2, x3, c), c + s * x3;
    LineCubic(x3, x1, x2, x3, c, s);
    ZeroProduct(x3 - x1, x3 - x2, x3 - x3);
    CongMul(u, 0, x3, x3, p);
    CongAdd(u * x3, 0, v, 0, p);
    var f := x3 * x3 * x3 + 7;
    assert f - l * l == u * x3 + v;
    CongAdd(f - l * l, 0, l * l, l * l, p);
    assert -l * -l == l * l;
  }

  /** The reduced coordinates LineThird computes are those of the exact third point. */
  lemma ThirdReduced(a: Point, x2: nat, s: int, p: nat)
    requires p > 0
    ensures var x3 := s * s - a.x - x2;
            var r := LineThird(a, x2, s, p);
            r.x < p && r.y < p && Cong(r.x, x3, p) && Cong(r.y, s * (a.x - x3) - a.y, p)
  {
    var r, x3 := LineThird(a, x2, s, p), s * s - a.x - x2;
    CongMod(s * s, p);
    CongSub(s * s % p, s * s, a.x, a.x, p);
    CongMod(s * s % p - a.x, p);
    CongSub((s * s % p - a.x) % p, s * s - a.x, x2, x2, p);
    CongMod((s * s % p - a.x) % p - x2, p);
    assert Cong(r.x, x3, p);
    var d := FSub(a.x, r.x, p);
    CongMod(a.x - r.x, p);
    CongSub(a.x, a.x, r.x, x3, p);
    CongMul(s, s, d, a.x - x3, p);
    CongMod(s * d, p);
    CongSub(s * d % p, s * (a.x - x3), a.y, a.y, p);
    CongMod(s * d % p - a.y, p);
  }

  lemma EquationCong(x: int, x': int, y: int, y': int, p: nat)
    requires p > 0 && Cong(x, x', p) && Cong(y, y', p) && Equation(x', y', p)
    ensures Equation(x, y, p)
  {
    CongMul(x, x', x, x', p);
    CongMul(x * x, x' * x', x, x', p);
    CongAdd(x * x * x, x' * x' * x', 7, 7, p);
    CongMul(y, y', y, y', p);
  }

  /** LineThird lands on the curve once the linear remainder vanishes. */
  lemma LineThirdOnCurve(a: Point, x2: nat, s: int, p: nat)
    requires p > 0
    requires var x3 := s * s - a.x - x2; var c := a.y - s * a.x;
             Cong(LinearU(a.x, x2, x3, c, s), 0, p) && Cong(LinearV(a.x, x2, x3, c), 0, p)
    ensures OnCurve(LineThird(a, x2, s, p), p)
  {
    var x3, c, r := s * s - a.x - x2, a.y - s * a.x, LineThird(a, x2, s, p);
    ThirdOnCurve(a.x, x2, x3, c, s, p);
    ThirdReduced(a, x2, s, p);
    assert s * (a.x - x3) - a.y == -(c + s * x3) by {
      assert s * (a.x - x3) == s * a.x - s * x3;
    }
    EquationCong(r.x, x3, r.y, -(c + s * x3), p);
  }

  lemma ChordOnCurve(a: Point, b: Point, p: nat)
    requires Prime(p) && OnCurve(a, p) && OnCurve(b, p) && !a.infinity && !b.infinity && a.x != b.x
    ensures OnCurve(Add(a, b, p), p)
  {
    var dx, dy := FSub(b.x, a.x, p), FSub(b.y, a.y, p);
    var s := FDiv(dy, dx, p);
    ChordSlope(a.x, a.y, b.x, b.y, p);
    var c, x3 := a.y - s * a.x, s * s - a.x - b.x;
    RootOnLine(a.x, a.y, c, s, p);
    RootOnLine(b.x, b.y, c, s, p);
    RemainderAtRoot(a.x, a.x, b.x, x3, c, s, p);
    RemainderAtRoot(b.x, a.x, b.x, x3, c, s, p);
    TwoZeros(p, LinearU(a.x, b.x, x3, c, s), LinearV(a.x, b.x, x3, c), a.x, b.x);
    LineThirdOnCurve(a, b.x, s, p);
  }

  /** The chord's slope takes the line through the second point. */
  lemma ChordSlope(x1: nat, y1: nat, x2: nat, y2: nat, p: nat)
    requires Prime(p) && x1 < p && x2 < p && x1 != x2
    ensures (x2 - x1) % p != 0
    ensures var s := FDiv(FSub(y2, y1, p), FSub(x2, x1, p), p);
            Cong(y1 - s * x1 + s * x2, y2, p)
  {
    var dx, dy := FSub(x2, x1, p), FSub(y2, y1, p);
    if (x2 - x1) % p == 0 {
      CongAdd(x2 - x1, 0, x1, x1, p);
      CongCanonical(x2, x1, p);
    }
    CongMod(x2 - x1, p);
    CongMod(y2 - y1, p);
    var s := FDiv(dy, dx, p);
    DivCancels(dy, dx, p);
    CongMul(s, s, dx, x2 - x1, p);
    CongAdd(s * (x2 - x1), y2 - y1, y1, y1, p);
    assert s * (x2 - x1) == s * x2 - s * x1;
  }

  lemma TangentOnCurve(a: Point, p: nat)
    requires Prime(p) && p > 2 && OnCurve(a, p) && !a.infinity && a.y != 0
    ensures OnCurve(Add(a, a, p), p)
  {
    var s := FDiv(FMul(FMul(a.x, a.x, p), 3, p), FMul(a.y, 2, p), p);
    TangentSlope(a.x, a.y, p);
    var c, x3 := a.y - s * a.x, s * s - a.x - a.x;
    TangentRemainder(a.x, a.y, s, p);
    RootOnLine(a.x, a.y, c, s, p);
    RemainderAtRoot(a.x, a.x, a.x, x3, c, s, p);
    var u, v := LinearU(a.x, a.x, x3, c, s), LinearV(a.x, a.x, x3, c);
    CongMul(u, 0, a.x, a.x, p);
    CongSub(u * a.x + v, 0, u * a.x, 0, p);
    LineThirdOnCurve(a, a.x, s, p);
  }

  /** The tangent's slope satisfies 2 y s = 3 x^2. */
  lemma TangentSlope(x: nat, y: nat, p: nat)
    requires Prime(p) && p > 2 && 0 < y < p
    ensures var s := FDiv(FMul(FMul(x, x, p), 3, p), FMul(y, 2, p), p);
            Cong(s * (2 * y), 3 * (x * x), p)
  {
    var num, den := FMul(FMul(x, x, p), 3, p), FMul(y, 2, p);
    CongMod(x * x, p);
    CongMul(x * x % p, x * x, 3, 3, p);
    CongMod(x * x % p * 3, p);
    CongMod(y * 2, p);
    if den % p == 0 {
      EuclidLemma(p, y, 2);
      DivModUnique(y, p, 0, y);
      DivModUnique(2, p, 0, 2);
    }
    var s := FDiv(num, den, p);
    DivCancels(num, den, p);
    CongMul(s, s, den, y * 2, p);
  }

  lemma TangentIdentity(x: int, y: int, s: int, x3: int, c: int)
    requires x3 == s * s - x - x && c == y - s * x
    ensures 2 * c * s == s * (2 * y) - 2 * (x * (s * s))
    ensures x * x3 == x * (s * s) - 2 * (x * x)
  {
    assert c * s == y * s - (s * x) * s;
    assert (s * x) * s == x * (s * s);
    assert 2 * c * s == 2 * (c * s) && s * (2 * y) == 2 * (y * s);
    assert x * x3 == x * (s * s) - x * x - x * x;
  }

  /** With a double root the linear coefficient is 3 x^2 - 2 y s. */
  lemma TangentRemainder(x: int, y: int, s: int, p: nat)
    requires p > 0 && Cong(s * (2 * y), 3 * (x * x), p)
    ensures Cong(LinearU(x, x, s * s - x - x, y - s * x, s), 0, p)
  {
    TangentIdentity(x, y, s, s * s - x - x, y - s * x);
    var t, q := s * (2 * y), 3 * (x * x);
    CongSub(q, q, t, q, p);
  }

  /** Curve closure: adding points of the curve gives a point of the curve or infinity. */
  lemma AddOnCurve(a: Point, b: Point, p: nat)
    requires Prime(p) && p > 2 && OnCurve(a, p) && OnCurve(b, p)
    ensures OnCurve(Add(a, b, p), p)
  {
    if !a.infinity && !b.infinity {
      if a.x != b.x {
        ChordOnCurve(a, b, p);
      } else if a.y == b.y && a.y != 0 {
        TangentOnCurve(a, p);
      }
    }
  }

  // ---------- commutativity and negatives ----------

  lemma SlopeUnique(s: int, s': int, dx: int, dx': int, dy: int, dy': int, p: nat)
    requires Prime(p) && 0 <= s < p && 0 <= s' < p && dx % p != 0
    requires Cong(dx', -dx, p) && Cong(dy', -dy, p)
    requires Cong(s * dx, dy, p) && Cong(s' * dx', dy', p)
    ensures s == s'
  {
    CongMul(s', s', dx', -dx, p);
    CongNeg(s' * -dx, dy', p);
    CongNeg(dy', -dy, p);
    assert -(s' * -dx) == dx * s' && s * dx == dx * s;
    CancelLeft(p, dx, s, s');
    CongCanonical(s, s', p);
  }

  lemma ChordSlopeSymmetric(x1: nat, y1: nat, x2: nat, y2: nat, p: nat)
    requires Prime(p) && x1 < p && x2 < p && x1 != x2
    ensures FDiv(FSub(y2, y1, p), FSub(x2, x1, p), p) == FDiv(FSub(y1, y2, p), FSub(x1, x2, p), p)
  {
    var s, s' := FDiv(FSub(y2, y1, p), FSub(x2, x1, p), p), FDiv(FSub(y1, y2, p), FSub(x1, x2, p), p);
    ChordSlope(x1, y1, x2, y2, p);
    ChordSlope(x2, y2, x1, y1, p);
    CongSub(y1 - s * x1 + s * x2, y2, y1, y1, p);
    assert (y1 - s * x1 + s * x2) - y1 == s * (x2 - x1);
    CongSub(y2 - s' * x2 + s' * x1, y1, y2, y2, p);
    assert (y2 - s' * x2 + s' * x1) - y2 == s' * (x1 - x2);
    SlopeUnique(s, s', x2 - x1, x1 - x2, y2 - y1, y1 - y2, p);
  }

  /** The line through both points gives the same ordinate from either of them. */
  lemma OrdinateSymmetric(x1: int, y1: int, x2: int, y2: int, s: int, x3: int, p: nat)
    requires p > 0 && Cong(y1 - s * x1 + s * x2, y2, p)
    ensures Cong(s * (x1 - x3) - y1, s * (x2 - x3) - y2, p)
  {
    var l := y1 - s * x1 + s * x2;
    var t := s * (x2 - x3);
    assert s * (x1 - x3) - y1 == t - l by {
      assert t == s * x2 - s * x3 && s * (x1 - x3) == s * x1 - s * x3;
    }
    CongSub(t, t, l, y2, p);
  }

  lemma AddCommutes(a: Point, b: Point, p: nat)
    requires Prime(p) && OnCurve(a, p) && OnCurve(b, p)
    ensures Add(a, b, p) == Add(b, a, p)
  {
    if !a.infinity && !b.infinity && a.x != b.x {
      var s := FDiv(FSub(b.y, a.y, p), FSub(b.x, a.x, p), p);
      ChordSlopeSymmetric(a.x, a.y, b.x, b.y, p);
      ThirdReduced(a, b.x, s, p);
      ThirdReduced(b, a.x, s, p);
      var q, r, x3 := LineThird(a, b.x, s, p), LineThird(b, a.x, s, p), s * s - a.x - b.x;
      CongCanonical(q.x, r.x, p);
      ChordSlope(a.x, a.y, b.x, b.y, p);
      OrdinateSymmetric(a.x, a.y, b.x, b.y, s, x3, p);
      CongCanonical(q.y, r.y, p);
    }
  }

  lemma NegOnCurve(a: Point, p: nat)
    requires p > 0 && OnCurve(a, p)
    ensures OnCurve(Neg(a, p), p) && Neg(Neg(a, p), p) == a
  {
    if !a.infinity && a.y != 0 {
      var y := 0 - a.y;
      CongFrom(p - a.y, y, 1, p);
      assert y * y == a.y * a.y;
      EquationCong(a.x, a.x, p - a.y, y, p);
    }
  }

  lemma EvenDivides(p: int)
    requires p % 2 == 0
    ensures Divides(2, p)
  {
    assert p == p / 2 * 2;
  }

  lemma OddPrime(p: nat)
    requires Prime(p) && p > 2
    ensures p % 2 == 1
  {
    if p % 2 == 0 {
      EvenDivides(p);
    }
  }

  lemma AddNeg(a: Point, p: nat)
    requires Prime(p) && p > 2 && OnCurve(a, p)
    ensures Add(a, Neg(a, p), p) == ZERO && Add(Neg(a, p), a, p) == ZERO
  {
    hide Prime, Equation, FDiv, LineThird;
    NegOnCurve(a, p);
    OddPrime(p);
    assert p - a.y != a.y || a.infinity;
  }

  // ---------- the group law in terms of lines ----------

  /** (r.x, -r.y) is the third intersection of the line of slope s through a with the curve, the second being at x2. */
  ghost predicate ThirdOfLine(r: Point, a: Point, x2: nat, s: int, p: nat)
    requires p > 0
  {
    !r.infinity && Cong(a.y + s * (r.x - a.x), 0 - r.y, p) && Cong(a.x + x2 + r.x, s * s, p)
  }

  lemma ThirdIsThird(a: Point, x2: nat, s: int, p: nat)
    requires p > 0
    ensures ThirdOfLine(LineThird(a, x2, s, p), a, x2, s, p)
  {
    var r, x3 := LineThird(a, x2, s, p), s * s - a.x - x2;
    ThirdReduced(a, x2, s, p);
    CongNeg(r.y, s * (a.x - x3) - a.y, p);
    CongSub(r.x, x3, a.x, a.x, p);
    CongMul(s, s, r.x - a.x, x3 - a.x, p);
    CongAdd(a.y, a.y, s * (r.x - a.x), s * (x3 - a.x), p);
    assert a.y + s * (x3 - a.x) == -(s * (a.x - x3) - a.y) by {
      assert s * (x3 - a.x) == -(s * (a.x - x3));
    }
    CongAdd(r.x, x3, a.x + x2, a.x + x2, p);
  }

  /** Points with different abscissas: the mirrored third point of the chord. */
  lemma ChordLaw(a: Point, b: Point, p: nat) returns (s: int)
    requires Prime(p) && OnCurve(a, p) && OnCurve(b, p) && !a.infinity && !b.infinity && a.x != b.x
    ensures Cong(s * (b.x - a.x), b.y - a.y, p) && ThirdOfLine(Add(a, b, p), a, b.x, s, p)
  {
    s := FDiv(FSub(b.y, a.y, p), FSub(b.x, a.x, p), p);
    ChordSlope(a.x, a.y, b.x, b.y, p);
    CongSub(a.y - s * a.x + s * b.x, b.y, a.y, a.y, p);
    assert (a.y - s * a.x + s * b.x) - a.y == s * (b.x - a.x);
    ThirdIsThird(a, b.x, s, p);
  }

  /** A point added to itself: the mirrored third point of the tangent. */
  lemma TangentLaw(a: Point, p: nat) returns (s: int)
    requires Prime(p) && p > 2 && OnCurve(a, p) && !a.infinity && a.y != 0
    ensures Cong(s * (2 * a.y), 3 * (a.x * a.x), p) && ThirdOfLine(Add(a, a, p), a, a.x, s, p)
  {
    s := FDiv(FMul(FMul(a.x, a.x, p), 3, p), FMul(a.y, 2, p), p);
    TangentSlope(a.x, a.y, p);
    ThirdIsThird(a, a.x, s, p);
  }

  lemma NegateResidue(x: nat, q: nat)
    requires 0 < x < q
    ensures Cong(q - x, 0 - x, q)
  {
    CongFrom(q - x, 0 - x, 1, q);
  }

  lemma SquareRoots(y: nat, r: nat, p: nat)
    requires Prime(p) && y < p && r < p && Cong(r * r, y * y, p)
    ensures r == y || r == p - y
  {
    CongSub(r * r, y * y, y * y, y * y, p);
    assert (r - y) * (r + y) == r * r - y * y;
    EuclidLemma(p, r - y, r + y);
    if (r - y) % p == 0 {
      CongAdd(r - y, 0, y, y, p);
      CongCanonical(r, y, p);
    } else if y > 0 {
      CongSub(r + y, 0, y, y, p);
      NegateResidue(y, p);
      CongCanonical(r, p - y, p);
    } else {
      CongCanonical(r, 0, p);
    }
  }

  /** Points with the same abscissa are equal or opposite. */
  lemma SameAbscissa(a: Point, b: Point, p: nat)
    requires Prime(p) && OnCurve(a, p) && OnCurve(b, p) && !a.infinity && !b.infinity && a.x == b.x
    ensures a == b || a == Neg(b, p)
  {
    SquareRoots(b.y, a.y, p);
  }

  /** Infinity is neutral, and the sum is infinity exactly for opposite points. */
  lemma ZeroLaw(a: Point, b: Point, p: nat)
    requires Prime(p) && p > 2 && OnCurve(a, p) && OnCurve(b, p)
    ensures Add(a, ZERO, p) == a && Add(ZERO, a, p) == a
    ensures Add(a, b, p) == ZERO <==> b == Neg(a, p)
  {
    AddNeg(a, p);
    NegOnCurve(a, p);
    if !a.infinity && !b.infinity && a.x == b.x && a.y != b.y {
      SameAbscissa(b, a, p);
    }
  }

  // ---------- repeated addition ----------

  /** The hypothesis about the curve group that the code relies on. */
  ghost predicate Associative(p: nat)
    requires p > 0
  {
    forall a: Point, b: Point, c: Point :: OnCurve(a, p) && OnCurve(b, p) && OnCurve(c, p) ==>
      Add(Add(a, b, p), c, p) == Add(a, Add(b, c, p), p)
  }

  ghost function Times(k: nat, a: Point, p: nat): Point
    requires p > 0
  {
    if k == 0 then ZERO else Add(Times(k - 1, a, p), a, p)
  }

  /** Every scalar multiple stays on the curve. */
  lemma {:induction false} TimesOnCurve(k: nat, a: Point, p: nat)
    requires Prime(p) && p > 2 && OnCurve(a, p)
    ensures OnCurve(Times(k, a, p), p)
  {
    if k == 0 {
    } else {
      TimesOnCurve(k - 1, a, p);
      AddOnCurve(Times(k - 1, a, p), a, p);
    }
  }

  lemma AddZero(a: Point, p: nat)
    requires p > 0
    ensures Add(a, ZERO, p) == (if a.infinity then ZERO else a)
  {
  }

  lemma Reassociate(a: Point, b: Point, c: Point, p: nat)
    requires p > 0 && Associative(p) && OnCurve(a, p) && OnCurve(b, p) && OnCurve(c, p)
    ensures Add(Add(a, b, p), c, p) == Add(a, Add(b, c, p), p)
  {
    hide Add, OnCurve;
  }

  lemma {:induction false} TimesAdd(j: nat, k: nat, a: Point, p: nat)
    requires Prime(p) && p > 2 && Associative(p) && OnCurve(a, p)
    ensures Times(j + k, a, p) == Add(Times(j, a, p), Times(k, a, p), p)
  {
    hide Add, OnCurve, Prime, Associative;
    TimesOnCurve(j, a, p);
    if k == 0 {
      AddZero(Times(j, a, p), p);
    } else {
      TimesAdd(j, k - 1, a, p);
      TimesOnCurve(k - 1, a, p);
      Reassociate(Times(j, a, p), Times(k - 1, a, p), a, p);
    }
  }

  lemma PeelFactor(j: nat, k: nat, m: nat)
    requires j > 0 && m == j * k
    ensures m - k >= 0 && m - k == (j - 1) * k
  {
    Limbs.MulNonNegative(j - 1, k);
  }

  lemma {:induction false} TimesMul(j: nat, k: nat, m: nat, a: Point, p: nat)
    requires Prime(p) && p > 2 && Associative(p) && OnCurve(a, p)
    requires m == j * k
    ensures Times(m, a, p) == Times(j, Times(k, a, p), p)
  {
    hide Add, OnCurve, Prime, Associative;
    if j == 0 {
      assert m == 0;
    } else {
      PeelFactor(j, k, m);
      var n: nat, b := m - k, Times(k, a, p);
      TimesMul(j - 1, k, n, a, p);
      TimesAdd(n, k, a, p);
      assert Times(j, b, p) == Add(Times(j - 1, b, p), b, p);
    }
  }

  // ---------- the code's group operations ----------

  /** Division as the field class does it: multiply by the inverse found by the Euclidean loop. */
  method Divide(a: nat, b: nat, p: nat, n: nat) returns (q: nat)
    requires n >= 1 && 2 <= p < Limbs.Weight(n) && b < p
    ensures q == FDiv(a, b, p)
  {
    var inv := ModInv.Invert(b, p, n);
    if Gcd(p, b) == 1 {
      InverseUnique(inv, Inverse(b, p), b, p);
    }
    q := FMul(a, inv, p);
  }

  /** Group operator+. */
  method AddPoints(a: Point, b: Point, p: nat, n: nat) returns (r: Point)
    requires n >= 1 && 2 <= p < Limbs.Weight(n)
    ensures r == Add(a, b, p)
  {
    if a.infinity { return b; }
    if b.infinity { return a; }
    if a.x == b.x {
      if a.y != b.y { return ZERO; }
      if a.y == 0 { return ZERO; }
      var s := Divide(FMul(FMul(a.x, a.x, p), 3, p), FMul(a.y, 2, p), p, n);
      return LineThird(a, a.x, s, p);
    }
    var s := Divide(FSub(b.y, a.y, p), FSub(b.x, a.x, p), p, n);
    return LineThird(a, b.x, s, p);
  }

  /** Group operator*: most significant bit first double-and-add is the k-fold sum. */
  method ScalarMul(a: Point, scalar: nat, p: nat, n: nat) returns (result: Point)
    requires n >= 1 && Prime(p) && 2 < p < Limbs.Weight(n) && scalar < Pow(2, 256)
    requires Associative(p) && OnCurve(a, p)
    ensures result == Times(scalar, a, p)
  {
    hide Add, OnCurve, Associative, Prime;
    result := ZERO;
    var addend := a;
    RestEnds(scalar, 256);
    for i := 256 downto 0
      invariant result == Times(Rest(scalar, i), a, p)
    {
      RestStep(scalar, i);
      TimesAdd(Rest(scalar, i + 1), Rest(scalar, i + 1), a, p);
      result := AddPoints(result, result, p, n);
      if Bit(scalar, i) == 1 {
        result := AddPoints(result, addend, p, n);
      }
    }
    assert Pow(2, 0) == 1;
  }
}
