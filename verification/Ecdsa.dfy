/** ECDSA signing and public-key recovery over a prime-order subgroup of the curve. */
module Ecdsa {
  import opened Numbers
  import opened Limbs
  import opened ModRoot
  import opened Curve
  import opened Options
  import ModInv
  import FieldMul

  datatype Signature = Signature(r: nat, s: nat, v: nat)

  /** The standing hypotheses: prime field and order, an associative group, a generator of that order. */
  ghost predicate Setting(p: nat, q: nat, g: Point) {
    && Prime(p) && p % 4 == 3 && Prime(q) && 2 < q < p < Pow(2, 256)
    && Associative(p)
    && OnCurve(g, p) && !g.infinity && g.x % q != 0
    && Times(q, g, p) == ZERO
  }

  const CURVE_N: nat := 0xFFFFFFFFFFFFFFFFFFFFFFFFFFFFFFFEBAAEDCE6AF48A03BBFD25E8CD0364141
  const GENERATOR := Point(0x79BE667EF9DCBBAC55A06295CE870B07029BFCDB2DCE28D959F2815B16F81798,
                           0x483ADA7726A3C4655DA4FBFC0E1108A8FD17B448A68554199C47D08FFB10D4B8, false)

  /** The source's constants meet every clause of Setting that is a computation; primality, associativity
      and the order of the generator stay hypotheses. */
  lemma CurveConstants()
    ensures 10 < CURVE_N < FieldMul.P < Pow(2, 256) && FieldMul.P < 2 * CURVE_N && FieldMul.P % 4 == 3
    ensures OnCurve(GENERATOR, FieldMul.P) && GENERATOR.x % CURVE_N != 0
  {
    TwoTo256();
    FieldMul.FoldConstant();
    CongFrom(GENERATOR.y * GENERATOR.y, GENERATOR.x * GENERATOR.x * GENERATOR.x + 7,
      -(0x1b888e01a06e974017a28a5b4da436169761c9730b7aeedf75fc60f6a33cfc77
        * 0x10000000000000000000000000000000000000000000000000000000000000000
        + 0x92fe74711f025d590b10e57f1b3a7ce38ffc4c885c515894b45c19c9f413e5e9),
      FieldMul.P);
  }

  // ---------- multiples of the generator, by exponent ----------

  lemma MultipleOnCurve(k: nat, p: nat, q: nat, g: Point)
    requires Setting(p, q, g)
    ensures OnCurve(Times(k, g, p), p)
  {
    TimesOnCurve(k, g, p);
  }

  lemma MultipleAdd(j: nat, k: nat, p: nat, q: nat, g: Point)
    requires Setting(p, q, g)
    ensures Add(Times(j, g, p), Times(k, g, p), p) == Times(j + k, g, p)
  {
    TimesAdd(j, k, g, p);
  }

  lemma MultipleTimes(j: nat, k: nat, m: nat, p: nat, q: nat, g: Point)
    requires Setting(p, q, g) && m == j * k
    ensures Times(j, Times(k, g, p), p) == Times(m, g, p)
  {
    TimesMul(j, k, m, g, p);
  }

  lemma {:induction false} ZeroTimes(j: nat, p: nat)
    requires p > 0
    ensures Times(j, ZERO, p) == ZERO
  {
    if j > 0 {
      ZeroTimes(j - 1, p);
    }
  }

  lemma MultipleOfOrder(k: nat, p: nat, q: nat, g: Point)
    requires Setting(p, q, g) && k % q == 0
    ensures Times(k, g, p) == ZERO
  {
    hide Add, OnCurve, Associative, Prime, Times;
    MultipleTimes(k / q, q, k, p, q, g);
    ZeroTimes(k / q, p);
  }

  lemma SplitResidue(k: nat, q: nat) returns (r: nat, f: nat)
    requires q > 0
    ensures r == k % q && k == r + f && f % q == 0
  {
    r := k % q;
    MulNonNegative(k / q, q);
    f := k / q * q;
    MultipleIsZero(k / q, q);
  }

  /** Multiples depend only on the exponent modulo the order. */
  lemma MultipleMod(k: nat, p: nat, q: nat, g: Point)
    requires Setting(p, q, g)
    ensures Times(k, g, p) == Times(k % q, g, p)
  {
    hide Add, Associative, OnCurve, Prime, Times;
    var r, f := SplitResidue(k, q);
    MultipleOfOrder(f, p, q, g);
    MultipleAdd(f, r, p, q, g);
    ZeroAdd(Times(r, g, p), p);
  }

  lemma ZeroAdd(a: Point, p: nat)
    requires p > 0
    ensures Add(ZERO, a, p) == a
  {
  }

  lemma MultipleCong(j: nat, k: nat, p: nat, q: nat, g: Point)
    requires Setting(p, q, g) && Cong(j, k, q)
    ensures Times(j, g, p) == Times(k, g, p)
  {
    MultipleMod(j, p, q, g);
    MultipleMod(k, p, q, g);
  }

  /** Only multiples of the order vanish. */
  lemma MultipleVanishes(k: nat, p: nat, q: nat, g: Point)
    requires Setting(p, q, g)
    ensures Times(k, g, p) == ZERO <==> k % q == 0
  {
    if k % q == 0 {
      MultipleOfOrder(k, p, q, g);
    } else {
      PrimeCoprime(q, k);
      var inv: nat := Inverse(k, q);
      MulNonNegative(inv, k);
      MultipleTimes(inv, k, inv * k, p, q, g);
      ZeroTimes(inv, p);
      MultipleCong(inv * k, 1, p, q, g);
      assert Times(1, g, p) == Add(Times(0, g, p), g, p) == g;
    }
  }

  /** In the group, right inverses are negatives. */
  lemma NegUnique(a: Point, b: Point, p: nat)
    requires Prime(p) && p > 2 && Associative(p) && OnCurve(a, p) && OnCurve(b, p)
    requires Add(a, b, p) == ZERO
    ensures b == Neg(a, p)
  {
    NegOnCurve(a, p);
    AddNeg(a, p);
    assert Add(Add(Neg(a, p), a, p), b, p) == Add(Neg(a, p), Add(a, b, p), p);
  }

  lemma MultipleNeg(j: nat, k: nat, p: nat, q: nat, g: Point)
    requires Setting(p, q, g) && Cong(j + k, 0, q)
    ensures Neg(Times(j, g, p), p) == Times(k, g, p)
  {
    hide Add, Associative, Prime, Times;
    MultipleOnCurve(j, p, q, g);
    MultipleOnCurve(k, p, q, g);
    MultipleAdd(j, k, p, q, g);
    MultipleOfOrder(j + k, p, q, g);
    NegUnique(Times(j, g, p), Times(k, g, p), p);
  }

  // ---------- the code ----------

  /** The point rebuilt from r and the recovery id; the ordinate kept is the one of parity 1 - v. */
  function RecoveredPoint(r: nat, v: nat, p: nat): Option<Point>
    requires p > 0
  {
    var rx := if r >= p then r - p else r;
    if rx >= p then None
    else
      var ry := Sqrt(FAdd(FMul(FMul(rx, rx, p), rx, p), 7, p), p);
      if ry == 0 then None
      else Some(Point(rx, if ry % 2 == v then p - ry else ry, false))
  }

  ghost function Recover(sig: Signature, hash: nat, p: nat, q: nat, g: Point): Option<Point>
    requires Setting(p, q, g)
  {
    match RecoveredPoint(sig.r, sig.v, p)
    case None => None
    case Some(R) =>
      var rInv := Inverse(sig.r % q, q);
      if rInv == 0 then None
      else
        var zG := Times(q - hash % q, g, p);
        MultipleOnCurve(q - hash % q, p, q, g);
        var pub := Times(rInv, Add(Times(sig.s, R, p), Neg(zG, p), p), p);
        if pub.infinity then None else Some(Negate(pub, p))
  }

  /** Neg, total: recovered points need not be known to lie on the curve. */
  function Negate(a: Point, p: nat): Point {
    if a.y <= p then Neg(a, p) else a
  }

  /** (r d + z) / k, with the scalar class's one conditional subtraction in the sum. */
  ghost function RawS(d: nat, hash: nat, k: nat, r: nat, q: nat): (s: nat)
    requires q > 0
    ensures s < q
  {
    var sum := FMul(r, d, q) + hash;
    FMul(if sum >= q then sum - q else sum, Inverse(k, q), q)
  }

  function LowS(s: nat, q: nat): nat
    requires s <= q
  {
    if s >= Pow(2, 255) then q - s else s
  }

  ghost predicate Accepts(sig: Signature, d: nat, hash: nat, p: nat, q: nat, g: Point)
    requires Setting(p, q, g)
  {
    var rec := Recover(sig, hash, p, q, g);
    rec.Some? && rec.value.x == Times(d, g, p).x
  }

  /** The last part of signing: try the two recovery ids in turn. */
  ghost function ChooseId(d: nat, hash: nat, r: nat, s: nat, p: nat, q: nat, g: Point): Signature
    requires Setting(p, q, g)
  {
    if Accepts(Signature(r, s, 0), d, hash, p, q, g) then Signature(r, s, 0)
    else if Accepts(Signature(r, s, 1), d, hash, p, q, g) then Signature(r, s, 1)
    else Signature(0, 0, 0)
  }

  // ---------- exponent arithmetic ----------

  /** s k = r d + z. */
  lemma RawSTimesNonce(d: nat, hash: nat, k: nat, r: nat, q: nat)
    requires Prime(q) && k % q != 0
    ensures Cong(RawS(d, hash, k, r, q) * k, r * d + hash, q)
  {
    var sum := FMul(r, d, q) + hash;
    var red := if sum >= q then sum - q else sum;
    CongFrom(sum, red, if sum >= q then 1 else 0, q);
    CongMod(r * d, q);
    CongAdd(FMul(r, d, q), r * d, hash, hash, q);
    DivCancels(red, k, q);
  }

  /** Flipping s and negating the nonce each change the sign of s k. */
  lemma FlippedProduct(s: nat, k: nat, e: int, q: nat, flip: bool, neg: bool)
    requires 0 < s < q && 0 < k < q && Cong(s * k, e, q)
    ensures Cong((if flip then q - s else s) * (if neg then q - k else k), if flip == neg then e else 0 - e, q)
  {
    NegateResidue(s, q);
    NegateResidue(k, q);
    CongNeg(s * k, e, q);
    assert (0 - s) * k == -(s * k) && s * (0 - k) == -(s * k) && (0 - s) * (0 - k) == s * k;
    CongMul(q - s, 0 - s, k, k, q);
    CongMul(s, s, q - k, 0 - k, q);
    CongMul(q - s, 0 - s, q - k, 0 - k, q);
  }

  // ---------- the rebuilt point ----------

  /** Of R and -R, the one whose ordinate has parity 1 - v. */
  function Pick(R: Point, v: nat, p: nat): Point
    requires R.y <= p
  {
    if R.y % 2 == v then Neg(R, p) else R
  }

  lemma CurveSquare(R: Point, p: nat)
    requires Prime(p) && OnCurve(R, p) && !R.infinity && R.y != 0
    ensures var a := FAdd(FMul(FMul(R.x, R.x, p), R.x, p), 7, p);
            0 < a < p && IsRoot(R.y, a, p)
  {
    var xx := R.x * R.x;
    CongMod(xx, p);
    CongMul(xx % p, xx, R.x, R.x, p);
    CongMod(xx % p * R.x, p);
    CongAdd(xx % p * R.x % p, xx * R.x, 7, 7, p);
    if R.y * R.y % p == 0 {
      EuclidLemma(p, R.y, R.y);
      DivModUnique(R.y, p, 0, R.y);
    }
  }

  lemma RebuiltPoint(R: Point, v: nat, p: nat)
    requires Prime(p) && p % 4 == 3 && OnCurve(R, p) && !R.infinity && R.y != 0 && v <= 1
    ensures RecoveredPoint(R.x, v, p) == Some(Pick(R, v, p))
  {
    var a := FAdd(FMul(FMul(R.x, R.x, p), R.x, p), 7, p);
    CurveSquare(R, p);
    SqrtCorrect(a, p);
    var r := Sqrt(a, p);
    assert Cong(r * r, R.y * R.y, p) by { assert IsRoot(r, a, p); DivModUnique(a, p, 0, a); }
    SquareRoots(R.y, r, p);
    ParityFlips(R.y, p);
  }

  lemma ParityFlips(y: nat, p: nat)
    requires p % 4 == 3 && y <= p
    ensures (p - y) % 2 != y % 2
  {
    var k, h, b := p / 4, y / 2, y % 2;
    assert p - y == 2 * (2 * k + 1 - h) + (1 - b);
    DivModUnique(p - y, 2, 2 * k + 1 - h, 1 - b);
  }

  // ---------- recovery, by exponent ----------

  lemma PublicExponent(rInv: nat, w: nat, hash: nat, m: nat, q: nat) returns (e: nat)
    requires q > 0 && Cong(m + rInv * (w + hash), 0, q)
    ensures e == rInv * (w + hash % q) && Cong(e + m, 0, q)
  {
    var z := hash % q;
    MulNonNegative(rInv, w + z);
    e := rInv * (w + z);
    CongMod(hash, q);
    CongAdd(w, w, z, hash, q);
    CongMul(rInv, rInv, w + z, w + hash, q);
    CongAdd(e, rInv * (w + hash), m, m, q);
  }

  lemma PublicMultiple(s: nat, kk: nat, w: nat, z: nat, rInv: nat, e: nat, p: nat, q: nat, g: Point)
    requires Setting(p, q, g) && z < q && w == s * kk && e == rInv * (w + z)
    ensures Times(rInv, Add(Times(s, Times(kk, g, p), p), Neg(Times(q - z, g, p), p), p), p) == Times(e, g, p)
  {
    hide Add, OnCurve, Associative, Prime;
    MultipleTimes(s, kk, w, p, q, g);
    CongFrom(q - z + z, 0, 1, q);
    MultipleNeg(q - z, z, p, q, g);
    MultipleAdd(w, z, p, q, g);
    MultipleTimes(rInv, w + z, e, p, q, g);
  }

  /** If the rebuilt point is kk G, recovery returns m G for the m that solves m + (s kk + z) / r = 0. */
  lemma RecoverMultiple(sig: Signature, hash: nat, kk: nat, m: nat, w: nat, p: nat, q: nat, g: Point)
    requires Setting(p, q, g) && sig.r % q != 0
    requires RecoveredPoint(sig.r, sig.v, p) == Some(Times(kk, g, p))
    requires w == sig.s * kk && Cong(m + Inverse(sig.r % q, q) * (w + hash), 0, q)
    ensures Recover(sig, hash, p, q, g) == if m % q == 0 then None else Some(Times(m, g, p))
  {
    hide Add, OnCurve, Associative, Prime;
    var rInv := Inverse(sig.r % q, q);
    InverseNonzero(sig.r, q);
    MultipleOnCurve(q - hash % q, p, q, g);
    var e := PublicExponent(rInv, w, hash, m, q);
    PublicMultiple(sig.s, kk, w, hash % q, rInv, e, p, q, g);
    MultipleOnCurve(e, p, q, g);
    MultipleNeg(e, m, p, q, g);
    MultipleVanishes(e, p, q, g);
    NegZero(e, m, q);
    FiniteUnlessZero(Times(e, g, p), p);
  }

  lemma NegZero(e: int, m: int, q: int)
    requires q > 0 && Cong(e + m, 0, q)
    ensures e % q == 0 <==> m % q == 0
  {
    DivModUnique(0, q, 0, 0);
    if e % q == 0 { CongSub(e + m, 0, e, 0, q); }
    if m % q == 0 { CongSub(e + m, 0, m, 0, q); }
  }

  lemma FiniteUnlessZero(a: Point, p: nat)
    requires p > 0 && OnCurve(a, p)
    ensures a.infinity <==> a == ZERO
    ensures Negate(a, p) == Neg(a, p)
  {
  }

  lemma InverseNonzero(r: nat, q: nat)
    requires Prime(q) && r % q != 0
    ensures Inverse(r % q, q) != 0 && Cong(Inverse(r % q, q) * r, 1, q)
  {
    CongMod(r, q);
    PrimeCoprime(q, r % q);
    var inv := Inverse(r % q, q);
    CongMul(r % q, r, inv, inv, q);
    if inv == 0 {
      DivModUnique(1, q, 0, 1);
    }
  }

  // ---------- when recovery refuses ----------

  /** The abscissa is r, less p once if that is possible. */
  function Abscissa(r: nat, p: nat): nat {
    if r >= p then r - p else r
  }

  /** The finite point of abscissa r whose ordinate is nonzero and has not the parity v. */
  ghost predicate Rebuilt(R: Point, r: nat, v: nat, p: nat)
    requires p > 0
  {
    && !R.infinity && R.x == Abscissa(r, p) < p && 0 < R.y < p && Equation(R.x, R.y, p)
    && (v <= 1 ==> R.y % 2 != v)
  }

  /** Whatever the recovery id, only a point of the curve is rebuilt, and one is rebuilt if there is one. */
  lemma RebuiltExactly(r: nat, v: nat, p: nat)
    requires Prime(p) && p % 4 == 3
    ensures RecoveredPoint(r, v, p).Some? ==> Rebuilt(RecoveredPoint(r, v, p).value, r, v, p)
    ensures RecoveredPoint(r, v, p) == None ==>
      Abscissa(r, p) >= p || forall y: nat :: 0 < y < p ==> !Equation(Abscissa(r, p), y, p)
  {
    hide Sqrt, Prime, Equation;
    var rx := Abscissa(r, p);
    if rx < p {
      var a := FAdd(FMul(FMul(rx, rx, p), rx, p), 7, p);
      var root := Sqrt(a, p);
      SqrtCorrect(a, p);
      if root != 0 {
        RootOnCurve(rx, root, p);
        CurvePoint(rx, root, p);
        CurvePoint(rx, p - root, p);
        ParityFlips(root, p);
      } else {
        forall y: nat | 0 < y < p
          ensures !Equation(rx, y, p)
        {
          if Equation(rx, y, p) {
            PointRoot(rx, y, p);
          }
        }
      }
    }
  }

  lemma CurvePoint(x: nat, y: nat, p: nat)
    requires p > 0 && OnCurve(Point(x, y, false), p)
    ensures x < p && y < p && Equation(x, y, p)
  {
  }

  lemma PointRoot(x: nat, y: nat, p: nat)
    requires Prime(p) && x < p && 0 < y < p && Equation(x, y, p)
    ensures var a := FAdd(FMul(FMul(x, x, p), x, p), 7, p); 0 < a && IsRoot(y, a, p)
  {
    CurveSquare(Point(x, y, false), p);
  }

  lemma RebuiltUnique(R: Point, Q: Point, r: nat, v: nat, p: nat)
    requires Prime(p) && p % 4 == 3 && v <= 1 && Rebuilt(R, r, v, p) && Rebuilt(Q, r, v, p)
    ensures R == Q
  {
    SameAbscissa(R, Q, p);
    ParityFlips(Q.y, p);
  }

  /** (s R - z G) / r, before the sign is changed. */
  ghost function Candidate(R: Point, sig: Signature, hash: nat, p: nat, q: nat, g: Point): Point
    requires Setting(p, q, g)
  {
    MultipleOnCurve(q - hash % q, p, q, g);
    Times(Inverse(sig.r % q, q), Add(Times(sig.s, R, p), Neg(Times(q - hash % q, g, p), p), p), p)
  }

  /** For both recovery ids, recovery gives a key exactly if the curve has a point of abscissa r with a nonzero
      ordinate, r is not 0 modulo q and the result is finite; it is then the negative of the result, a finite point of
      the curve. */
  lemma RecoverExactly(sig: Signature, hash: nat, p: nat, q: nat, g: Point)
    requires Setting(p, q, g) && sig.v <= 1
    ensures forall K: Point :: Recover(sig, hash, p, q, g) == Some(K) ==> OnCurve(K, p) && !K.infinity
    ensures Recover(sig, hash, p, q, g).Some? <==>
      && sig.r % q != 0
      && exists R: Point :: Rebuilt(R, sig.r, sig.v, p) && !Candidate(R, sig, hash, p, q, g).infinity
    ensures forall R: Point :: Rebuilt(R, sig.r, sig.v, p) && Recover(sig, hash, p, q, g).Some? ==>
      var c := Candidate(R, sig, hash, p, q, g);
      c.y <= p && Recover(sig, hash, p, q, g) == Some(Neg(c, p))
  {
    hide Setting, RecoveredPoint, Rebuilt, Recover, Candidate, OnCurve, Neg;
    SettingPrimes(p, q, g);
    RebuiltExactly(sig.r, sig.v, p);
    if RecoveredPoint(sig.r, sig.v, p) == None {
      NoneRebuilt(sig.r, sig.v, p);
      RecoverNone(sig, hash, p, q, g);
    } else {
      var R := RecoveredPoint(sig.r, sig.v, p).value;
      RecoverIs(R, sig, hash, p, q, g);
      forall Q: Point | Rebuilt(Q, sig.r, sig.v, p)
        ensures Q == R
      {
        RebuiltUnique(R, Q, sig.r, sig.v, p);
      }
    }
  }

  lemma SettingPrimes(p: nat, q: nat, g: Point)
    requires Setting(p, q, g)
    ensures Prime(p) && p % 4 == 3 && q > 0 && p > 0
  {
  }

  lemma RecoverNone(sig: Signature, hash: nat, p: nat, q: nat, g: Point)
    requires Setting(p, q, g) && RecoveredPoint(sig.r, sig.v, p) == None
    ensures Recover(sig, hash, p, q, g) == None
  {
    hide Add, Associative, Times, RecoveredPoint;
  }

  lemma RecoverIs(R: Point, sig: Signature, hash: nat, p: nat, q: nat, g: Point)
    requires Setting(p, q, g) && RecoveredPoint(sig.r, sig.v, p) == Some(R) && Rebuilt(R, sig.r, sig.v, p)
    ensures var c := Candidate(R, sig, hash, p, q, g);
      && c.y <= p
      && (if sig.r % q == 0 || c.infinity then Recover(sig, hash, p, q, g) == None
          else Recover(sig, hash, p, q, g) == Some(Neg(c, p)) && OnCurve(Neg(c, p), p) && !Neg(c, p).infinity)
  {
    hide Add, Associative, OnCurve, Prime, RecoveredPoint, Times, Rebuilt, Negate, Neg;
    CandidateOnCurve(R, sig, hash, p, q, g);
    InverseZero(sig.r % q, q);
    DivModUnique(sig.r % q, q, 0, sig.r % q);
  }

  lemma NoneRebuilt(r: nat, v: nat, p: nat)
    requires p > 0 && (Abscissa(r, p) >= p || forall y: nat :: 0 < y < p ==> !Equation(Abscissa(r, p), y, p))
    ensures forall R: Point :: !Rebuilt(R, r, v, p)
  {
    hide Equation;
  }

  lemma InverseZero(r: nat, q: nat)
    requires Prime(q) && r < q
    ensures Inverse(r, q) == 0 <==> r % q == 0
  {
    if r == 0 {
      assert Gcd(q, 0) == q;
    } else {
      DivModUnique(r, q, 0, r);
      InverseNonzero(r, q);
    }
  }

  lemma CandidateOnCurve(R: Point, sig: Signature, hash: nat, p: nat, q: nat, g: Point)
    requires Setting(p, q, g) && Rebuilt(R, sig.r, sig.v, p)
    ensures var c := Candidate(R, sig, hash, p, q, g);
      c.y <= p && OnCurve(c, p) && Negate(c, p) == Neg(c, p) && OnCurve(Neg(c, p), p)
      && Neg(c, p).infinity == c.infinity
  {
    hide Add, Associative, Prime, Times;
    var zG := Times(q - hash % q, g, p);
    MultipleOnCurve(q - hash % q, p, q, g);
    NegOnCurve(zG, p);
    TimesOnCurve(sig.s, R, p);
    AddOnCurve(Times(sig.s, R, p), Neg(zG, p), p);
    TimesOnCurve(Inverse(sig.r % q, q), Add(Times(sig.s, R, p), Neg(zG, p), p), p);
    NegOnCurve(Candidate(R, sig, hash, p, q, g), p);
  }

  /** With no point of abscissa r on the curve there is no key, whatever the recovery id. */
  lemma RefusesOffCurve(sig: Signature, hash: nat, p: nat, q: nat, g: Point)
    requires Setting(p, q, g) && sig.r < p && forall y: nat :: 0 < y < p ==> !Equation(sig.r, y, p)
    ensures Recover(sig, hash, p, q, g) == None
  {
    hide Add, Associative, Times, Sqrt, Equation;
    RebuiltExactly(sig.r, sig.v, p);
  }

  /** Of s and q - s, signing keeps s if its top bit is clear, and one whose top bit is clear in any case. */
  lemma LowSIsLow(s: nat, q: nat)
    requires s < q < Pow(2, 256)
    ensures 2 * LowS(s, q) < Pow(2, 256) && (LowS(s, q) == s || LowS(s, q) == q - s)
    ensures 2 * s < Pow(2, 256) ==> LowS(s, q) == s
  {
    assert Pow(2, 256) == 2 * Pow(2, 255);
  }

  // ---------- signing completeness ----------

  /** A nonce the code accepts at the first try: r = x(kG) < q and both r and s nonzero. */
  ghost predicate GoodNonce(d: nat, hash: nat, k: nat, p: nat, q: nat, g: Point)
    requires Setting(p, q, g)
  {
    && 0 < d < q && 0 < k < q
    && 0 < Times(k, g, p).x < q
    && RawS(d, hash, k, Times(k, g, p).x, q) != 0
  }

  /** The signature returned for nonce k. */
  ghost function SignWith(d: nat, hash: nat, k: nat, p: nat, q: nat, g: Point): Signature
    requires Setting(p, q, g) && GoodNonce(d, hash, k, p, q, g)
  {
    var r := Times(k, g, p).x;
    ChooseId(d, hash, r, LowS(RawS(d, hash, k, r, q), q), p, q, g)
  }

  /** The id whose rebuilt point, -R or (after flipping s) R, gives s kk = -(r d + z). */
  ghost predicate IdIsRight(id: nat, R: Point, flipped: bool) {
    flipped != (R.y % 2 == id)
  }

  lemma SmallResidue(k: nat, q: nat)
    requires 0 < k < q
    ensures k % q == k && (q - k) % q == q - k
  {
    DivModUnique(k, q, 0, k);
    DivModUnique(q - k, q, 0, q - k);
  }

  /** No nonzero multiple of the generator has order two. */
  lemma NonceOrdinate(k: nat, p: nat, q: nat, g: Point)
    requires Setting(p, q, g) && 0 < k < q
    ensures !Times(k, g, p).infinity && Times(k, g, p).y != 0
    ensures Neg(Times(k, g, p), p) == Times(q - k, g, p)
  {
    hide Add, Associative;
    SmallResidue(k, q);
    MultipleVanishes(k, p, q, g);
    MultipleOnCurve(k, p, q, g);
    CongFrom(k + (q - k), 0, 1, q);
    MultipleNeg(k, q - k, p, q, g);
    NotSelfNegative(k, p, q, g);
  }

  lemma NotSelfNegative(k: nat, p: nat, q: nat, g: Point)
    requires Setting(p, q, g) && 0 < k < q && OnCurve(Times(k, g, p), p)
    ensures Neg(Times(k, g, p), p) != Times(k, g, p)
  {
    hide Add, Associative;
    SmallResidue(k, q);
    SmallResidue(2, q);
    AddNeg(Times(k, g, p), p);
    MultipleAdd(k, k, p, q, g);
    MultipleVanishes(k + k, p, q, g);
    if (2 * k) % q == 0 {
      EuclidLemma(q, 2, k);
    }
  }

  /** Recovery solves for the exponent: d when s kk = -(r d + z), and d + 2 z / r negated otherwise. */
  lemma RightExponent(rInv: int, r: int, d: int, hash: int, w: int, q: int)
    requires q > 0 && Cong(rInv * r, 1, q) && Cong(w, 0 - (r * d + hash), q)
    ensures Cong(d + rInv * (w + hash), 0, q)
  {
    CongAdd(w, 0 - (r * d + hash), hash, hash, q);
    CongMul(rInv, rInv, w + hash, 0 - r * d, q);
    assert rInv * (0 - r * d) == 0 - (rInv * r) * d;
    CongMul(rInv * r, 1, d, d, q);
    CongSub(d, d, (rInv * r) * d, d, q);
    CongAdd(d, d, rInv * (w + hash), 0 - (rInv * r) * d, q);
  }

  /** With the wrong id, an exponent of -d forces 2 z / r = 0, so z = 0. */
  lemma WrongExponent(rInv: int, r: int, d: int, hash: int, w: int, q: int)
    requires Prime(q) && q > 2 && Cong(rInv * r, 1, q) && Cong(w, r * d + hash, q)
    ensures Cong((0 - d) + rInv * (w + hash), 0, q) <==> hash % q == 0
  {
    var t := rInv * (2 * hash);
    CongAdd(w, r * d + hash, hash, hash, q);
    CongMul(rInv, rInv, w + hash, r * d + 2 * hash, q);
    assert rInv * (r * d + 2 * hash) == (rInv * r) * d + t by { Distribute(rInv, r * d, 2 * hash); }
    CongMul(rInv * r, 1, d, d, q);
    CongAdd((rInv * r) * d, d, t, t, q);
    CongAdd(0 - d, 0 - d, rInv * (w + hash), d + t, q);
    DoubleOverR(rInv, r, hash, q);
  }

  lemma UnitNonzero(rInv: int, r: int, q: int)
    requires q > 1 && Cong(rInv * r, 1, q)
    ensures rInv % q != 0
  {
    DivModUnique(0, q, 0, 0);
    DivModUnique(1, q, 0, 1);
    if rInv % q == 0 {
      CongMul(rInv, 0, r, r, q);
    }
  }

  lemma DoubleOverR(rInv: int, r: int, hash: int, q: int)
    requires Prime(q) && q > 2 && Cong(rInv * r, 1, q)
    ensures Cong(rInv * (2 * hash), 0, q) <==> hash % q == 0
  {
    DivModUnique(0, q, 0, 0);
    DivModUnique(2, q, 0, 2);
    UnitNonzero(rInv, r, q);
    if hash % q == 0 {
      CongMul(2, 2, hash, 0, q);
      CongMul(rInv, rInv, 2 * hash, 0, q);
    }
    if Cong(rInv * (2 * hash), 0, q) {
      EuclidLemma(q, rInv, 2 * hash);
      EuclidLemma(q, 2, hash);
    }
  }

  lemma MultipleEqual(j: nat, k: nat, p: nat, q: nat, g: Point)
    requires Setting(p, q, g) && 0 < k < q && Times(j, g, p) == Times(k, g, p)
    ensures Cong(j, k, q)
  {
    hide Add, OnCurve, Associative;
    MultipleAdd(j, q - k, p, q, g);
    MultipleAdd(k, q - k, p, q, g);
    CongFrom(k + (q - k), 0, 1, q);
    MultipleVanishes(k + (q - k), p, q, g);
    MultipleVanishes(j + (q - k), p, q, g);
    DivModUnique(0, q, 0, 0);
    CongAdd(j + (q - k), 0, k, k, q);
    CongFrom(j + q, j, 1, q);
  }

  /** The exponent kk of the point rebuilt under a recovery id, and the product s' kk. */
  lemma RebuiltExponent(d: nat, hash: nat, k: nat, id: nat, p: nat, q: nat, g: Point) returns (kk: nat, w: nat)
    requires Setting(p, q, g) && GoodNonce(d, hash, k, p, q, g) && id <= 1
    ensures var R := Times(k, g, p);
            var s := RawS(d, hash, k, R.x, q);
            var flipped := s >= Pow(2, 255);
            var e := R.x * d + hash;
            && RecoveredPoint(R.x, id, p) == Some(Times(kk, g, p))
            && w == LowS(s, q) * kk
            && Cong(w, if IdIsRight(id, R, flipped) then 0 - e else e, q)
  {
    hide Add, Associative, OnCurve;
    var R := Times(k, g, p);
    SmallResidue(k, q);
    RawSTimesNonce(d, hash, k, R.x, q);
    var s := RawS(d, hash, k, R.x, q);
    var flipped := s >= Pow(2, 255);
    NonceOrdinate(k, p, q, g);
    MultipleOnCurve(k, p, q, g);
    RebuiltPoint(R, id, p);
    kk := if R.y % 2 == id then q - k else k;
    FlippedProduct(s, k, R.x * d + hash, q, flipped, R.y % 2 == id);
    MulNonNegative(LowS(s, q), kk);
    w := LowS(s, q) * kk;
  }

  ghost function SigFor(d: nat, hash: nat, k: nat, id: nat, p: nat, q: nat, g: Point): Signature
    requires Setting(p, q, g) && GoodNonce(d, hash, k, p, q, g)
  {
    var r := Times(k, g, p).x;
    Signature(r, LowS(RawS(d, hash, k, r, q), q), id)
  }

  ghost predicate Flipped(d: nat, hash: nat, k: nat, p: nat, q: nat, g: Point)
    requires Setting(p, q, g)
  {
    RawS(d, hash, k, Times(k, g, p).x, q) >= Pow(2, 255)
  }

  /** Under the right id recovery returns exactly d G. */
  lemma RightIdRecovers(d: nat, hash: nat, k: nat, id: nat, p: nat, q: nat, g: Point)
    requires Setting(p, q, g) && GoodNonce(d, hash, k, p, q, g) && id <= 1
    requires IdIsRight(id, Times(k, g, p), Flipped(d, hash, k, p, q, g))
    ensures Recover(SigFor(d, hash, k, id, p, q, g), hash, p, q, g) == Some(Times(d, g, p))
  {
    hide Add, Associative, OnCurve, Recover, RecoveredPoint, RawS;
    var kk, w := RebuiltExponent(d, hash, k, id, p, q, g);
    var r := Times(k, g, p).x;
    SmallResidue(r, q);
    SmallResidue(d, q);
    InverseNonzero(r, q);
    RightExponent(Inverse(r, q), r, d, hash, w, q);
    RecoverMultiple(SigFor(d, hash, k, id, p, q, g), hash, kk, d, w, p, q, g);
  }

  /** With the wrong id, an exponent of d forces 2 (r d + z) = 0. */
  lemma KeyExponent(rInv: int, r: int, d: int, hash: int, w: int, q: int)
    requires Prime(q) && q > 2 && Cong(rInv * r, 1, q) && Cong(w, r * d + hash, q)
    requires Cong(d + rInv * (w + hash), 0, q)
    ensures (r * d + hash) % q == 0
  {
    var e := r * d + hash;
    CongAdd(w, e, hash, hash, q);
    CongMul(r, r, d + rInv * (w + hash), 0, q);
    assert r * (d + rInv * (w + hash)) == r * d + (rInv * r) * (w + hash) by { KeyAlgebra(r, d, rInv, w + hash); }
    CongMul(rInv * r, 1, w + hash, e + hash, q);
    CongAdd(r * d, r * d, (rInv * r) * (w + hash), e + hash, q);
    assert r * d + (e + hash) == 2 * e;
    DivModUnique(0, q, 0, 0);
    DivModUnique(2, q, 0, 2);
    EuclidLemma(q, 2, e);
  }

  lemma KeyAlgebra(r: int, d: int, rInv: int, x: int)
    ensures r * (d + rInv * x) == r * d + (rInv * r) * x
  {
    Distribute(r, d, rInv * x);
    assert r * (rInv * x) == (rInv * r) * x;
  }

  /** A good nonce keeps r d + z from vanishing. */
  lemma NumeratorNonzero(d: nat, hash: nat, k: nat, p: nat, q: nat, g: Point)
    requires Setting(p, q, g) && GoodNonce(d, hash, k, p, q, g)
    ensures (Times(k, g, p).x * d + hash) % q != 0
  {
    hide Add, Associative, OnCurve, Times, RawS;
    var r := Times(k, g, p).x;
    SmallResidue(k, q);
    ZeroS(d, hash, k, r, q);
  }

  /** s is 0 exactly when r d + z is. */
  lemma ZeroS(d: nat, hash: nat, k: nat, r: nat, q: nat)
    requires Prime(q) && k % q != 0
    ensures RawS(d, hash, k, r, q) == 0 <==> (r * d + hash) % q == 0
  {
    hide RawS;
    var s := RawS(d, hash, k, r, q);
    RawSTimesNonce(d, hash, k, r, q);
    DivModUnique(0, q, 0, 0);
    if (r * d + hash) % q == 0 {
      EuclidLemma(q, s, k);
      DivModUnique(s, q, 0, s);
    }
  }

  /** Under the wrong id recovery never returns d G, and what it returns is not accepted, except when z = 0 (mod q):
      then it is -d G, which shares the abscissa. */
  lemma WrongIdRecovers(d: nat, hash: nat, k: nat, id: nat, p: nat, q: nat, g: Point)
    requires Setting(p, q, g) && GoodNonce(d, hash, k, p, q, g) && id <= 1
    requires !IdIsRight(id, Times(k, g, p), Flipped(d, hash, k, p, q, g))
    ensures var sig := SigFor(d, hash, k, id, p, q, g);
            var rec := Recover(sig, hash, p, q, g);
            && rec != Some(Times(d, g, p))
            && (Accepts(sig, d, hash, p, q, g) <==> hash % q == 0)
            && (hash % q == 0 ==> rec == Some(Neg(Times(d, g, p), p)))
  {
    hide Add, Associative, OnCurve, Recover, RecoveredPoint, RawS;
    var kk, w := RebuiltExponent(d, hash, k, id, p, q, g);
    var r := Times(k, g, p).x;
    SmallResidue(r, q);
    SmallResidue(d, q);
    InverseNonzero(r, q);
    var rInv := Inverse(r, q);
    WrongExponent(rInv, r, d, hash, w, q);
    NonceOrdinate(d, p, q, g);
    MultipleOnCurve(d, p, q, g);
    NotSelfNegative(d, p, q, g);
    var sig := SigFor(d, hash, k, id, p, q, g);
    NegateResidue(d, q);
    if hash % q == 0 {
      CongAdd(q - d, 0 - d, rInv * (w + hash), rInv * (w + hash), q);
      RecoverMultiple(sig, hash, kk, q - d, w, p, q, g);
    } else {
      var m := WrongMultiple(rInv * (w + hash), q);
      RecoverMultiple(sig, hash, kk, m, w, p, q, g);
      if Times(m, g, p) == Times(d, g, p) {
        MultipleEqual(m, d, p, q, g);
        CongAdd(m, d, rInv * (w + hash), rInv * (w + hash), q);
        KeyExponent(rInv, r, d, hash, w, q);
        NumeratorNonzero(d, hash, k, p, q, g);
      }
      if Accepts(sig, d, hash, p, q, g) {
        MultipleVanishes(m, p, q, g);
        MultipleOnCurve(m, p, q, g);
        FiniteUnlessZero(Times(m, g, p), p);
        SameAbscissa(Times(m, g, p), Times(d, g, p), p);
        MultipleEqual(m, q - d, p, q, g);
        CongSub(m + rInv * (w + hash), 0, m, 0 - d, q);
        CongAdd(0 - d, 0 - d, rInv * (w + hash), 0 - (0 - d), q);
      }
    }
  }

  lemma WrongMultiple(t: int, q: nat) returns (m: nat)
    requires q > 0
    ensures Cong(m + t, 0, q)
  {
    m := (0 - t) % q;
    CongMod(0 - t, q);
    CongAdd(m, 0 - t, t, t, q);
  }

  /** Signing completeness. One of the two ids is accepted, so the all-zero fallback is unreachable, and the
      returned signature recovers exactly d G, flipped s or not, except when z = 0 (mod q) and the first id
      tried is the wrong one: then both ids share d G's abscissa and recovery gives -d G. */
  lemma SigningRecovers(d: nat, hash: nat, k: nat, p: nat, q: nat, g: Point)
    requires Setting(p, q, g) && GoodNonce(d, hash, k, p, q, g)
    ensures var sig := SignWith(d, hash, k, p, q, g);
            && sig.r == Times(k, g, p).x && 0 < sig.s < q && sig.v <= 1
            && Accepts(sig, d, hash, p, q, g)
            && (Recover(sig, hash, p, q, g) == Some(Times(d, g, p)) <==>
                hash % q != 0 || IdIsRight(0, Times(k, g, p), Flipped(d, hash, k, p, q, g)))
            && (Recover(sig, hash, p, q, g) == Some(Times(d, g, p)) ||
                Recover(sig, hash, p, q, g) == Some(Neg(Times(d, g, p), p)))
  {
    hide Add, Associative, OnCurve, Recover, RecoveredPoint, RawS;
    var R := Times(k, g, p);
    NonceOrdinate(d, p, q, g);
    MultipleOnCurve(d, p, q, g);
    NotSelfNegative(d, p, q, g);
    assert SignWith(d, hash, k, p, q, g) ==
           ChooseId(d, hash, R.x, SigFor(d, hash, k, 0, p, q, g).s, p, q, g);
    if IdIsRight(0, R, Flipped(d, hash, k, p, q, g)) {
      RightIdRecovers(d, hash, k, 0, p, q, g);
    } else {
      WrongIdRecovers(d, hash, k, 0, p, q, g);
      RightIdRecovers(d, hash, k, 1, p, q, g);
    }
  }

  lemma MinusGenerator(p: nat, q: nat, g: Point)
    requires Setting(p, q, g) && g.y % 2 == 0 && 0 < g.y
    ensures Times(q - 1, g, p).x == g.x && Times(q - 1, g, p).y % 2 == 1
  {
    hide Add, Associative, Times, Pow, Equation, Neg;
    TimesOne(p, q, g);
    NonceOrdinate(1, p, q, g);
    ParityFlips(g.y, p);
    NegOrdinate(g, p);
  }

  lemma NegOrdinate(a: Point, p: nat)
    requires !a.infinity && 0 < a.y < p
    ensures Neg(a, p) == Point(a.x, p - a.y, false)
  {
    DivModUnique(p - a.y, p, 0, p - a.y);
  }

  /** Key and nonce cancel when the hash is 0. */
  lemma ZeroHashS(k: nat, r: nat, q: nat)
    requires Prime(q) && 0 < k < q && r < q
    ensures RawS(k, 0, k, r, q) == r
  {
    hide RawS;
    SmallResidue(k, q);
    var s := RawS(k, 0, k, r, q);
    RawSTimesNonce(k, 0, k, r, q);
    CancelLeft(q, k, s, r);
    CongCanonical(s, r, q);
  }

  /** A zero hash signed with the key and the nonce q - 1: the nonce point is -G, s is x(G), and the first id tried
      is the wrong one. */
  lemma ZeroHashSigns(p: nat, q: nat, g: Point)
    requires Setting(p, q, g) && 0 < g.x < q && g.x < Pow(2, 255) && g.y % 2 == 0 && 0 < g.y
    ensures GoodNonce(q - 1, 0, q - 1, p, q, g)
    ensures !IdIsRight(0, Times(q - 1, g, p), Flipped(q - 1, 0, q - 1, p, q, g))
  {
    hide Add, Associative, RawS, Times, OnCurve, Prime;
    MinusGenerator(p, q, g);
    ZeroHashS(q - 1, g.x, q);
  }

  lemma TimesOne(p: nat, q: nat, g: Point)
    requires Setting(p, q, g)
    ensures Times(1, g, p) == g
  {
    hide Associative;
    assert Times(0, g, p) == ZERO;
  }

  /** With the source's constants, recovery from that signature gives the negative of the public key. */
  lemma ZeroHashGivesNegative()
    requires Setting(FieldMul.P, CURVE_N, GENERATOR)
    ensures var p, q, g, d := FieldMul.P, CURVE_N, GENERATOR, CURVE_N - 1;
            && GoodNonce(d, 0, d, p, q, g)
            && Recover(SignWith(d, 0, d, p, q, g), 0, p, q, g) == Some(Neg(Times(d, g, p), p))
            && Recover(SignWith(d, 0, d, p, q, g), 0, p, q, g) != Some(Times(d, g, p))
  {
    hide Setting, GoodNonce, Recover, SignWith, Accepts, Times, IdIsRight, Flipped;
    TwoTo256();
    assert Pow(2, 256) == 2 * Pow(2, 255);
    DivModUnique(0, CURVE_N, 0, 0);
    ZeroHashSigns(FieldMul.P, CURVE_N, GENERATOR);
    SigningRecovers(CURVE_N - 1, 0, CURVE_N - 1, FieldMul.P, CURVE_N, GENERATOR);
  }

  // ---------- the imperative code, proved against the functions above ----------

  /** Secp256k1Signature::recover. */
  method RecoverKey(sig: Signature, hash: nat, p: nat, q: nat, g: Point) returns (key: Option<Point>)
    requires Setting(p, q, g) && sig.r < Pow(2, 256) && sig.s < Pow(2, 256)
    ensures key == Recover(sig, hash, p, q, g)
  {
    hide Add, Associative, Times;
    TwoTo256();
    var rx := if sig.r >= p then sig.r - p else sig.r;
    if rx >= p { return None; }
    var ry := ModSqrt(FAdd(FMul(FMul(rx, rx, p), rx, p), 7, p), p, 256);
    if ry == 0 { return None; }
    RootOnCurve(rx, ry, p);
    if ry % 2 == sig.v {
      ry := p - ry;
    }
    var R := Point(rx, ry, false);
    var rInv := ModInv.Invert(sig.r % q, q, 4);
    if Gcd(q, sig.r % q) == 1 {
      InverseUnique(rInv, Inverse(sig.r % q, q), sig.r % q, q);
    }
    if rInv == 0 { return None; }
    var z := hash % q;
    var sR := ScalarMul(R, sig.s, p, 4);
    var zG := ScalarMul(g, q - z, p, 4);
    TimesOnCurve(sig.s, R, p);
    MultipleOnCurve(q - z, p, q, g);
    NegOnCurve(zG, p);
    var sum := AddPoints(sR, Neg(zG, p), p, 4);
    AddOnCurve(sR, Neg(zG, p), p);
    var pub := ScalarMul(sum, rInv, p, 4);
    if pub.infinity { return None; }
    return Some(Negate(pub, p));
  }

  lemma TwoTo256()
    ensures Pow(2, 256) == Weight(4)
  {
    PowSquare(2, 128); PowSquare(4, 64); PowSquare(16, 32); PowSquare(256, 16);
    PowSquare(65536, 8); PowSquare(0x1_0000_0000, 4);
  }

  lemma RootOnCurve(rx: nat, ry: nat, p: nat)
    requires Prime(p) && rx < p && 0 < ry < p
    requires IsRoot(ry, FAdd(FMul(FMul(rx, rx, p), rx, p), 7, p), p)
    ensures OnCurve(Point(rx, ry, false), p) && OnCurve(Point(rx, p - ry, false), p)
  {
    var xx := rx * rx;
    CongMod(xx, p);
    CongMul(xx % p, xx, rx, rx, p);
    CongMod(xx % p * rx, p);
    CongAdd(xx % p * rx % p, xx * rx, 7, 7, p);
    CongMod(xx % p * rx % p + 7, p);
    NegOnCurve(Point(rx, ry, false), p);
  }

  datatype Outcome = Signed(sig: Signature) | Retry(nonce: nat)

  /** Steps from a nonce to 1, where the search must stop because x(G) is not 0 modulo q. */
  function StepsToOne(k: nat, q: nat): nat
    requires k < q
  {
    if k <= 1 then 1 - k else q + 1 - k
  }

  /** The nonce at which the r = 0 loop stops. */
  ghost function Settle(k: nat, p: nat, q: nat, g: Point): (k': nat)
    requires Setting(p, q, g) && k < q
    ensures k' < q && Times(k', g, p).x % q != 0
    decreases StepsToOne(k, q)
  {
    if Times(k, g, p).x % q != 0 then k
    else
      StepSuccessor(k, p, q, g);
      Settle(FAdd(k, 1, q), p, q, g)
  }

  lemma StepSuccessor(k: nat, p: nat, q: nat, g: Point)
    requires Setting(p, q, g) && k < q && Times(k, g, p).x % q == 0
    ensures 0 <= FAdd(k, 1, q) < q && StepsToOne(FAdd(k, 1, q), q) < StepsToOne(k, q)
  {
    assert Times(1, g, p) == Add(Times(0, g, p), g, p) == g;
    if k == q - 1 {
      DivModUnique(q, q, 1, 0);
    } else {
      DivModUnique(k + 1, q, 0, k + 1);
    }
  }

  /** A good nonce is used as it is. */
  lemma GoodNonceSettles(d: nat, hash: nat, k: nat, p: nat, q: nat, g: Point)
    requires Setting(p, q, g) && GoodNonce(d, hash, k, p, q, g)
    ensures k % q == k && Settle(k, p, q, g) == k && Times(k, g, p).x % q == Times(k, g, p).x
  {
    hide Add, Associative;
    SmallResidue(k, q);
    SmallResidue(Times(k, g, p).x, q);
  }

  /** Secp256k1PrivateKey::sign for a caller-supplied nonce; s = 0 asks for another attempt. */
  method Sign(d: nat, hash: nat, k: nat, p: nat, q: nat, g: Point) returns (out: Outcome)
    requires Setting(p, q, g) && d < q && hash < Pow(2, 256)
    ensures var nonce := Settle(k % q, p, q, g);
            var r := Times(nonce, g, p).x % q;
            var s := RawS(d, hash, nonce, r, q);
            out == if s == 0 then Retry(nonce + 1)
                   else Signed(ChooseId(d, hash, r, LowS(s, q), p, q, g))
    ensures GoodNonce(d, hash, k, p, q, g) ==> out == Signed(SignWith(d, hash, k, p, q, g))
  {
    hide Add, Associative, Recover;
    TwoTo256();
    if GoodNonce(d, hash, k, p, q, g) {
      GoodNonceSettles(d, hash, k, p, q, g);
    }
    var kScalar := k % q;
    var r: nat := 0;
    while r == 0
      invariant 0 <= kScalar < q && Settle(kScalar, p, q, g) == Settle(k % q, p, q, g)
      invariant r == 0 || r == Times(kScalar, g, p).x % q
      decreases r == 0, StepsToOne(kScalar, q)
    {
      var R := ScalarMul(g, kScalar, p, 4);
      r := R.x % q;
      if r == 0 {
        StepSuccessor(kScalar, p, q, g);
        kScalar := FAdd(kScalar, 1, q);
      }
    }
    var sum := FMul(r, d, q) + hash;
    var s := Divide(if sum >= q then sum - q else sum, kScalar, q, 4);
    if s == 0 {
      return Retry(kScalar + 1);
    }
    // of the two values with the same meaning the lower one is kept
    s := LowS(s, q);
    var target := ScalarMul(g, d, p, 4);
    var v := 0;
    while v < 2
      invariant 0 <= v <= 2
      invariant v >= 1 ==> !Accepts(Signature(r, s, 0), d, hash, p, q, g)
      invariant v >= 2 ==> !Accepts(Signature(r, s, 1), d, hash, p, q, g)
    {
      var recovered := RecoverKey(Signature(r, s, v), hash, p, q, g);
      if recovered.Some? && recovered.value.x == target.x {
        return Signed(Signature(r, s, v));
      }
      v := v + 1;
    }
    return Signed(Signature(0, 0, 0));
  }

  // ---------- retrying until s is nonzero ----------

  /** A nonce sign neither steps over (r = 0) nor retries (s = 0). */
  ghost predicate Usable(k: nat, d: nat, hash: nat, p: nat, q: nat, g: Point)
    requires Setting(p, q, g) && k < q
  {
    var r := Times(k, g, p).x % q;
    r != 0 && RawS(d, hash, k, r, q) != 0
  }

  /** Small multiples of the generator have pairwise different abscissas. */
  lemma AbscissasDiffer(j: nat, k: nat, p: nat, q: nat, g: Point)
    requires Setting(p, q, g) && 0 < j < k && j + k < q
    ensures Times(j, g, p).x != Times(k, g, p).x
  {
    hide Add, Associative, Times;
    MultipleOnCurve(j, p, q, g);
    MultipleOnCurve(k, p, q, g);
    NonceOrdinate(j, p, q, g);
    NonceOrdinate(k, p, q, g);
    if Times(j, g, p).x == Times(k, g, p).x {
      SameAbscissa(Times(j, g, p), Times(k, g, p), p);
      var m := if Times(j, g, p) == Times(k, g, p) then k else q - k;
      MultipleEqual(j, m, p, q, g);
      CongCanonical(j, m, q);
    }
  }

  /** At most two abscissas share a residue modulo q, so of five different ones some residue is neither of two. */
  lemma FreshResidue(x: seq<nat>, t: nat, p: nat, q: nat) returns (i: nat)
    requires |x| == 5 && q < p < 2 * q && t < q && forall j :: 0 <= j < 5 ==> x[j] < p
    requires forall j, k :: 0 <= j < k < 5 ==> x[j] != x[k]
    ensures i < 5 && x[i] % q != 0 && x[i] % q != t
  {
    forall j | 0 <= j < 5
      ensures x[j] % q == if x[j] < q then x[j] else x[j] - q
    {
      DivModUnique(x[j], q, if x[j] < q then 0 else 1, if x[j] < q then x[j] else x[j] - q);
    }
    i := 0;
    while i < 4 && (x[i] == 0 || x[i] == q || x[i] == t || x[i] == t + q)
      invariant i <= 4
      invariant forall j :: 0 <= j < i ==> x[j] == 0 || x[j] == q || x[j] == t || x[j] == t + q
    {
      i := i + 1;
    }
    assert x[0] != x[1] && x[0] != x[2] && x[0] != x[3] && x[1] != x[2] && x[1] != x[3] && x[2] != x[3];
    assert x[4] != x[0] && x[4] != x[1] && x[4] != x[2] && x[4] != x[3];
  }

  /** Only one residue r makes r d + z vanish. */
  lemma OneZero(d: nat, hash: nat, r: nat, r': nat, q: nat)
    requires Prime(q) && d % q != 0 && r < q && r' < q
    requires (r * d + hash) % q == 0 && (r' * d + hash) % q == 0
    ensures r == r'
  {
    CongSub(r * d + hash, r' * d + hash, hash, hash, q);
    assert r * d == d * r && r' * d == d * r';
    CancelLeft(q, d, r, r');
    CongCanonical(r, r', q);
  }

  lemma UsableForKey(d: nat, hash: nat, p: nat, q: nat, g: Point) returns (k: nat)
    requires Setting(p, q, g) && 10 < q && p < 2 * q && 0 < d < q
    ensures 0 < k < q && Usable(k, d, hash, p, q, g)
  {
    hide Add, Associative, Times, RawS;
    var x := seq(5, i requires 0 <= i < 5 => Times(i + 1, g, p).x);
    forall i, j | 0 <= i < j < 5
      ensures x[i] != x[j]
    {
      AbscissasDiffer(i + 1, j + 1, p, q, g);
    }
    forall i | 0 <= i < 5
      ensures x[i] < p
    {
      MultipleOnCurve(i + 1, p, q, g);
    }
    var t := 0;
    if i :| 0 <= i < 5 && (x[i] % q * d + hash) % q == 0 {
      t := x[i] % q;
    }
    var i := FreshResidue(x, t, p, q);
    k := i + 1;
    SmallResidue(k, q);
    SmallResidue(d, q);
    ZeroS(d, hash, k, x[i] % q, q);
    if (x[i] % q * d + hash) % q == 0 {
      OneZero(d, hash, x[i] % q, t, q);
    }
  }

  /** Some nonce works for every nonzero key and for every nonzero hash. */
  lemma UsableExists(d: nat, hash: nat, p: nat, q: nat, g: Point) returns (k: nat)
    requires Setting(p, q, g) && 10 < q && p < 2 * q && d < q && (d != 0 || hash % q != 0)
    ensures 0 < k < q && Usable(k, d, hash, p, q, g)
  {
    hide Add, Associative, Times, RawS;
    if d != 0 {
      k := UsableForKey(d, hash, p, q, g);
    } else {
      k := 1;
      TimesOne(p, q, g);
      SmallResidue(1, q);
      ZeroS(0, hash, 1, g.x % q, q);
      assert g.x % q * 0 + hash == hash;
    }
  }

  /** With a zero key and a zero hash every nonce is retried: the code recurses for ever. */
  lemma NothingUsable(k: nat, hash: nat, p: nat, q: nat, g: Point)
    requires Setting(p, q, g) && k < q && hash % q == 0
    ensures !Usable(k, 0, hash, p, q, g)
  {
    hide Add, Associative, RawS;
    if k == 0 {
      assert Times(0, g, p) == ZERO;
      DivModUnique(0, q, 0, 0);
    } else {
      SmallResidue(k, q);
      var r := Times(k, g, p).x % q;
      ZeroS(0, hash, k, r, q);
      assert r * 0 + hash == hash;
    }
  }

  /** Steps from a nonce up to a given one, modulo q. */
  function Distance(k: nat, goal: nat, q: nat): nat
    requires k < q && goal < q
  {
    if k <= goal then goal - k else goal + q - k
  }

  lemma DistanceSteps(k: nat, goal: nat, q: nat)
    requires k < q && goal < q
    ensures 0 <= Distance(k, goal, q) < q && (k + Distance(k, goal, q)) % q == goal
  {
    DivModUnique(k + Distance(k, goal, q), q, if k <= goal then 0 else 1, goal);
  }

  /** Stepping over r = 0 never passes a usable nonce. */
  lemma {:induction false} SettleToward(k: nat, goal: nat, p: nat, q: nat, g: Point)
    requires Setting(p, q, g) && k < q && goal < q && Times(goal, g, p).x % q != 0
    ensures Distance(Settle(k, p, q, g), goal, q) <= Distance(k, goal, q)
    decreases StepsToOne(k, q)
  {
    hide Add, Associative, Times;
    if Times(k, g, p).x % q == 0 {
      StepSuccessor(k, p, q, g);
      NextResidue(k, q);
      SettleToward(FAdd(k, 1, q), goal, p, q, g);
    }
  }

  lemma NextResidue(k: nat, q: nat)
    requires k < q
    ensures FAdd(k, 1, q) == (k + 1) % q == if k == q - 1 then 0 else k + 1
  {
    DivModUnique(k + 1, q, if k == q - 1 then 1 else 0, if k == q - 1 then 0 else k + 1);
  }

  /** The r = 0 loop stops at the first nonce with an r. */
  lemma {:induction false} SettleFirst(k: nat, j: nat, p: nat, q: nat, g: Point)
    requires Setting(p, q, g) && k < q && j < q && Times(j, g, p).x % q != 0
    ensures Distance(k, Settle(k, p, q, g), q) <= Distance(k, j, q)
    decreases StepsToOne(k, q)
  {
    hide Add, Associative, Times;
    if Times(k, g, p).x % q == 0 {
      StepSuccessor(k, p, q, g);
      NextResidue(k, q);
      SettleFirst(FAdd(k, 1, q), j, p, q, g);
    }
  }

  /** The first usable nonce from k upward, modulo q. */
  ghost predicate FirstUsable(nonce: nat, k: nat, d: nat, hash: nat, p: nat, q: nat, g: Point)
    requires Setting(p, q, g) && nonce < q && k < q
  {
    && Usable(nonce, d, hash, p, q, g)
    && forall j: nat :: j < q && Usable(j, d, hash, p, q, g) ==> Distance(k, nonce, q) <= Distance(k, j, q)
  }

  lemma SettledFirst(k: nat, d: nat, hash: nat, p: nat, q: nat, g: Point)
    requires Setting(p, q, g) && k < q && Usable(Settle(k, p, q, g), d, hash, p, q, g)
    ensures FirstUsable(Settle(k, p, q, g), k, d, hash, p, q, g)
  {
    hide Add, Associative, Times, RawS, Distance, Settle;
    forall j: nat | j < q && Usable(j, d, hash, p, q, g)
      ensures Distance(k, Settle(k, p, q, g), q) <= Distance(k, j, q)
    {
      SettleFirst(k, j, p, q, g);
    }
  }

  /** The way to j leads over n and its successor. */
  lemma Through(k: nat, n: nat, j: nat, next: nat, q: nat)
    requires k < q && n < q && j < q && next == (if n == q - 1 then 0 else n + 1)
    requires Distance(k, n, q) <= Distance(k, j, q) && j != n
    ensures Distance(k, j, q) == Distance(k, n, q) + 1 + Distance(next, j, q)
  {
  }

  lemma RetriedFirst(k: nat, next: nat, nonce: nat, d: nat, hash: nat, p: nat, q: nat, g: Point)
    requires Setting(p, q, g) && k < q && next < q && nonce < q && !Usable(Settle(k, p, q, g), d, hash, p, q, g)
    requires next == if Settle(k, p, q, g) == q - 1 then 0 else Settle(k, p, q, g) + 1
    requires FirstUsable(nonce, next, d, hash, p, q, g)
    ensures FirstUsable(nonce, k, d, hash, p, q, g)
  {
    hide Add, Associative, Times, RawS, Distance, Settle;
    var n := Settle(k, p, q, g);
    SettleFirst(k, nonce, p, q, g);
    Through(k, n, nonce, next, q);
    forall j: nat | j < q && Usable(j, d, hash, p, q, g)
      ensures Distance(k, nonce, q) <= Distance(k, j, q)
    {
      SettleFirst(k, j, p, q, g);
      Through(k, n, j, next, q);
    }
  }

  /** A usable nonce is good unless the key is 0 or the abscissa of its point is the order or more. */
  lemma UsableGood(k: nat, d: nat, hash: nat, p: nat, q: nat, g: Point)
    requires Setting(p, q, g) && k < q && d < q && Usable(k, d, hash, p, q, g)
    ensures GoodNonce(d, hash, k, p, q, g) <==> 0 < d && Times(k, g, p).x < q
  {
    hide Add, Associative, OnCurve, Prime, Times, RawS;
    NoTimes(p, q, g);
    var x := Times(k, g, p).x;
    DivModUnique(0, q, 0, 0);
    if x < q {
      DivModUnique(x, q, 0, x);
    }
  }

  lemma NoTimes(p: nat, q: nat, g: Point)
    requires Setting(p, q, g)
    ensures p > 0 && q > 0 && Times(0, g, p).x == 0
  {
    hide Add, Associative;
  }

  /** What the last part of signing gives for a nonzero r: a signature one of whose ids recovers to the key's abscissa,
      or all zeros, as always when no point of the curve has the abscissa r. */
  lemma ChosenOrZero(d: nat, hash: nat, r: nat, s: nat, p: nat, q: nat, g: Point)
    requires Setting(p, q, g) && r != 0
    ensures var sig := ChooseId(d, hash, r, s, p, q, g);
      && (sig == Signature(0, 0, 0) <==>
            !Accepts(Signature(r, s, 0), d, hash, p, q, g) && !Accepts(Signature(r, s, 1), d, hash, p, q, g))
      && (sig != Signature(0, 0, 0) ==> sig.r == r && sig.s == s && Accepts(sig, d, hash, p, q, g))
      && (RecoveredPoint(r, 0, p) == None ==> sig == Signature(0, 0, 0))
  {
    hide Add, Associative, Times, Sqrt;
  }

  /** sign with its recursion: unless key and hash are both 0 modulo q, it ends with the first usable nonce from k
      upward. If its point has an abscissa below the order, the result is the signature of a good nonce; else
      ChosenOrZero says what it may be. */
  method SignRetrying(d: nat, hash: nat, k: nat, p: nat, q: nat, g: Point, ghost goal: nat)
      returns (sig: Signature, ghost nonce: nat)
    requires Setting(p, q, g) && d < q && hash < Pow(2, 256)
    requires goal < q && Usable(goal, d, hash, p, q, g)
    ensures nonce < q && FirstUsable(nonce, k % q, d, hash, p, q, g)
    ensures var r := Times(nonce, g, p).x % q;
            sig == ChooseId(d, hash, r, LowS(RawS(d, hash, nonce, r, q), q), p, q, g)
    ensures 0 < d && Times(nonce, g, p).x < q ==>
      GoodNonce(d, hash, nonce, p, q, g) && sig == SignWith(d, hash, nonce, p, q, g)
    decreases Distance(k % q, goal, q)
  {
    hide Add, Associative, Times, RawS, ChooseId, LowS, FirstUsable, Settle, GoodNonce, SignWith;
    var out := Sign(d, hash, k, p, q, g);
    nonce := Settle(k % q, p, q, g);
    match out {
      case Signed(s) =>
        sig := s;
        SettledFirst(k % q, d, hash, p, q, g);
        if 0 < d && Times(nonce, g, p).x < q {
          SignedWith(sig, d, hash, nonce, p, q, g);
        }
      case Retry(next) =>
        ghost var n := nonce;
        SettleToward(k % q, goal, p, q, g);
        NextResidue(n, q);
        sig, nonce := SignRetrying(d, hash, next, p, q, g, goal);
        RetriedFirst(k % q, next % q, nonce, d, hash, p, q, g);
    }
  }

  lemma SignedWith(sig: Signature, d: nat, hash: nat, k: nat, p: nat, q: nat, g: Point)
    requires Setting(p, q, g) && k < q && 0 < d < q && Usable(k, d, hash, p, q, g) && Times(k, g, p).x < q
    requires var r := Times(k, g, p).x % q;
      sig == ChooseId(d, hash, r, LowS(RawS(d, hash, k, r, q), q), p, q, g)
    ensures GoodNonce(d, hash, k, p, q, g) && sig == SignWith(d, hash, k, p, q, g)
  {
    hide Add, Associative, Times, RawS, ChooseId, LowS;
    UsableGood(k, d, hash, p, q, g);
    SmallResidue(Times(k, g, p).x, q);
  }

  /** For every key below the order and every hash, not both 0 modulo q, signing ends. */
  method SignAlways(d: nat, hash: nat, k: nat, p: nat, q: nat, g: Point) returns (sig: Signature, ghost nonce: nat)
    requires Setting(p, q, g) && 10 < q && p < 2 * q && d < q && hash < Pow(2, 256)
    requires d != 0 || hash % q != 0
    ensures nonce < q && FirstUsable(nonce, k % q, d, hash, p, q, g)
    ensures var r := Times(nonce, g, p).x % q;
            sig == ChooseId(d, hash, r, LowS(RawS(d, hash, nonce, r, q), q), p, q, g)
    ensures 0 < d && Times(nonce, g, p).x < q ==>
      GoodNonce(d, hash, nonce, p, q, g) && sig == SignWith(d, hash, nonce, p, q, g)
  {
    hide Add, Associative, Times, RawS, ChooseId, LowS, FirstUsable, GoodNonce, SignWith;
    ghost var goal := UsableExists(d, hash, p, q, g);
    sig, nonce := SignRetrying(d, hash, k, p, q, g, goal);
  }
}
