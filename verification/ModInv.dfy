/** Modular inversion: extended Euclid on fixed-width unsigned words, with wrapping coefficients and the
    top bit of the final coefficient read as its sign. */
module ModInv {
  import opened Numbers
  import opened Limbs

  function Signed(negative: bool, u: nat): int {
    if negative then 0 - u else u
  }

  /** The signed coefficients behind the wrapped words have opposite signs and magnitudes uOld and u. */
  ghost predicate Coefficients(negative: bool, uOld: nat, u: nat, rOld: nat, r: nat, a: nat, m: nat)
    requires m > 0
  {
    && u * rOld + uOld * r == m
    && Cong(Signed(!negative, uOld) * a, rOld, m)
    && Cong(Signed(negative, u) * a, r, m)
  }

  /** The signed update only adds magnitudes, because the signs alternate. */
  lemma SignedUpdate(negative: bool, uOld: nat, u: nat, q: nat)
    ensures uOld + q * u >= 0
    ensures Signed(!negative, uOld) - q * Signed(negative, u) == Signed(!negative, uOld + q * u)
  {
    MulNonNegative(q, u);
    assert q * (0 - u) == 0 - q * u;
  }

  /** One Euclidean step keeps u * rOld + uOld * r = m. */
  lemma CoefficientStep(negative: bool, uOld: nat, u: nat, rOld: nat, r: nat, a: nat, m: nat, q: nat, u': nat)
    requires m > 0 && r > 0 && Coefficients(negative, uOld, u, rOld, r, a, m)
    requires q == rOld / r && u' == uOld + q * u
    ensures Coefficients(!negative, u, u', r, rOld % r, a, m)
  {
    MagnitudeAlgebra(uOld, u, rOld, r, q, u');
    SignedUpdate(negative, uOld, u, q);
    CongStep(Signed(!negative, uOld), Signed(negative, u), Signed(!negative, u'), rOld, r, rOld % r, q, a, m);
  }

  lemma MagnitudeAlgebra(uOld: int, u: int, rOld: int, r: int, q: int, u': int)
    requires u' == uOld + q * u
    ensures u' * r + u * (rOld - q * r) == u * rOld + uOld * r
  {
    assert u' * r == uOld * r + (q * u) * r;
    assert u * (rOld - q * r) == u * rOld - u * (q * r);
    assert (q * u) * r == u * (q * r);
  }

  lemma CongStep(s0: int, s: int, s': int, rOld: int, r: int, rest: int, q: int, a: int, m: int)
    requires m > 0 && Cong(s0 * a, rOld, m) && Cong(s * a, r, m)
    requires s' == s0 - q * s && rest == rOld - q * r
    ensures Cong(s' * a, rest, m)
  {
    Factor(s0, q, s, s', a);
    var x, y := s0 * a, s * a;
    CongMul(q, q, y, r, m);
    CongSub(x, rOld, q * y, q * r, m);
  }

  lemma Factor(s0: int, q: int, s: int, s': int, a: int)
    requires s' == s0 - q * s
    ensures s0 * a - q * (s * a) == s' * a
  {
    assert s' * a == s0 * a - (q * s) * a;
  }

  /** The wrapping word update t0 - q * t tracks the signed one. */
  lemma WrapStep(t0: int, t: int, q: int, s0: int, s: int, M: int)
    requires M > 0 && Cong(t0, s0, M) && Cong(t, s, M)
    ensures (t0 - (q * t) % M) % M == (s0 - q * s) % M
  {
    CongMul(q, q, t, s, M);
    CongMod(q * t, M);
    CongSub(t0, s0, (q * t) % M, q * s, M);
  }

  /** If the division by r = 1 ends the loop, the quotient is at least 2 and halves the last coefficient. */
  lemma LastQuotient(uOld: nat, u: nat, rOld: nat, m: nat)
    requires rOld >= 2 && u * rOld + uOld * 1 == m
    ensures 2 * u <= m
  {
    MulNonNegative(u, rOld - 2);
    assert u * (rOld - 2) == u * rOld - 2 * u;
  }

  /** The final correction: the word is the canonical inverse. */
  lemma FinalSign(negative: bool, uOld: nat, t: int, a: nat, m: nat, M: nat)
    requires 2 <= m < M && M % 2 == 0 && 2 * uOld <= m
    requires Cong(Signed(!negative, uOld) * a, 1, m) && t == Signed(!negative, uOld) % M
    ensures IsInverse(if t >= M / 2 then (t + m) % M else t, a, m)
  {
    if negative || uOld == 0 {
      DivModUnique(uOld, M, 0, uOld);
      assert Signed(!negative, uOld) * a == a * uOld;
    } else {
      DivModUnique(Signed(true, uOld), M, -1, M - uOld);
      DivModUnique(t + m, M, 1, m - uOld);
      assert a * (m - uOld) == Signed(true, uOld) * a + a * m;
      CongFrom(a * (m - uOld), Signed(true, uOld) * a, a, m);
    }
  }

  lemma InitialCoefficients(a: nat, m: nat)
    requires m >= 2
    ensures Coefficients(false, 0, 1, m, a, a, m)
  {
    CongFrom(0, m, -1, m);
  }

  lemma ResidueWord(t: int, M: int)
    requires 0 <= t < M
    ensures t % M == t
  {
    DivModUnique(t, M, 0, t);
  }

  lemma WeightEven(n: nat)
    requires n >= 1
    ensures Weight(n) % 2 == 0
  {
    WeightStep(n - 1);
    MultipleIsZero(BASE / 2 * Weight(n - 1), 2);
    assert BASE * Weight(n - 1) == BASE / 2 * Weight(n - 1) * 2;
  }

  /** No product in the remainder update overflows. */
  lemma RemainderWord(rOld: nat, r: nat, M: nat)
    requires 0 < r && rOld < M
    ensures rOld / r >= 0 && (rOld - (rOld / r * r) % M) % M == rOld % r
  {
    MulNonNegative(rOld / r, r);
    ResidueWord(rOld / r * r, M);
    ResidueWord(rOld % r, M);
  }

  /** The words of one loop state and the signed coefficients they stand for. */
  ghost predicate State(negative: bool, uOld: nat, u: nat, rOld: nat, r: nat, tOld: int, t: int, a: nat, m: nat, M: nat)
    requires m > 0 && M > 0
  {
    && rOld < M && r < M && 0 <= tOld < M && 0 <= t < M
    && Coefficients(negative, uOld, u, rOld, r, a, m)
    && Cong(tOld, Signed(!negative, uOld), M)
    && Cong(t, Signed(negative, u), M)
    && (r == 1 ==> rOld >= 2)
    && (r == 0 && rOld == 1 ==> 2 * uOld <= m)
  }

  lemma StateStep(negative: bool, uOld: nat, u: nat, rOld: nat, r: nat, tOld: int, t: int, a: nat, m: nat, M: nat,
      q: nat)
      returns (u': nat)
    requires m > 0 && M > 0 && r > 0 && q == rOld / r
    requires State(negative, uOld, u, rOld, r, tOld, t, a, m, M)
    ensures var next := (tOld - (q * t) % M) % M;
            State(!negative, u, u', r, rOld % r, t, next, a, m, M)
  {
    SignedUpdate(negative, uOld, u, q);
    u' := uOld + q * u;
    CoefficientStep(negative, uOld, u, rOld, r, a, m, q, u');
    if r == 1 { LastQuotient(uOld, u, rOld, m); }
    WrapStep(tOld, t, q, Signed(!negative, uOld), Signed(negative, u), M);
    CongMod(Signed(!negative, u'), M);
  }

  /** modinv: for every word a and every modulus m >= 2 the loop ends with the inverse of a, or 0 if a and m
      have a common factor. */
  method Invert(a: nat, m: nat, n: nat) returns (inv: nat)
    requires n >= 1 && a < Weight(n) && 2 <= m < Weight(n)
    ensures Gcd(m, a) == 1 ==> IsInverse(inv, a, m)
    ensures Gcd(m, a) != 1 ==> inv == 0
  {
    var width := Weight(n);
    var rOld: nat, r: nat := m, a;
    var tOld, t := 0, 1;
    ghost var negative: bool, uOld: nat, u: nat := false, 0, 1;
    InitialCoefficients(a, m);
    while r != 0
      invariant Gcd(rOld, r) == Gcd(m, a)
      invariant State(negative, uOld, u, rOld, r, tOld, t, a, m, width)
      decreases r
    {
      RemainderWord(rOld, r, width);
      var q: nat := rOld / r;
      ghost var u' := StateStep(negative, uOld, u, rOld, r, tOld, t, a, m, width, q);

      rOld := (rOld - (q * r) % width) % width;
      rOld, r := r, rOld;
      tOld := (tOld - (q * t) % width) % width;
      tOld, t := t, tOld;
      negative, uOld, u := !negative, u, u';
    }
    if rOld != 1 {
      return 0;
    }
    WeightEven(n);
    ResidueWord(tOld, width);
    FinalSign(negative, uOld, tOld, a, m, width);
    // the top bit stands for a negative coefficient
    if tOld >= width / 2 {
      tOld := (tOld + m) % width;
    }
    return tOld;
  }
}
