/** Point addition and scalar multiplication on four-limb coordinates, as the code computes them: right whenever no
    field subtraction on the way loses a borrow. */
module LimbCurve {
  import opened Numbers
  import opened Limbs
  import opened FieldMul
  import opened Curve
  import opened ModRoot
  import ModInv

  type Four = s: seq<Word> | |s| == 4 witness [0, 0, 0, 0]

  datatype LimbPoint = LimbPoint(x: Four, y: Four, infinity: bool)
  {
    function Shown(): Point {
      Point(Value(x), Value(y), infinity)
    }

    predicate Canonical() {
      Value(x) < P && Value(y) < P
    }
  }

  const NOWHERE := LimbPoint([0, 0, 0, 0], [0, 0, 0, 0], true)

  /** The operands of the field subtractions made, in order. */
  type Log = seq<(Four, Four)>

  predicate AllKept(log: Log) {
    forall i :: 0 <= i < |log| ==> BorrowsKept(log[i].0, log[i].1)
  }

  // ---------- limbs of a value ----------

  function ToLimbs(v: nat, n: nat): (s: seq<Word>)
    ensures |s| == n
    decreases n
  {
    if n == 0 then [] else ToLimbs(v % Weight(n - 1), n - 1) + [v / Weight(n - 1) % BASE]
  }

  lemma {:induction false} ToLimbsValue(v: nat, n: nat)
    requires v < Weight(n)
    ensures Value(ToLimbs(v, n)) == v
    decreases n
  {
    if n > 0 {
      var w := Weight(n - 1);
      WeightStep(n - 1);
      ToLimbsValue(v % w, n - 1);
      ValueSnoc(ToLimbs(v % w, n - 1), v / w % BASE);
      TopLimb(v, w);
    }
  }

  lemma TopLimb(v: nat, w: nat)
    requires w > 0 && v < BASE * w
    ensures v == v % w + v / w % BASE * w
  {
    assert v == v / w * w + v % w;
    Smaller(v / w, BASE, w);
    DivModUnique(v / w, BASE, 0, v / w);
  }

  lemma Smaller(q: int, b: int, w: int)
    requires w > 0 && q * w < b * w
    ensures q < b
  {
    assert (q - b) * w == q * w - b * w;
    if q >= b {
      MulNonNegative(q - b, w);
    }
  }

  /** Limbs are equal when the values are, which is all the comparisons of operator+ ask. */
  lemma {:induction false} ValueInjective(s: seq<Word>, t: seq<Word>)
    requires |s| == |t| && Value(s) == Value(t)
    ensures s == t
  {
    hide Value, Weight;
    if s != [] {
      var k := |s| - 1;
      ValueTake(s, k);
      ValueTake(t, k);
      assert s[..k + 1] == s && t[..k + 1] == t;
      DivModUnique(Value(s), Weight(k), s[k], Value(s[..k]));
      DivModUnique(Value(t), Weight(k), t[k], Value(t[..k]));
      ValueInjective(s[..k], t[..k]);
      assert s == s[..k] + [s[k]] && t == t[..k] + [t[k]];
    }
  }

  lemma ZeroValue()
    ensures Value([0, 0, 0, 0]) == 0
  {
    ValueZero([0, 0, 0, 0]);
  }

  // ---------- field operations ----------

  function Minus(x: Four, y: Four): Four {
    LossyDifference(x, y, P_LIMBS)
  }

  function MultipleOf(x: Four, k: int): Four {
    ToLimbs(FMul(Value(x), k, P), 4)
  }

  function ProductOf(x: Four, y: Four): Four {
    MultipleOf(x, Value(y))
  }

  /** The divisor is reduced once before it is inverted, and the product after that. */
  ghost function QuotientOf(x: Four, y: Four): Four {
    ToLimbs(FDiv(Value(x), Value(y) % P, P), 4)
  }

  lemma ResidueLimbs(v: int, s: Four)
    ensures Value(ToLimbs(v % P, 4)) == v % P
    ensures Value(s) == v % P ==> s == ToLimbs(v % P, 4)
  {
    hide ToLimbs, Value;
    FoldConstant();
    ToLimbsValue(v % P, 4);
    if Value(s) == v % P {
      ValueInjective(s, ToLimbs(v % P, 4));
    }
  }

  lemma MinusExact(x: Four, y: Four)
    requires Value(x) < P && Value(y) < P
    ensures Value(Minus(x, y)) == FSub(Value(x), Value(y), P) <==> BorrowsKept(x, y)
    ensures 0 <= FSub(Value(x), Value(y), P) < P
  {
    hide LossyDifference, BorrowsKept, Value;
    PLimbsValue();
    LossyExact(x, y, P_LIMBS);
  }

  method Sub(x: Four, y: Four) returns (r: Four)
    ensures r == Minus(x, y)
  {
    var a := ModSub(x, y, P_LIMBS);
    r := a[..];
  }

  method Product(x: Four, y: Four) returns (r: Four)
    ensures r == ProductOf(x, y)
  {
    hide ToLimbs, Value;
    var a := FieldMul.Mul(x, y);
    r := a[..];
    ResidueLimbs(Value(x) * Value(y), r);
  }

  method Multiple(x: Four, k: nat) returns (r: Four)
    requires k < 0x8000_0000
    ensures r == MultipleOf(x, k)
  {
    hide ToLimbs, Value;
    var a := MulSmall(x, k);
    r := a[..];
    ResidueLimbs(Value(x) * k, r);
  }

  /** operator/, whose divisor goes through the constructor that subtracts P once if it can. */
  method Quotient(x: Four, y: Four) returns (r: Four)
    ensures r == QuotientOf(x, y)
  {
    hide Inverse, Value, ToLimbs;
    FoldConstant();
    var divisor := Copy(y);
    Canonical(divisor);
    var d := Value(divisor[..]);
    var inv := ModInv.Invert(d, P, 4);
    if Gcd(P, d) == 1 {
      InverseUnique(inv, Inverse(d, P), d, P);
    }
    ToLimbsValue(inv, 4);
    r := Product(x, ToLimbs(inv, 4));
  }

  // ---------- group operations ----------

  /** The third point of the line of slope s through a, mirrored. */
  function LossyThird(a: LimbPoint, x2: Four, s: Four): LimbPoint {
    var nx := Minus(Minus(ProductOf(s, s), a.x), x2);
    LimbPoint(nx, Minus(ProductOf(s, Minus(a.x, nx)), a.y), false)
  }

  function ThirdLog(a: LimbPoint, x2: Four, s: Four): Log {
    var t := Minus(ProductOf(s, s), a.x);
    var nx := Minus(t, x2);
    [(ProductOf(s, s), a.x), (t, x2), (a.x, nx), (ProductOf(s, Minus(a.x, nx)), a.y)]
  }

  /** Group operator+ over the code's field operations. */
  ghost function LossySum(a: LimbPoint, b: LimbPoint): LimbPoint {
    if a.infinity then b
    else if b.infinity then a
    else if a.x != b.x then LossyThird(a, b.x, QuotientOf(Minus(b.y, a.y), Minus(b.x, a.x)))
    else if a.y != b.y || a.y == [0, 0, 0, 0] then NOWHERE
    else LossyThird(a, a.x, QuotientOf(MultipleOf(ProductOf(a.x, a.x), 3), MultipleOf(a.y, 2)))
  }

  /** The subtractions it makes. */
  ghost function SumLog(a: LimbPoint, b: LimbPoint): Log {
    if a.infinity || b.infinity then []
    else if a.x != b.x then
      [(b.y, a.y), (b.x, a.x)] + ThirdLog(a, b.x, QuotientOf(Minus(b.y, a.y), Minus(b.x, a.x)))
    else if a.y != b.y || a.y == [0, 0, 0, 0] then []
    else ThirdLog(a, a.x, QuotientOf(MultipleOf(ProductOf(a.x, a.x), 3), MultipleOf(a.y, 2)))
  }

  /** A subtrahend without a limb of all ones keeps its borrows. */
  lemma NoAllOnes(x: Four, y: Four)
    requires forall i :: 0 <= i < 4 ==> y[i] != BASE - 1
    ensures BorrowsKept(x, y)
  {
    hide Value;
    assert BorrowsKeptBelow(x, y, 1) && BorrowsKeptBelow(x, y, 2) && BorrowsKeptBelow(x, y, 3);
  }

  /** The subtractions that count: none with a point at infinity or a sum at infinity, four for a double, and for a
      chord the two differences before that. */
  lemma SumLogKept(a: LimbPoint, b: LimbPoint)
    ensures AllKept(SumLog(a, b)) <==>
      a.infinity || b.infinity ||
      if a.x == b.x then
        a.y != b.y || a.y == [0, 0, 0, 0]
        || ThirdKept(a, a.x, QuotientOf(MultipleOf(ProductOf(a.x, a.x), 3), MultipleOf(a.y, 2)))
      else
        && BorrowsKept(b.y, a.y) && BorrowsKept(b.x, a.x)
        && ThirdKept(a, b.x, QuotientOf(Minus(b.y, a.y), Minus(b.x, a.x)))
  {
    hide Minus, ProductOf, MultipleOf, QuotientOf, BorrowsKept, ThirdLog, ThirdKept;
    if !a.infinity && !b.infinity {
      if a.x != b.x {
        var s := QuotientOf(Minus(b.y, a.y), Minus(b.x, a.x));
        var two: Log := [(b.y, a.y), (b.x, a.x)];
        KeptBoth(two, ThirdLog(a, b.x, s));
        ThirdLogKept(a, b.x, s);
        assert AllKept(two) <==> BorrowsKept(two[0].0, two[0].1) && BorrowsKept(two[1].0, two[1].1);
      } else if a.y == b.y && a.y != [0, 0, 0, 0] {
        ThirdLogKept(a, a.x, QuotientOf(MultipleOf(ProductOf(a.x, a.x), 3), MultipleOf(a.y, 2)));
      }
    }
  }

  predicate ThirdKept(a: LimbPoint, x2: Four, s: Four) {
    var square := ProductOf(s, s);
    var nx := Minus(Minus(square, a.x), x2);
    && BorrowsKept(square, a.x) && BorrowsKept(Minus(square, a.x), x2) && BorrowsKept(a.x, nx)
    && BorrowsKept(ProductOf(s, Minus(a.x, nx)), a.y)
  }

  lemma ThirdLogKept(a: LimbPoint, x2: Four, s: Four)
    ensures AllKept(ThirdLog(a, x2, s)) <==> ThirdKept(a, x2, s)
  {
    hide Minus, ProductOf, BorrowsKept;
    var l := ThirdLog(a, x2, s);
    assert AllKept(l) <==> (BorrowsKept(l[0].0, l[0].1) && BorrowsKept(l[1].0, l[1].1) && BorrowsKept(l[2].0, l[2].1)
                            && BorrowsKept(l[3].0, l[3].1));
  }

  lemma KeptBoth(l: Log, m: Log)
    ensures AllKept(l + m) <==> AllKept(l) && AllKept(m)
  {
    hide BorrowsKept;
    assert forall i :: 0 <= i < |l| ==> (l + m)[i] == l[i];
    assert forall i :: 0 <= i < |m| ==> (l + m)[|l| + i] == m[i];
  }

  /** With its four borrows kept, the third point is the line's. */
  lemma ThirdExact(a: LimbPoint, x2: Four, s: Four)
    requires a.Canonical() && Value(x2) < P && Value(s) < P && AllKept(ThirdLog(a, x2, s))
    ensures var r := LossyThird(a, x2, s);
      r.Canonical() && r.Shown() == LineThird(a.Shown(), Value(x2), Value(s), P)
  {
    hide Minus, BorrowsKept, Value, ProductOf, FSub;
    var log := ThirdLog(a, x2, s);
    assert log[0] == (ProductOf(s, s), a.x);
    ProductExact(s, s);
    MinusExact(log[0].0, log[0].1);
    MinusExact(log[1].0, log[1].1);
    MinusExact(log[2].0, log[2].1);
    ProductExact(s, Minus(a.x, log[2].1));
    MinusExact(log[3].0, log[3].1);
  }

  lemma ProductExact(x: Four, y: Four)
    ensures Value(ProductOf(x, y)) == FMul(Value(x), Value(y), P) < P
  {
    hide ToLimbs, Value;
    ResidueLimbs(Value(x) * Value(y), x);
  }

  lemma MultipleExact(x: Four, k: int)
    ensures Value(MultipleOf(x, k)) == FMul(Value(x), k, P) < P
  {
    hide ToLimbs, Value;
    ResidueLimbs(Value(x) * k, x);
  }

  lemma QuotientExact(x: Four, y: Four)
    ensures Value(QuotientOf(x, y)) == FDiv(Value(x), Value(y) % P, P) < P
    ensures Value(y) < P ==> Value(QuotientOf(x, y)) == FDiv(Value(x), Value(y), P)
  {
    hide ToLimbs, Value, Inverse;
    ResidueLimbs(Value(x) * Inverse(Value(y) % P, P), x);
    if Value(y) < P {
      DivModUnique(Value(y), P, 0, Value(y));
    }
  }

  /** The code's sum of canonical points is the mathematical one if no subtraction in it loses a borrow. */
  lemma SumExact(a: LimbPoint, b: LimbPoint)
    requires a.Canonical() && b.Canonical() && AllKept(SumLog(a, b))
    ensures LossySum(a, b).Canonical() && LossySum(a, b).Shown() == Add(a.Shown(), b.Shown(), P)
  {
    hide FSub, FMul, FDiv, Value, AllKept, BorrowsKept, LineThird, LossyThird, ThirdLog;
    hide Minus, ProductOf, MultipleOf, QuotientOf;
    NowhereShown();
    OrdinatesDiffer(a.x, b.x);
    OrdinatesDiffer(a.y, b.y);
    OrdinateZero(a.y);
    if !a.infinity && !b.infinity {
      if a.x != b.x {
        ChordExact(a, b);
      } else if a.y == b.y && a.y != [0, 0, 0, 0] {
        TangentExact(a);
      }
    }
  }

  lemma ChordExact(a: LimbPoint, b: LimbPoint)
    requires a.Canonical() && b.Canonical() && !a.infinity && !b.infinity && a.x != b.x && AllKept(SumLog(a, b))
    ensures var r := LossySum(a, b);
      && r.Canonical()
      && r.Shown() == LineThird(a.Shown(), Value(b.x),
           FDiv(FSub(Value(b.y), Value(a.y), P), FSub(Value(b.x), Value(a.x), P), P), P)
  {
    hide FSub, FMul, FDiv, Value, BorrowsKept, LineThird, LossyThird, ThirdLog;
    hide Minus, ProductOf, MultipleOf, QuotientOf;
    var dy, dx := Minus(b.y, a.y), Minus(b.x, a.x);
    var two: Log := [(b.y, a.y), (b.x, a.x)];
    KeptBoth(two, ThirdLog(a, b.x, QuotientOf(dy, dx)));
    assert AllKept(two);
    assert two[0] == (b.y, a.y) && two[1] == (b.x, a.x);
    MinusExact(b.y, a.y);
    MinusExact(b.x, a.x);
    QuotientExact(dy, dx);
    ThirdExact(a, b.x, QuotientOf(dy, dx));
  }

  lemma TangentExact(a: LimbPoint)
    requires a.Canonical() && !a.infinity && a.y != [0, 0, 0, 0] && AllKept(SumLog(a, a))
    ensures var r := LossySum(a, a);
      && r.Canonical()
      && r.Shown() == LineThird(a.Shown(), Value(a.x),
           FDiv(FMul(FMul(Value(a.x), Value(a.x), P), 3, P), FMul(Value(a.y), 2, P), P), P)
  {
    hide FSub, FMul, FDiv, Value, AllKept, LineThird, LossyThird, ThirdLog, Minus, ProductOf, MultipleOf, QuotientOf;
    var square := ProductOf(a.x, a.x);
    var slope, double := MultipleOf(square, 3), MultipleOf(a.y, 2);
    ProductExact(a.x, a.x);
    MultipleExact(square, 3);
    MultipleExact(a.y, 2);
    QuotientExact(slope, double);
    ThirdExact(a, a.x, QuotientOf(slope, double));
  }

  lemma NowhereShown()
    ensures NOWHERE.Shown() == ZERO && NOWHERE.Canonical()
  {
    ZeroValue();
  }

  lemma OrdinatesDiffer(y: Four, z: Four)
    ensures y != z ==> Value(y) != Value(z)
  {
    if Value(y) == Value(z) {
      ValueInjective(y, z);
    }
  }

  lemma OrdinateZero(y: Four)
    ensures y == [0, 0, 0, 0] <==> Value(y) == 0
  {
    ZeroValue();
    OrdinatesDiffer(y, [0, 0, 0, 0]);
  }

  method Third(a: LimbPoint, x2: Four, s: Four) returns (r: LimbPoint)
    ensures r == LossyThird(a, x2, s)
  {
    hide Minus, ProductOf;
    var square := Product(s, s);
    var t := Sub(square, a.x);
    var nx := Sub(t, x2);
    var dx := Sub(a.x, nx);
    var u := Product(s, dx);
    var ny := Sub(u, a.y);
    r := LimbPoint(nx, ny, false);
  }

  /** Group operator+. */
  method AddLimbs(a: LimbPoint, b: LimbPoint) returns (r: LimbPoint)
    ensures r == LossySum(a, b)
    ensures AllKept(SumLog(a, b)) && a.Canonical() && b.Canonical() ==>
      r.Canonical() && r.Shown() == Add(a.Shown(), b.Shown(), P)
  {
    hide Minus, ProductOf, MultipleOf, QuotientOf, LossyThird, SumLog, Add, Value;
    if AllKept(SumLog(a, b)) && a.Canonical() && b.Canonical() {
      SumExact(a, b);
    }
    if a.infinity { return b; }
    if b.infinity { return a; }
    if a.x == b.x {
      if a.y != b.y { return NOWHERE; }
      if a.y == [0, 0, 0, 0] { return NOWHERE; }
      var square := Product(a.x, a.x);
      var slope := Multiple(square, 3);
      var double := Multiple(a.y, 2);
      slope := Quotient(slope, double);
      r := Third(a, a.x, slope);
      return;
    }
    var dy := Sub(b.y, a.y);
    var dx := Sub(b.x, a.x);
    var slope := Quotient(dy, dx);
    r := Third(a, b.x, slope);
  }

  // ---------- scalar multiplication ----------

  /** Double-and-add over the bits from 255 down to i. */
  ghost function LossyMultiple(a: LimbPoint, scalar: nat, i: nat): LimbPoint
    decreases 256 - i
  {
    if i >= 256 then NOWHERE
    else
      var r := LossyMultiple(a, scalar, i + 1);
      if Bit(scalar, i) == 1 then LossySum(LossySum(r, r), a) else LossySum(r, r)
  }

  ghost function MultipleLog(a: LimbPoint, scalar: nat, i: nat): Log
    decreases 256 - i
  {
    if i >= 256 then []
    else
      var r := LossyMultiple(a, scalar, i + 1);
      MultipleLog(a, scalar, i + 1) + SumLog(r, r) +
      if Bit(scalar, i) == 1 then SumLog(LossySum(r, r), a) else []
  }

  /** The sums of the step for bit i keep their borrows. */
  ghost predicate StepKept(a: LimbPoint, scalar: nat, i: nat) {
    var r := LossyMultiple(a, scalar, i + 1);
    AllKept(SumLog(r, r)) && (Bit(scalar, i) == 1 ==> AllKept(SumLog(LossySum(r, r), a)))
  }

  lemma {:induction false} MultipleLogKept(a: LimbPoint, scalar: nat, i: nat)
    requires i <= 256
    ensures AllKept(MultipleLog(a, scalar, i)) <==> forall j :: i <= j < 256 ==> StepKept(a, scalar, j)
    decreases 256 - i
  {
    hide SumLog, LossySum, AllKept, LossyMultiple;
    if i < 256 {
      MultipleLogKept(a, scalar, i + 1);
      var r := LossyMultiple(a, scalar, i + 1);
      var last := if Bit(scalar, i) == 1 then SumLog(LossySum(r, r), a) else [];
      KeptBoth(MultipleLog(a, scalar, i + 1) + SumLog(r, r), last);
      KeptBoth(MultipleLog(a, scalar, i + 1), SumLog(r, r));
      NothingToKeep();
      assert StepKept(a, scalar, i) <==> AllKept(SumLog(r, r)) && AllKept(last);
    } else {
      NothingToKeep();
    }
  }

  lemma NothingToKeep()
    ensures AllKept([])
  {
  }

  /** Unless some subtraction on the way loses a borrow, the code's loop holds the scalar multiple. */
  lemma {:induction false} MultipleIsTimes(a: LimbPoint, scalar: nat, i: nat)
    requires Prime(P) && Associative(P) && a.Canonical() && OnCurve(a.Shown(), P)
    requires scalar < Pow(2, 256) && i <= 256 && AllKept(MultipleLog(a, scalar, i))
    ensures var r := LossyMultiple(a, scalar, i);
      r.Canonical() && r.Shown() == Times(Rest(scalar, i), a.Shown(), P)
    decreases 256 - i
  {
    hide Add, OnCurve, Associative, Prime, Value, AllKept, LossySum, SumLog, Pow;
    if i == 256 {
      NowhereShown();
      RestEnds(scalar, 256);
    } else {
      var r := LossyMultiple(a, scalar, i + 1);
      var d := LossySum(r, r);
      var last := if Bit(scalar, i) == 1 then SumLog(d, a) else [];
      KeptBoth(MultipleLog(a, scalar, i + 1) + SumLog(r, r), last);
      KeptBoth(MultipleLog(a, scalar, i + 1), SumLog(r, r));
      MultipleIsTimes(a, scalar, i + 1);
      RestStep(scalar, i);
      TimesAdd(Rest(scalar, i + 1), Rest(scalar, i + 1), a.Shown(), P);
      SumExact(r, r);
      if Bit(scalar, i) == 1 {
        SumExact(d, a);
      }
    }
  }

  /** Group operator*. */
  method ScalarMulLimbs(a: LimbPoint, scalar: nat) returns (result: LimbPoint)
    requires scalar < Pow(2, 256)
    ensures result == LossyMultiple(a, scalar, 0)
    ensures Prime(P) && Associative(P) && a.Canonical() && OnCurve(a.Shown(), P) && AllKept(MultipleLog(a, scalar, 0))
      ==> result.Canonical() && result.Shown() == Times(scalar, a.Shown(), P)
  {
    hide Add, OnCurve, Associative, Prime, Value, AllKept, LossySum, SumLog, Times, Pow;
    result := NOWHERE;
    for i := 256 downto 0
      invariant result == LossyMultiple(a, scalar, i)
    {
      result := AddLimbs(result, result);
      if Bit(scalar, i) == 1 {
        result := AddLimbs(result, a);
      }
    }
    if Prime(P) && Associative(P) && a.Canonical() && OnCurve(a.Shown(), P) && AllKept(MultipleLog(a, scalar, 0)) {
      MultipleIsTimes(a, scalar, 0);
      RestAll(scalar);
    }
  }

  lemma RestAll(scalar: nat)
    ensures Rest(scalar, 0) == scalar
  {
    assert Pow(2, 0) == 1;
  }
}
