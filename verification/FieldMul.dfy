/** Multiplication in the secp256k1 base field: two-array schoolbook product, then reduction by folding
    2^256 = 0x1000003d1 (mod P). */
module FieldMul {
  import opened Numbers
  import opened Limbs

  const P: int := 0xFFFFFFFFFFFFFFFFFFFFFFFFFFFFFFFFFFFFFFFFFFFFFFFFFFFFFFFEFFFFFC2F
  const FOLD: int := 0x1000003d1
  const P_LIMBS: seq<Word> := [0xFFFFFFFEFFFFFC2F, BASE - 1, BASE - 1, BASE - 1]

  /** 2^256 = P + FOLD. */
  lemma FoldConstant()
    ensures Weight(4) == P + FOLD
  {
    WeightStep(0); WeightStep(1); WeightStep(2); WeightStep(3);
  }

  lemma PLimbsValue()
    ensures Value(P_LIMBS) == P
  {
    var s := P_LIMBS;
    assert s[..4] == s;
    ValueTake(s, 0); ValueTake(s, 1); ValueTake(s, 2); ValueTake(s, 3);
    WeightStep(0); WeightStep(1); WeightStep(2);
  }

  lemma {:induction false} ValueUpdate(s: seq<Word>, i: nat, d: Word)
    requires i < |s|
    ensures Value(s[i := d]) == Value(s) + (d - s[i]) * Weight(i)
  {
    var k := |s| - 1;
    if i == k {
      assert s[i := d][..k] == s[..k];
      assert d * Weight(i) == s[i] * Weight(i) + (d - s[i]) * Weight(i);
    } else {
      assert s[i := d][..k] == s[..k][i := d];
      ValueUpdate(s[..k], i, d);
    }
  }

  /** Replacing limb i by the low half of s[i] + t and carrying the high half. */
  lemma CarryUpdate(s: seq<Word>, i: nat, d: Word, t: int, k': int)
    requires i < |s| && d + k' * BASE == s[i] + t
    ensures Value(s[i := d]) + k' * Weight(i + 1) == Value(s) + t * Weight(i)
  {
    ValueUpdate(s, i, d);
    CarryAlgebra(d - s[i], k', BASE, t, Weight(i));
  }

  lemma CarryAlgebra(e: int, k': int, base: int, t: int, w: int)
    requires e + k' * base == t
    ensures e * w + k' * (base * w) == t * w
  {
    assert (e + k' * base) * w == e * w + k' * (base * w);
  }

  /** The inner pass of the 64-bit fold: low + high * FOLD, with the early exit on a zero carry. */
  method FoldPass(low: array<Word>, high: Word) returns (carry: Word)
    requires low.Length == 4
    modifies low
    ensures Value(low[..]) + carry * Weight(4) == Value(old(low[..])) + high * FOLD
  {
    ghost var was := low[..];
    var tmp := high * FOLD + low[0];
    assert tmp / BASE < BASE;
    var d: Word := tmp % BASE;
    low[0] := d;
    carry := tmp / BASE;
    assert low[..] == was[0 := d];
    CarryUpdate(was, 0, d, high * FOLD, carry);
    var i := 1;
    while i < 4 && carry != 0
      invariant 1 <= i <= 4
      invariant Value(low[..]) + carry * Weight(i) == Value(was) + high * FOLD
    {
      ghost var before, c := low[..], carry;
      var sum := (low[i] + carry) % BASE;
      carry := if sum <= low[i] then 1 else 0;
      low[i] := sum;
      assert low[..] == before[i := sum];
      CarryUpdate(before, i, sum, c, carry);
      i := i + 1;
    }
  }

  /** One pass removes high * P from low + high * 2^256: same residue, smaller total. */
  lemma FoldStep(low: nat, high: nat, low': nat, high': nat)
    requires low' + high' * Weight(4) == low + high * FOLD
    ensures (low' + high' * Weight(4)) % P == (low + high * Weight(4)) % P
    ensures high > 0 ==> low' + high' * Weight(4) < low + high * Weight(4)
  {
    FoldConstant();
    Distribute(high, P, FOLD);
    DropMultiple(low + high * Weight(4), high, P);
    if high > 0 {
      MulAtLeast(high, P);
    }
  }

  lemma DropMultiple(t: int, high: int, m: int)
    requires m > 0
    ensures (t - high * m) % m == t % m
  {
    ModShift(t, -high, m);
    assert (-high) * m == -(high * m);
  }

  /** The final conditional subtraction. */
  method Canonical(low: array<Word>)
    requires low.Length == 4
    modifies low
    ensures Value(low[..]) == Value(old(low[..])) % P
  {
    FoldConstant();
    PLimbsValue();
    ghost var v := Value(low[..]);
    if Value(low[..]) >= P {
      var borrow := SubRaw(low, P_LIMBS);
      DivModUnique(v, P, 1, v - P);
    } else {
      DivModUnique(v, P, 0, v);
    }
  }

  /** modReduce256k1FromParts(uint256_t&, uint64_t): folding ends and leaves the canonical residue. */
  method FoldWord(low: array<Word>, high0: Word)
    requires low.Length == 4
    modifies low
    ensures Value(low[..]) == (Value(old(low[..])) + high0 * Weight(4)) % P
  {
    var high: Word := high0;
    ghost var total := Value(low[..]) + high * Weight(4);
    while high != 0
      invariant (Value(low[..]) + high * Weight(4)) % P == total % P
      decreases Value(low[..]) + high * Weight(4)
    {
      ghost var before, h := Value(low[..]), high;
      high := FoldPass(low, high);
      FoldStep(before, h, Value(low[..]), high);
    }
    Canonical(low);
  }

  /** modReduce256k1FromParts(uint256_t&, uint256_t&): one 256-bit fold, then the 64-bit fold. */
  method FoldWide(low: array<Word>, high: array<Word>)
    requires low.Length == 4 && high.Length == 4 && low != high
    modifies low
    ensures Value(low[..]) == (Value(old(low[..])) + Value(high[..]) * Weight(4)) % P
  {
    ghost var was, hi := low[..], high[..];
    var carry: Word := 0;
    for i := 0 to 4
      invariant carry <= FOLD + 1
      invariant high[..] == hi
      invariant Value(low[..]) + carry * Weight(i) == Value(was) + Value(hi[..i]) * FOLD
    {
      ghost var before, c := low[..], carry;
      var tmp := high[i] * FOLD + carry + low[i];
      assert tmp / BASE <= FOLD + 1;
      var d: Word := tmp % BASE;
      low[i] := d;
      carry := tmp / BASE;
      assert low[..] == before[i := d];
      CarryUpdate(before, i, d, hi[i] * FOLD + c, carry);
      ValueTake(hi, i);
      FoldLimb(Value(hi[..i]), hi[i], FOLD, c, Weight(i));
    }
    assert hi[..4] == hi;
    FoldStep(Value(was), Value(hi), Value(low[..]), carry);
    FoldWord(low, carry);
  }

  lemma FoldLimb(v: int, h: int, f: int, c: int, w: int)
    ensures (v + h * w) * f == v * f + h * f * w
    ensures (h * f + c) * w == h * f * w + c * w
  {
    assert (v + h * w) * f == v * f + (h * w) * f;
    assert (h * w) * f == h * f * w;
  }

  /** One inner step of the product: limb k = i + j receives a * y[j] and the running carry. */
  lemma ProductStep(w: seq<Word>, i: nat, j: nat, a: Word, y: seq<Word>, d: Word, c: Word, c': Word, base: nat)
    requires j < |y| && i + j < |w|
    requires d + c' * BASE == a * y[j] + w[i + j] + c
    requires Value(w) + c * Weight(i + j) == base + a * Weight(i) * Value(y[..j])
    ensures Value(w[i + j := d]) + c' * Weight(i + j + 1) == base + a * Weight(i) * Value(y[..j + 1])
  {
    CarryUpdate(w, i + j, d, a * y[j] + c, c');
    ValueTake(y, j);
    PowAdd(BASE, i, j);
    ProductAlgebra(a, y[j], c, Weight(i), Weight(j), Value(y[..j]));
  }

  lemma ProductAlgebra(a: int, y: int, c: int, wi: int, wj: int, v: int)
    ensures (a * y + c) * (wi * wj) == a * wi * (y * wj) + c * (wi * wj)
    ensures a * wi * (v + y * wj) == a * wi * v + a * wi * (y * wj)
  {
    Distribute(a * wi, v, y * wj);
    assert (a * y + c) * (wi * wj) == (a * y) * (wi * wj) + c * (wi * wj);
    assert (a * y) * (wi * wj) == (a * wi) * (y * wj);
  }

  /** After row i the product has taken in limb i of x. */
  lemma RowDone(x: seq<Word>, i: nat, v: nat)
    requires i < |x|
    ensures Value(x[..i]) * v + x[i] * Weight(i) * v == Value(x[..i + 1]) * v
  {
    ValueTake(x, i);
    assert (Value(x[..i]) + x[i] * Weight(i)) * v == Value(x[..i]) * v + x[i] * Weight(i) * v;
  }

  /** 64-bit operands and two 64-bit addends never overflow the 128-bit accumulator. */
  lemma NoOverflow128(a: Word, b: Word, t: Word, c: Word)
    ensures 0 <= a * b + t + c < BASE * BASE
  {
    MulNonNegative(a, b);
    MulNonNegative(BASE - 1 - a, b);
    assert (BASE - 1 - a) * b == (BASE - 1) * b - a * b;
  }

  /** Row i of the schoolbook product. Limb i + j lives in the low array while i + j < 4 and in the
      folding array after that; the two inner loops are the two sides of that split. */
  method ProductRow(lo: array<Word>, hi: array<Word>, i: nat, a: Word, y: seq<Word>)
    requires lo.Length == 4 && hi.Length == 4 && lo != hi && |y| == 4 && i < 4
    requires hi[i] == 0
    modifies lo, hi
    ensures Value(lo[..] + hi[..]) == Value(old(lo[..] + hi[..])) + a * Weight(i) * Value(y)
    ensures forall k :: i < k < 4 ==> hi[k] == old(hi[k])
  {
    hide Value, Weight;
    ValueEmpty();
    ghost var base := Value(lo[..] + hi[..]);
    var carry: Word := 0;
    assert y[..0] == [];
    for j := 0 to 4 - i
      invariant Value(lo[..] + hi[..]) + carry * Weight(i + j) == base + a * Weight(i) * Value(y[..j])
      invariant hi[..] == old(hi[..])
    {
      ghost var w, c := lo[..] + hi[..], carry;
      NoOverflow128(a, y[j], lo[i + j], carry);
      var prod := a * y[j] + lo[i + j] + carry;
      var d: Word := prod % BASE;
      lo[i + j] := d;
      carry := prod / BASE;
      assert lo[..] + hi[..] == w[i + j := d];
      ProductStep(w, i, j, a, y, d, c, carry, base);
    }
    for j := 4 - i to 4
      invariant Value(lo[..] + hi[..]) + carry * Weight(i + j) == base + a * Weight(i) * Value(y[..j])
      invariant forall k :: i <= k < 4 ==> hi[k] == old(hi[k])
    {
      ghost var w, c := lo[..] + hi[..], carry;
      NoOverflow128(a, y[j], hi[i + j - 4], carry);
      var prod := a * y[j] + hi[i + j - 4] + carry;
      var d: Word := prod % BASE;
      hi[i + j - 4] := d;
      carry := prod / BASE;
      assert lo[..] + hi[..] == w[i + j := d];
      ProductStep(w, i, j, a, y, d, c, carry, base);
    }
    assert y[..4] == y;
    if carry != 0 {
      ghost var w := lo[..] + hi[..];
      hi[i] := carry;
      assert lo[..] + hi[..] == w[i + 4 := carry];
      ValueUpdate(w, i + 4, carry);
    }
  }

  /** operator* : the two arrays hold the exact 512-bit product, and the result is its residue. */
  method Mul(x: seq<Word>, y: seq<Word>) returns (accumulator: array<Word>)
    requires |x| == |y| == 4
    ensures fresh(accumulator) && accumulator.Length == 4
    ensures Value(accumulator[..]) == (Value(x) * Value(y)) % P
  {
    accumulator := new Word[4](_ => 0);
    var folder := new Word[4](_ => 0);
    ValueZero(accumulator[..] + folder[..]);
    for i := 0 to 4
      invariant Value(accumulator[..] + folder[..]) == Value(x[..i]) * Value(y)
      invariant forall k :: i <= k < 4 ==> folder[k] == 0
    {
      ProductRow(accumulator, folder, i, x[i], y);
      RowDone(x, i, Value(y));
    }
    assert x[..4] == x;
    ValueSplit(accumulator[..], folder[..]);
    FoldWide(accumulator, folder);
  }

  lemma {:induction false} ValueZero(s: seq<Word>)
    requires forall k :: 0 <= k < |s| ==> s[k] == 0
    ensures Value(s) == 0
  {
    if s == [] {
    } else {
      ValueZero(s[..|s| - 1]);
    }
  }

  lemma {:induction false} ValueSplit(lo: seq<Word>, hi: seq<Word>)
    ensures Value(lo + hi) == Value(lo) + Value(hi) * Weight(|lo|)
  {
    if hi == [] {
      assert lo + hi == lo;
    } else {
      var k := |hi| - 1;
      assert (lo + hi)[..|lo| + k] == lo + hi[..k];
      ValueSplit(lo, hi[..k]);
      PowAdd(BASE, |lo|, k);
      SplitAlgebra(Value(hi[..k]), hi[k], Weight(k), Weight(|lo|));
    }
  }

  lemma SplitAlgebra(v: int, d: int, w: int, wl: int)
    ensures v * wl + d * (wl * w) == (v + d * w) * wl
  {
    assert d * (wl * w) == (d * w) * wl;
  }

  /** What the 128-bit wraps of a negative factor leave behind: one unit two limbs up for each. */
  function Excess(wraps: seq<int>): int {
    if wraps == [] then 0
    else
      var k := |wraps| - 1;
      Excess(wraps[..k]) + wraps[k] * Weight(k + 2)
  }

  lemma ExcessSnoc(wraps: seq<int>, b: int)
    ensures Excess(wraps + [b]) == Excess(wraps) + b * Weight(|wraps| + 2)
  {
    assert (wraps + [b])[..|wraps|] == wraps;
  }

  predicate Wraps(wraps: seq<int>) {
    forall i :: 0 <= i < |wraps| ==> wraps[i] == 0 || wraps[i] == 1
  }

  /** No choice of wraps but none at all is a multiple of P. */
  lemma ExcessVanishes(wraps: seq<int>)
    requires |wraps| == 4 && Wraps(wraps)
    ensures Excess(wraps) % P == 0 <==> forall i :: 0 <= i < 4 ==> wraps[i] == 0
  {
    var a, b, c, d := wraps[0], wraps[1], wraps[2], wraps[3];
    ExcessFour(wraps);
    var small := a * Weight(2) + b * Weight(3) + c * FOLD + d * (FOLD * BASE);
    FoldedWeights();
    assert Excess(wraps) == small + (c + d * BASE) * P;
    ModShift(small, c + d * BASE, P);
    DivModUnique(small, P, 0, small);
  }

  lemma ExcessFour(wraps: seq<int>)
    requires |wraps| == 4
    ensures Excess(wraps) == wraps[0] * Weight(2) + wraps[1] * Weight(3) + wraps[2] * Weight(4) + wraps[3] * Weight(5)
  {
    ExcessSnoc([], wraps[0]);
    ExcessSnoc(wraps[..1], wraps[1]);
    ExcessSnoc(wraps[..2], wraps[2]);
    ExcessSnoc(wraps[..3], wraps[3]);
    assert wraps[..1] == [] + [wraps[0]] && wraps[..2] == wraps[..1] + [wraps[1]];
    assert wraps[..3] == wraps[..2] + [wraps[2]] && wraps == wraps[..3] + [wraps[3]];
  }

  lemma FoldedWeights()
    ensures Weight(4) == P + FOLD && Weight(5) == BASE * P + FOLD * BASE
    ensures 0 < Weight(2) && 0 < Weight(3) && Weight(2) + Weight(3) + FOLD + FOLD * BASE < P
  {
    FoldConstant();
    WeightStep(4);
  }

  /** operator*(int). A nonnegative factor gives the product; a negative one is widened to 2^128 minus its magnitude,
      and gives the product only of zero. */
  method MulSmall(x: seq<Word>, other: int) returns (accumulator: array<Word>)
    requires |x| == 4 && -0x8000_0000 <= other < 0x8000_0000
    ensures fresh(accumulator) && accumulator.Length == 4 && Value(accumulator[..]) < P
    ensures Value(accumulator[..]) == (Value(x) * other) % P <==> other >= 0 || Value(x) == 0
  {
    hide Excess, Value, Weight;
    accumulator := new Word[4](_ => 0);
    ValueZero(accumulator[..]);
    ValueEmpty();
    EmptyExcess();
    var carry: Word := 0;
    ghost var wraps: seq<int> := [];
    assert x[..0] == [];
    for i := 0 to 4
      invariant |wraps| == i && Wraps(wraps)
      invariant other >= 0 ==> carry < 0x8000_0000 && forall k :: 0 <= k < i ==> wraps[k] == 0
      invariant other < 0 && Value(x[..i]) == 0 ==> carry == 0 && forall k :: 0 <= k < i ==> wraps[k] == 0
      invariant other < 0 && Value(x[..i]) != 0 ==> exists k :: 0 <= k < i && wraps[k] == 1
      invariant forall k :: i <= k < 4 ==> accumulator[k] == 0
      invariant Value(accumulator[..]) + carry * Weight(i) == Value(x[..i]) * other + Excess(wraps)
    {
      ghost var before, c := accumulator[..], carry;
      var tmp := (x[i] * other + carry) % (BASE * BASE);
      ghost var b := SmallProduct(x[i], other, carry);
      var d: Word := tmp % BASE;
      accumulator[i] := d;
      carry := tmp / BASE;
      assert accumulator[..] == before[i := d];
      CarryUpdate(before, i, d, x[i] * other + c + b * (BASE * BASE), carry);
      ValueTake(x, i);
      PrefixZero(x, i);
      SignedLimb(Value(x[..i]), x[i], other, c, b, Weight(i));
      WeightStep(i);
      WeightStep(i + 1);
      ExcessSnoc(wraps, b);
      ghost var was := wraps;
      wraps := wraps + [b];
      assert forall k :: 0 <= k < i ==> wraps[k] == was[k];
      assert wraps[i] == b;
    }
    assert x[..4] == x;
    ExcessVanishes(wraps);
    FoldWord(accumulator, carry);
    OffBy(Value(x) * other, Excess(wraps));
  }

  lemma EmptyExcess()
    ensures Excess([]) == 0
  {
  }

  lemma OffBy(v: int, excess: int)
    ensures (v + excess) % P == v % P <==> excess % P == 0
  {
    if excess % P == 0 {
      ModShift(v, excess / P, P);
      assert excess == excess / P * P;
    }
    if (v + excess) % P == v % P {
      CongSub(v + excess, v, v, v, P);
      DivModUnique(0, P, 0, 0);
    }
  }

  lemma PrefixZero(x: seq<Word>, i: nat)
    requires i < |x|
    ensures Value(x[..i + 1]) == 0 <==> Value(x[..i]) == 0 && x[i] == 0
  {
    hide Value, Weight;
    ValueTake(x, i);
    var d: int, w: int := x[i], Weight(i);
    assert (d - 1) * w == d * w - w;
    if d > 0 {
      MulNonNegative(d - 1, w);
    }
  }

  lemma SignedLimb(v: int, h: int, f: int, c: int, b: int, w: int)
    ensures (v + h * w) * f == v * f + h * f * w
    ensures (h * f + c + b * (BASE * BASE)) * w == h * f * w + c * w + b * (BASE * (BASE * w))
  {
    FoldLimb(v, h, f, c, w);
    assert (h * f + c + b * (BASE * BASE)) * w == (h * f + c) * w + b * (BASE * BASE) * w;
    assert b * (BASE * BASE) * w == b * (BASE * (BASE * w));
  }

  /** One 128-bit product with an int: it wraps once if it is negative, and a nonnegative factor keeps the carry
      small. */
  lemma SmallProduct(a: Word, f: int, c: Word) returns (b: int)
    requires -0x8000_0000 <= f < 0x8000_0000 && (f >= 0 ==> c < 0x8000_0000)
    ensures b == if a * f + c < 0 then 1 else 0
    ensures (a * f + c) % (BASE * BASE) == a * f + c + b * (BASE * BASE) < BASE * BASE
    ensures f >= 0 ==> b == 0 && (a * f + c) / BASE < 0x8000_0000
    ensures f < 0 && a == 0 ==> b == 0 && (a * f + c) / BASE == 0
    ensures f < 0 && a > 0 && c == 0 ==> b == 1
  {
    var m := if f >= 0 then f else 0 - f;
    MulNonNegative(a, m);
    MulNonNegative(BASE - 1 - a, m);
    assert (BASE - 1 - a) * m == (BASE - 1) * m - a * m;
    assert a * f == if f >= 0 then a * m else 0 - a * m;
    b := if a * f + c < 0 then 1 else 0;
    DivModUnique(a * f + c, BASE * BASE, 0 - b, a * f + c + b * (BASE * BASE));
    if a > 0 && f < 0 {
      MulNonNegative(a - 1, m);
      assert (a - 1) * m == a * m - m;
    }
  }

  /** A field subtraction that comes out wrong: 2^128 less 2^128 - 2^64 + 1. */
  lemma WrongDifference()
    ensures var x, other := [0, 0, 1, 0], [1, BASE - 1, 0, 0];
      && Value(x) < P && Value(other) < P
      && Value(LossyDifference(x, other, P_LIMBS)) != (Value(x) - Value(other)) % P
  {
    hide LossyDifference, Value, BorrowsKept;
    LostBorrowExists();
    PLimbsValue();
    BelowP();
    LossyExact([0, 0, 1, 0], [1, BASE - 1, 0, 0], P_LIMBS);
  }

  lemma BelowP()
    ensures Weight(3) < P
  {
  }
}
