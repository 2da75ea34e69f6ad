/** Fixed-width unsigned integers held as little-endian arrays of 64-bit limbs, with the carry and
    borrow chains of the field and scalar classes, for any number of limbs. */
module Limbs {
  import opened Numbers

  const BASE: int := 0x1_0000_0000_0000_0000

  type Word = x: int | 0 <= x < BASE

  /** The weight of limb i. */
  function Weight(i: nat): (w: nat)
    ensures w > 0
  {
    PowPositive(BASE, i);
    Pow(BASE, i)
  }

  lemma WeightStep(i: nat)
    ensures Weight(i + 1) == BASE * Weight(i)
  {
  }

  /** The integer a little-endian limb sequence stands for. */
  function Value(s: seq<Word>): (v: nat)
    ensures v < Weight(|s|)
  {
    if s == [] then 0
    else
      var k := |s| - 1;
      TopLimbBound(BASE, Value(s[..k]), s[k], Weight(k));
      Value(s[..k]) + s[k] * Weight(k)
  }

  lemma TopLimbBound(base: int, low: int, top: int, w: int)
    requires 0 <= low < w && 0 <= top < base
    ensures 0 <= low + top * w < base * w
  {
    MulNonNegative(top, w);
    MulNonNegative(base - 1 - top, w);
    assert (base - 1 - top) * w == base * w - w - top * w;
  }

  lemma MulNonNegative(x: int, y: int)
    requires x >= 0 && y >= 0
    ensures x * y >= 0
  {
  }

  lemma ValueEmpty()
    ensures Value([]) == 0
  {
  }

  lemma ValueSnoc(s: seq<Word>, d: Word)
    ensures Value(s + [d]) == Value(s) + d * Weight(|s|)
  {
    assert (s + [d])[..|s|] == s;
  }

  lemma ValueTake(s: seq<Word>, i: nat)
    requires i < |s|
    ensures Value(s[..i + 1]) == Value(s[..i]) + s[i] * Weight(i)
  {
    assert s[..i + 1] == s[..i] + [s[i]];
    ValueSnoc(s[..i], s[i]);
  }

  /** One step of a carry chain over three limb sequences, x + y = z with carries k in and k' out. */
  lemma ChainStep(x: seq<Word>, y: seq<Word>, z: seq<Word>, i: nat, k: int, k': int, extra: int)
    requires i < |x| && i < |y| && i < |z|
    requires Value(x[..i]) + Value(y[..i]) == Value(z[..i]) + k * Weight(i) + extra
    requires x[i] + y[i] + k == z[i] + k' * BASE
    ensures Value(x[..i + 1]) + Value(y[..i + 1]) == Value(z[..i + 1]) + k' * Weight(i + 1) + extra
  {
    ValueTake(x, i);
    ValueTake(y, i);
    ValueTake(z, i);
    ChainAlgebra(x[i], y[i], k, z[i], k', BASE, Weight(i));
  }

  lemma ChainAlgebra(x: int, y: int, k: int, z: int, k': int, base: int, w: int)
    requires x + y + k == z + k' * base
    ensures x * w + y * w + k * w == z * w + k' * (base * w)
  {
    assert (x + y + k) * w == x * w + y * w + k * w;
    assert (z + k' * base) * w == z * w + k' * (base * w);
  }

  /** The carry into limb i, by the test of the addition loop. */
  function CarryInto(x: seq<Word>, y: seq<Word>, i: nat): (c: Word)
    requires i <= |x| == |y|
    ensures c <= 1
  {
    if i == 0 then 0
    else
      var c := CarryInto(x, y, i - 1);
      var sum := (x[i - 1] + y[i - 1] + c) % BASE;
      if sum < x[i - 1] || (c != 0 && sum == x[i - 1]) then 1 else 0
  }

  function Sums(x: seq<Word>, y: seq<Word>): (s: seq<Word>)
    requires |x| == |y|
    ensures |s| == |x|
  {
    seq<Word>(|x|, i requires 0 <= i < |x| => (x[i] + y[i] + CarryInto(x, y, i)) % BASE)
  }

  lemma SumsLimb(x: seq<Word>, y: seq<Word>, i: nat)
    requires i < |x| == |y|
    ensures var c := CarryInto(x, y, i);
      var sum := (x[i] + y[i] + c) % BASE;
      && Sums(x, y)[i] == sum && sum + CarryInto(x, y, i + 1) * BASE == x[i] + y[i] + c
      && CarryInto(x, y, i + 1) == if sum < x[i] || (c != 0 && sum == x[i]) then 1 else 0
  {
  }

  lemma NoCarry(x: seq<Word>, y: seq<Word>)
    requires |x| == |y|
    ensures CarryInto(x, y, 0) == 0
  {
  }

  lemma {:induction false} SumsBelow(x: seq<Word>, y: seq<Word>, i: nat)
    requires i <= |x| == |y|
    ensures Value(x[..i]) + Value(y[..i]) == Value(Sums(x, y)[..i]) + CarryInto(x, y, i) * Weight(i) + 0
  {
    hide Value, Weight, Sums, CarryInto;
    if i == 0 {
      ValueEmpty();
      NoCarry(x, y);
    } else {
      SumsBelow(x, y, i - 1);
      SumsLimb(x, y, i - 1);
      ChainStep(x, y, Sums(x, y), i - 1, CarryInto(x, y, i - 1), CarryInto(x, y, i), 0);
    }
  }

  /** The carry out makes the sum exact. */
  lemma SumsExact(x: seq<Word>, y: seq<Word>)
    requires |x| == |y|
    ensures Value(Sums(x, y)) + CarryInto(x, y, |x|) * Weight(|x|) == Value(x) + Value(y)
  {
    hide Value, Weight, Sums, CarryInto;
    SumsBelow(x, y, |x|);
    assert x[..|x|] == x && y[..|x|] == y && Sums(x, y)[..|x|] == Sums(x, y);
  }

  /** In-place addition. */
  method AddRaw(a: array<Word>, other: seq<Word>) returns (carry: Word)
    requires a.Length == |other|
    modifies a
    ensures carry <= 1
    ensures Value(a[..]) + carry * Weight(a.Length) == Value(old(a[..])) + Value(other)
    ensures a[..] == Sums(old(a[..]), other) && carry == CarryInto(old(a[..]), other, |other|)
  {
    hide Value, Weight, Sums, CarryInto;
    ghost var was := a[..];
    NoCarry(was, other);
    carry := 0;
    for i := 0 to a.Length
      invariant a[i..] == was[i..]
      invariant carry == CarryInto(was, other, i) && a[..i] == Sums(was, other)[..i]
    {
      ghost var lo := a[..i];
      var x, b := a[i], other[i];
      assert x == was[i];
      var sum := (x + b + carry) % BASE;
      carry := if sum < x || (carry != 0 && sum == x) then 1 else 0;
      a[i] := sum;
      assert a[..][..i] == lo && a[..][..i + 1] == a[..i + 1];
      SumsLimb(was, other, i);
      assert Sums(was, other)[..i + 1] == Sums(was, other)[..i] + [sum];
    }
    assert a[..a.Length] == a[..] && Sums(was, other)[..a.Length] == Sums(was, other);
    SumsExact(was, other);
  }

  /** In-place subtraction; the borrow out makes it exact. */
  method SubRaw(a: array<Word>, other: seq<Word>) returns (borrow: Word)
    requires a.Length == |other|
    modifies a
    ensures borrow <= 1
    ensures Value(a[..]) + Value(other) == Value(old(a[..])) + borrow * Weight(a.Length)
  {
    hide Value, Weight;
    ValueEmpty();
    assert a[..0] == [] && other[..0] == [];
    borrow := 0;
    ghost var was := a[..];
    for i := 0 to a.Length
      invariant borrow <= 1
      invariant a[i..] == was[i..]
      invariant Value(a[..i]) + Value(other[..i]) == Value(was[..i]) + borrow * Weight(i) + 0
    {
      ghost var lo, c := a[..i], borrow;
      var x, b := a[i], other[i];
      assert x == was[i];
      var diff := (x - b - borrow) % BASE;
      borrow := if x < b || (borrow != 0 && x == b) then 1 else 0;
      a[i] := diff;
      assert a[..][..i] == lo && a[..][..i + 1] == a[..i + 1];
      ChainStep(a[..], other, was, i, c, borrow, 0);
    }
    assert a[..a.Length] == a[..] && was[..a.Length] == was && other[..a.Length] == other;
  }

  /** Copying the limbs of a value into a fresh array, as the copy constructors do. */
  method Copy(s: seq<Word>) returns (a: array<Word>)
    ensures fresh(a) && a[..] == s
  {
    a := new Word[|s|](i requires 0 <= i < |s| => s[i]);
  }

  /** operator+ : one addition and at most one subtraction of the modulus. */
  method ModAdd(x: seq<Word>, other: seq<Word>, p: seq<Word>) returns (out: array<Word>)
    requires |x| == |other| == |p| && Value(p) > 0
    ensures fresh(out) && out.Length == |x|
    ensures Value(x) + Value(other) < 2 * Value(p) ==> Value(out[..]) == (Value(x) + Value(other)) % Value(p)
  {
    hide Sums, Weight, Value;
    out := Copy(x);
    var carry := AddRaw(out, other);
    ghost var w: int, s, P, v := Weight(|x|), Value(x) + Value(other), Value(p), Value(out[..]);
    BitTimes(carry, w);
    ghost var q := 0;
    if carry != 0 || Value(out[..]) >= Value(p) {
      q := 1;
      var borrow := SubRaw(out, p);
      BitTimes(borrow, w);
    }
    if s < 2 * P {
      DivModUnique(s, P, q, Value(out[..]));
    }
  }

  /** No limb of b that is all ones receives a borrow. */
  predicate BorrowsKept(a: seq<Word>, b: seq<Word>)
    requires |a| == |b|
  {
    BorrowsKeptBelow(a, b, |b|)
  }

  predicate BorrowsKeptBelow(a: seq<Word>, b: seq<Word>, n: nat)
    requires n <= |a| == |b|
  {
    n == 0 ||
    (BorrowsKeptBelow(a, b, n - 1) && (b[n - 1] == BASE - 1 ==> Value(b[..n - 1]) <= Value(a[..n - 1])))
  }

  /** The wrapping borrow test is exact except on an all-ones limb that receives a borrow. */
  lemma LooseBorrow(a: Word, b: Word, c: Word)
    requires c <= 1
    ensures var borrow := if a < (b + c) % BASE then 1 else 0;
            if b == BASE - 1 && c == 1 then borrow == 0 && (a - b - c) % BASE + b + c == a + BASE
            else (a - b - c) % BASE + b + c == a + borrow * BASE
  {
  }

  /** With nothing lost so far, the borrow into limb i says which prefix is larger. */
  lemma BorrowCompares(r: seq<Word>, other: seq<Word>, x: seq<Word>, i: nat, c: Word)
    requires i <= |r| == |x| == |other| && c <= 1
    requires Value(r[..i]) + Value(other[..i]) == Value(x[..i]) + c * Weight(i) + 0
    ensures c == 1 <==> Value(x[..i]) < Value(other[..i])
  {
    assert Value(r[..i]) < Weight(i);
  }

  /** The borrow into limb i, by the wrapping test of operator-. */
  function BorrowInto(x: seq<Word>, y: seq<Word>, i: nat): (c: Word)
    requires i <= |x| == |y|
    ensures c <= 1
  {
    if i == 0 then 0
    else if x[i - 1] < (y[i - 1] + BorrowInto(x, y, i - 1)) % BASE then 1
    else 0
  }

  function LossyLimbs(x: seq<Word>, y: seq<Word>): (d: seq<Word>)
    requires |x| == |y|
    ensures |d| == |x|
  {
    seq<Word>(|x|, i requires 0 <= i < |x| => (x[i] - y[i] - BorrowInto(x, y, i)) % BASE)
  }

  /** What operator- gives, lost borrows and all. */
  function LossyDifference(x: seq<Word>, y: seq<Word>, p: seq<Word>): (d: seq<Word>)
    requires |x| == |y| == |p|
    ensures |d| == |x|
  {
    if BorrowInto(x, y, |x|) == 0 then LossyLimbs(x, y) else Sums(LossyLimbs(x, y), p)
  }

  lemma SubStep(x: seq<Word>, other: seq<Word>, r: seq<Word>, i: nat, c: Word, lost: nat) returns (more: nat)
    requires i < |r| == |x| == |other| && c <= 1
    requires Value(r[..i]) + Value(other[..i]) == Value(x[..i]) + c * Weight(i) + 2 * lost
    requires r[i] == (x[i] - other[i] - c) % BASE
    ensures var borrow := if x[i] < (other[i] + c) % BASE then 1 else 0;
            Value(r[..i + 1]) + Value(other[..i + 1]) == Value(x[..i + 1]) + borrow * Weight(i + 1) + 2 * more
    ensures more >= lost && (more > lost <==> other[i] == BASE - 1 && c == 1)
  {
    LooseBorrow(x[i], other[i], c);
    more := lost;
    if other[i] == BASE - 1 && c == 1 {
      ChainStep(r, other, x, i, c, 1, 2 * lost);
      more := lost + BASE / 2 * Weight(i);
    } else {
      ChainStep(r, other, x, i, c, if x[i] < (other[i] + c) % BASE then 1 else 0, 2 * lost);
    }
  }

  lemma LossyLimb(x: seq<Word>, y: seq<Word>, i: nat)
    requires i < |x| == |y|
    ensures var c := BorrowInto(x, y, i);
      && LossyLimbs(x, y)[i] == (x[i] - y[i] - c) % BASE
      && BorrowInto(x, y, i + 1) == if x[i] < (y[i] + c) % BASE then 1 else 0
  {
  }

  lemma NoBorrow(x: seq<Word>, y: seq<Word>)
    requires |x| == |y|
    ensures BorrowInto(x, y, 0) == 0
  {
  }

  lemma KeptStep(x: seq<Word>, y: seq<Word>, i: nat)
    requires i < |x| == |y|
    ensures BorrowsKeptBelow(x, y, 0)
    ensures BorrowsKeptBelow(x, y, i + 1) <==>
      BorrowsKeptBelow(x, y, i) && (y[i] == BASE - 1 ==> Value(y[..i]) <= Value(x[..i]))
  {
    hide Value;
  }

  lemma NothingLost(x: seq<Word>, y: seq<Word>)
    requires |x| == |y|
    ensures Value(LossyLimbs(x, y)[..0]) + Value(y[..0]) == Value(x[..0]) + BorrowInto(x, y, 0) * Weight(0) + 2 * 0
    ensures BorrowsKeptBelow(x, y, 0)
  {
    hide Weight, LossyLimbs;
    assert x[..0] == [] && y[..0] == [] && LossyLimbs(x, y)[..0] == [];
  }

  lemma {:induction false} LossyBelow(x: seq<Word>, y: seq<Word>, i: nat) returns (lost: nat)
    requires i <= |x| == |y|
    ensures Value(LossyLimbs(x, y)[..i]) + Value(y[..i]) ==
      Value(x[..i]) + BorrowInto(x, y, i) * Weight(i) + 2 * lost
    ensures lost == 0 <==> BorrowsKeptBelow(x, y, i)
  {
    hide Value, Weight, LossyLimbs, BorrowInto, BorrowsKeptBelow;
    if i == 0 {
      NothingLost(x, y);
      lost := 0;
    } else {
      var c, r := BorrowInto(x, y, i - 1), LossyLimbs(x, y);
      var before := LossyBelow(x, y, i - 1);
      LossyLimb(x, y, i - 1);
      KeptStep(x, y, i - 1);
      lost := SubStep(x, y, r, i - 1, c, before);
      if before == 0 {
        BorrowCompares(r, y, x, i - 1, c);
      }
    }
  }

  /** Each lost borrow leaves its (even) weight behind; lost is half of what was left. */
  lemma LossyTotal(x: seq<Word>, y: seq<Word>) returns (lost: nat)
    requires |x| == |y|
    ensures Value(LossyLimbs(x, y)) + Value(y) == Value(x) + BorrowInto(x, y, |x|) * Weight(|x|) + 2 * lost
    ensures lost == 0 <==> BorrowsKept(x, y)
  {
    hide Value, Weight, LossyLimbs, BorrowInto, BorrowsKeptBelow;
    lost := LossyBelow(x, y, |x|);
    assert x[..|x|] == x && y[..|x|] == y && LossyLimbs(x, y)[..|x|] == LossyLimbs(x, y);
  }

  /** The limb loop of operator-, whose borrow test is x < b + borrow with a wrapping sum. */
  method SubLoop(x: seq<Word>, other: seq<Word>) returns (result: array<Word>, borrow: Word, ghost lost: nat)
    requires |x| == |other|
    ensures fresh(result) && result.Length == |x| && borrow <= 1
    ensures Value(result[..]) + Value(other) == Value(x) + borrow * Weight(|x|) + 2 * lost
    ensures lost == 0 <==> BorrowsKept(x, other)
    ensures result[..] == LossyLimbs(x, other) && borrow == BorrowInto(x, other, |x|)
  {
    hide Value, Weight, LossyLimbs, BorrowInto, BorrowsKept;
    result := new Word[|x|];
    NoBorrow(x, other);
    borrow := 0;
    for i := 0 to |x|
      invariant borrow == BorrowInto(x, other, i) && result[..i] == LossyLimbs(x, other)[..i]
    {
      ghost var lo := result[..i];
      var diff := (x[i] - other[i] - borrow) % BASE;
      borrow := if x[i] < (other[i] + borrow) % BASE then 1 else 0;
      result[i] := diff;
      assert result[..][..i] == lo && result[..][..i + 1] == result[..i + 1];
      LossyLimb(x, other, i);
      assert LossyLimbs(x, other)[..i + 1] == LossyLimbs(x, other)[..i] + [diff];
    }
    assert result[..|x|] == result[..] && LossyLimbs(x, other)[..|x|] == LossyLimbs(x, other);
    lost := LossyTotal(x, other);
  }

  /** What the final correction by P makes of a difference that is off by 2 * lost. */
  lemma SubOutcome(x: int, o: int, P: int, w: int, r0: int, borrow: int, lost: nat, carry: int, r: int)
    requires 0 <= x < P < w && 0 <= o < P && P % 2 == 1 && 0 <= r0 < w && 0 <= r < w
    requires r0 + o == x + (if borrow == 0 then 0 else w) + 2 * lost
    requires if borrow == 0 then r == r0 else r + (if carry == 0 then 0 else w) == r0 + P
    ensures r == (x - o) % P <==> lost == 0
  {
    DivModUnique(x - o, P, if x < o then -1 else 0, if x < o then x - o + P else x - o);
  }

  /** The difference of canonical operands comes out right exactly when no all-ones limb receives a borrow. */
  lemma LossyExact(x: seq<Word>, other: seq<Word>, p: seq<Word>)
    requires |x| == |other| == |p|
    requires Value(p) % 2 == 1 && Value(x) < Value(p) && Value(other) < Value(p)
    ensures Value(LossyDifference(x, other, p)) == (Value(x) - Value(other)) % Value(p) <==> BorrowsKept(x, other)
  {
    hide Sums, LossyLimbs, BorrowInto, CarryInto, Weight, BorrowsKept, Value;
    var lost := LossyTotal(x, other);
    var d, w: int, borrow := LossyLimbs(x, other), Weight(|x|), BorrowInto(x, other, |x|);
    var carry := CarryInto(d, p, |d|);
    BitTimes(borrow, w);
    SumsExact(d, p);
    BitTimes(carry, w);
    SubOutcome(Value(x), Value(other), Value(p), w, Value(d), borrow, lost, carry, Value(LossyDifference(x, other, p)));
  }

  /** operator-. */
  method ModSub(x: seq<Word>, other: seq<Word>, p: seq<Word>) returns (result: array<Word>)
    requires |x| == |other| == |p|
    ensures fresh(result) && result.Length == |x|
    ensures Value(p) % 2 == 1 && Value(x) < Value(p) && Value(other) < Value(p) ==>
      (Value(result[..]) == (Value(x) - Value(other)) % Value(p) <==> BorrowsKept(x, other))
    ensures result[..] == LossyDifference(x, other, p)
  {
    hide Sums, LossyLimbs, BorrowInto, Weight, BorrowsKept, Value;
    var borrow; ghost var lost;
    result, borrow, lost := SubLoop(x, other);
    if borrow != 0 {
      // the difference was negative
      var carry := AddRaw(result, p);
    }
    assert result[..] == LossyDifference(x, other, p);
    hide LossyDifference;
    if Value(p) % 2 == 1 && Value(x) < Value(p) && Value(other) < Value(p) {
      LossyExact(x, other, p);
    }
  }

  lemma BitTimes(b: Word, w: int)
    requires b <= 1
    ensures b * w == if b == 0 then 0 else w
  {
  }

  /** The condition of ModSub does fail on canonical operands: 2^128 - (2^128 - 2^64 + 1) loses a borrow. */
  lemma LostBorrowExists()
    ensures var x, other := [0, 0, 1, 0], [1, BASE - 1, 0, 0];
      !BorrowsKept(x, other) && Value(x) < Weight(3) && Value(other) < Weight(3)
  {
    var x, other := [0, 0, 1, 0], [1, BASE - 1, 0, 0];
    ValueTake(x, 0);
    ValueTake(other, 0);
    assert x[..3] == [0, 0, 1] && other[..3] == [1, BASE - 1, 0];
    assert Value(x) == Value(x[..3]) + 0 * Weight(3);
    assert Value(other) == Value(other[..3]) + 0 * Weight(3);
    assert !BorrowsKeptBelow(x, other, 2);
    assert !BorrowsKeptBelow(x, other, 3);
  }
}
