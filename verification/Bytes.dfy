/** Big-endian bytes of a natural number. */
module Bytes {
  import Numbers

  type Byte = x: int | 0 <= x < 256

  /** The low n bytes of w, most significant first. */
  function ToBytes(w: int, n: nat): (s: seq<Byte>)
    ensures |s| == n
    decreases n
  {
    if n == 0 then [] else ToBytes(w / 256, n - 1) + [w % 256]
  }

  function FromBytes(s: seq<Byte>): (v: nat) {
    if s == [] then 0 else FromBytes(s[..|s| - 1]) * 256 + s[|s| - 1]
  }

  lemma {:induction false} BytesRoundTrip(w: nat, n: nat)
    requires w < Numbers.Pow(256, n)
    ensures FromBytes(ToBytes(w, n)) == w
  {
    if n > 0 {
      var s := ToBytes(w / 256, n - 1);
      assert (s + [w % 256])[..n - 1] == s;
      BytesRoundTrip(w / 256, n - 1);
    }
  }

  /** The first byte is the most significant one. */
  lemma {:induction false} FirstByte(b: Byte, s: seq<Byte>)
    ensures FromBytes([b] + s) == b * Numbers.Pow(256, |s|) + FromBytes(s)
    decreases |s|
  {
    var t := [b] + s;
    if s == [] {
      assert t[..0] == [] && t[0] == b;
    } else {
      var k := |s| - 1;
      assert t[..k + 1] == [b] + s[..k];
      FirstByte(b, s[..k]);
      assert (b * Numbers.Pow(256, k)) * 256 == b * (256 * Numbers.Pow(256, k));
    }
  }

  // ---------- bits, highest first ----------

  /** The low n bits of v, the one for 1 last. */
  function NumberBits(v: nat, n: nat): (s: seq<bool>)
    ensures |s| == n
  {
    if n == 0 then [] else NumberBits(v / 2, n - 1) + [v % 2 == 1]
  }

  function Bits(s: seq<Byte>): (t: seq<bool>)
    ensures |t| == 8 * |s|
  {
    if s == [] then [] else Bits(s[..|s| - 1]) + NumberBits(s[|s| - 1], 8)
  }

  /** The number these bits stand for, the last one for 1. */
  function BitsValue(s: seq<bool>): nat {
    if s == [] then 0 else 2 * BitsValue(s[..|s| - 1]) + if s[|s| - 1] then 1 else 0
  }

  lemma {:induction false} NumberValue(v: nat, n: nat)
    requires v < Numbers.Pow(2, n)
    ensures BitsValue(NumberBits(v, n)) == v
  {
    if n > 0 {
      NumberValue(v / 2, n - 1);
      var s := NumberBits(v / 2, n - 1);
      assert (s + [v % 2 == 1])[..n - 1] == s;
    }
  }

  lemma {:induction false} ValueAppend(s: seq<bool>, t: seq<bool>)
    ensures BitsValue(s + t) == Numbers.Pow(2, |t|) * BitsValue(s) + BitsValue(t)
  {
    if t == [] {
      assert s + t == s;
    } else {
      var k := |t| - 1;
      assert (s + t)[..|s| + k] == s + t[..k];
      ValueAppend(s, t[..k]);
      DoubleProduct(Numbers.Pow(2, k), BitsValue(s));
    }
  }

  lemma DoubleProduct(x: int, y: int)
    ensures 2 * (x * y) == (2 * x) * y
  {
  }

  lemma TwoToEight()
    ensures Numbers.Pow(2, 8) == 256
  {
    Numbers.PowSquare(2, 4);
    Numbers.PowSquare(4, 2);
    Numbers.PowSquare(16, 1);
  }

  lemma MarkBits()
    ensures NumberBits(0x80, 8) == [true] + seq(7, _ => false)
  {
    assert NumberBits(1, 1) == NumberBits(0, 0) + [true] == [true];
    assert NumberBits(2, 2) == [true, false];
    assert NumberBits(4, 3) == [true, false, false];
    assert NumberBits(8, 4) == [true, false, false, false];
    assert NumberBits(16, 5) == [true, false, false, false, false];
    assert NumberBits(32, 6) == [true, false, false, false, false, false];
    assert NumberBits(64, 7) == [true, false, false, false, false, false, false];
  }

  lemma {:induction false} ZeroNumber(n: nat)
    ensures NumberBits(0, n) == seq(n, _ => false)
  {
    if n > 0 {
      ZeroNumber(n - 1);
    }
  }

  lemma NoBits()
    ensures BitsValue([]) == 0
  {
  }

  /** The high n of n + k bits, then the low k. */
  lemma {:induction false} SplitBits(v: nat, n: nat, k: nat, w: nat)
    requires w == Numbers.Pow(2, k) > 0
    ensures NumberBits(v, n + k) == NumberBits(v / w, n) + NumberBits(v % w, k)
    decreases k
  {
    if k > 0 {
      var u := Numbers.Pow(2, k - 1);
      Numbers.PowPositive(2, k - 1);
      HalveSplit(v, w, u);
      SplitBits(v / 2, n, k - 1, u);
      assert NumberBits(v, n + k) == NumberBits(v / 2, n + (k - 1)) + [v % 2 == 1];
    }
  }

  lemma HalveSplit(v: nat, w: nat, u: nat)
    requires w == 2 * u && u > 0
    ensures v / 2 / u == v / w && v / 2 % u == v % w / 2 && v % 2 == v % w % 2
  {
    var q, r := v / w, v % w;
    assert v == q * w + r;
    assert q * w == 2 * (q * u);
    assert v / 2 == q * u + r / 2;
    Numbers.DivModUnique(v / 2, u, q, r / 2);
  }

  /** Bytes, most significant first, are bits, most significant first. */
  lemma {:induction false} BytesNumber(v: nat, n: nat)
    ensures Bits(ToBytes(v, n)) == NumberBits(v, 8 * n)
  {
    hide NumberBits;
    if n > 0 {
      var s := ToBytes(v / 256, n - 1);
      assert (s + [v % 256])[..n - 1] == s;
      BytesNumber(v / 256, n - 1);
      TwoToEight();
      SplitBits(v, 8 * (n - 1), 8, 256);
    } else {
      assert NumberBits(v, 0) == [];
    }
  }

  /** Bits and bytes stand for the same number. */
  lemma {:induction false} SameValue(s: seq<Byte>)
    ensures BitsValue(Bits(s)) == FromBytes(s)
  {
    hide NumberBits, BitsValue, Numbers.Pow;
    if s == [] {
      NoBits();
    } else {
      SameValue(s[..|s| - 1]);
      TwoToEight();
      ValueAppend(Bits(s[..|s| - 1]), NumberBits(s[|s| - 1], 8));
      NumberValue(s[|s| - 1], 8);
    }
  }

  lemma {:induction false} BitsAppend(s: seq<Byte>, t: seq<Byte>)
    ensures Bits(s + t) == Bits(s) + Bits(t)
  {
    hide NumberBits;
    if t == [] {
      assert s + t == s;
    } else {
      var k := |t| - 1;
      assert (s + t)[..|s| + k] == s + t[..k];
      BitsAppend(s, t[..k]);
      assert Bits(s) + (Bits(t[..k]) + NumberBits(t[k], 8)) == Bits(s) + Bits(t[..k]) + NumberBits(t[k], 8);
    }
  }

  lemma {:induction false} ZeroBits(n: nat)
    ensures Bits(seq<Byte>(n, _ => 0)) == seq(8 * n, _ => false)
  {
    hide NumberBits;
    if n > 0 {
      var s := seq<Byte>(n, _ => 0);
      assert s[..n - 1] == seq<Byte>(n - 1, _ => 0);
      ZeroBits(n - 1);
      ZeroNumber(8);
    }
  }

  lemma {:induction false} FromBytesBound(s: seq<Byte>)
    ensures FromBytes(s) < Numbers.Pow(256, |s|)
  {
    if s != [] {
      FromBytesBound(s[..|s| - 1]);
    }
  }

  lemma {:induction false} PowMonotone(m: nat, n: nat)
    requires m <= n
    ensures Numbers.Pow(256, m) <= Numbers.Pow(256, n)
    decreases n
  {
    if m < n {
      PowMonotone(m, n - 1);
      Numbers.PowPositive(256, n - 1);
    }
  }

  lemma PowEight()
    ensures Numbers.Pow(256, 8) == 0x1_0000_0000_0000_0000
  {
    Numbers.PowSquare(256, 4);
    Numbers.PowSquare(0x1_0000, 2);
    Numbers.PowSquare(0x1_0000_0000, 1);
  }
}
