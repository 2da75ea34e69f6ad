/** Streaming SHA-256: buffering, padding and length counting around an arbitrary compression function. */
module Sha256 {
  import Numbers
  import opened Bytes

  type Word = w: int | 0 <= w < 0x1_0000_0000
  type State = s: seq<Word> | |s| == 8 witness seq(8, _ => 0)
  type Compression = (State, seq<Byte>) -> State

  const BLOCK: nat := 64
  const MARK: seq<Byte> := [0x80]
  const DIGIT: nat := 0x1_0000
  /** Messages below this many bytes have a bit length that fits in 64 bits. */
  const LENGTH_LIMIT: nat := 0x2000_0000_0000_0000

  // ---------- sections 5.1.1 and 6.2 of FIPS 180-4 ----------

  function Zeros(n: nat): (s: seq<Byte>)
    ensures |s| == n && forall i :: 0 <= i < n ==> s[i] == 0
  {
    seq(n, _ => 0)
  }

  /** The one-bit, the fewest zeros that complete a block, and the length in bits. */
  function Suffix(length: nat): seq<Byte> {
    MARK + Zeros((55 - length) % BLOCK) + ToBytes(8 * length, 8)
  }

  function Pad(message: seq<Byte>): seq<Byte> {
    message + Suffix(|message|)
  }

  /** Compresses the whole blocks of s in order. */
  function Fold(block: Compression, h: State, s: seq<Byte>): State
    decreases |s|
  {
    if |s| < BLOCK then h else Fold(block, block(h, s[..BLOCK]), s[BLOCK..])
  }

  function Digest(block: Compression, initial: State, message: seq<Byte>): State {
    Fold(block, initial, Pad(message))
  }

  /** The digest as bytes. */
  function StateBytes(h: seq<Word>): (s: seq<Byte>)
    ensures |s| == 4 * |h|
  {
    if h == [] then [] else ToBytes(h[0], 4) + StateBytes(h[1..])
  }

  lemma {:induction false} FoldAppend(block: Compression, h: State, s: seq<Byte>, t: seq<Byte>)
    requires |s| % BLOCK == 0
    ensures Fold(block, h, s + t) == Fold(block, Fold(block, h, s), t)
    decreases |s|
  {
    if s == [] {
      assert s + t == t;
    } else {
      assert (s + t)[..BLOCK] == s[..BLOCK] && (s + t)[BLOCK..] == s[BLOCK..] + t;
      FoldAppend(block, block(h, s[..BLOCK]), s[BLOCK..], t);
    }
  }

  lemma FoldOne(block: Compression, h: State, s: seq<Byte>, b: seq<Byte>)
    requires |s| % BLOCK == 0 && |b| == BLOCK
    ensures Fold(block, h, s + b) == block(Fold(block, h, s), b)
  {
    FoldAppend(block, h, s, b);
    assert b[..BLOCK] == b;
  }

  lemma FoldNext(block: Compression, h: State, s: seq<Byte>, i: nat)
    requires i % BLOCK == 0 && i + BLOCK <= |s|
    ensures Fold(block, h, s[..i + BLOCK]) == block(Fold(block, h, s[..i]), s[i..i + BLOCK])
  {
    assert s[..i + BLOCK] == s[..i] + s[i..i + BLOCK];
    FoldOne(block, h, s[..i], s[i..i + BLOCK]);
  }

  lemma RestLength(n: nat, i: nat)
    requires i % BLOCK == 0 && i <= n < i + BLOCK
    ensures n % BLOCK == n - i
  {
    Numbers.DivModUnique(n, BLOCK, i / BLOCK, n - i);
  }

  lemma PadLength(message: seq<Byte>)
    ensures |Pad(message)| % BLOCK == 0 && |message| + 9 <= |Pad(message)| < |message| + 9 + BLOCK
  {
    hide ToBytes;
    var n, q, r := |message|, (55 - |message|) / BLOCK, (55 - |message|) % BLOCK;
    assert |Pad(message)| == n + 9 + r;
    Numbers.DivModUnique(n + 9 + r, BLOCK, 1 - q, 0);
  }

  /** Padding is unambiguous. */
  lemma PadInjective(a: seq<Byte>, b: seq<Byte>)
    requires |a| < LENGTH_LIMIT && |b| < LENGTH_LIMIT && Pad(a) == Pad(b)
    ensures a == b
  {
    hide FromBytes, Suffix;
    PadEnd(a);
    PadEnd(b);
    assert Pad(a)[..|a|] == a && Pad(b)[..|b|] == b;
  }

  lemma PadEnd(a: seq<Byte>)
    requires |a| < LENGTH_LIMIT
    ensures var n := |Pad(a)|; n >= 8 && FromBytes(Pad(a)[n - 8..]) == 8 * |a|
  {
    hide ToBytes, FromBytes;
    var n := |Pad(a)|;
    assert Pad(a)[n - 8..] == ToBytes(8 * |a|, 8);
    PowEight();
    BytesRoundTrip(8 * |a|, 8);
  }

  // ---------- section 5.1.1 of FIPS 180-4, bit by bit ----------

  /** With j zero bits after the one-bit, 64 bits are left of the last 512. */
  predicate LeavesRoom(n: nat, j: nat) {
    (n + 1 + j) % 512 == 448
  }

  /** The fewest zero bits that do. */
  function ZeroCount(n: nat): (k: nat)
    ensures LeavesRoom(n, k) && forall j: nat :: j < k ==> !LeavesRoom(n, j)
  {
    FewestZeros(n);
    (447 - n) % 512
  }

  lemma FewestZeros(n: nat)
    ensures var k := (447 - n) % 512; LeavesRoom(n, k) && forall j: nat :: j < k ==> !LeavesRoom(n, j)
  {
    var q, k := (447 - n) / 512, (447 - n) % 512;
    Numbers.DivModUnique(n + 1 + k, 512, 0 - q, 448);
    forall j: nat | j < k
      ensures !LeavesRoom(n, j)
    {
      var r := 448 - (k - j);
      Numbers.DivModUnique(n + 1 + j, 512, if r < 0 then -1 - q else 0 - q, if r < 0 then r + 512 else r);
    }
  }

  /** The bits of the message, a one, the fewest zeros, and the length in bits in 64 bits, each byte's and the length's
      most significant bit first. */
  lemma PadBits(message: seq<Byte>)
    requires |message| < LENGTH_LIMIT
    ensures var n := 8 * |message|;
      && Bits(Pad(message)) == Bits(message) + [true] + seq(ZeroCount(n), _ => false) + NumberBits(n, 64)
      && BitsValue(NumberBits(n, 64)) == n
  {
    hide Bits, NumberBits, BitsValue, Suffix, Numbers.Pow, LeavesRoom;
    var l, n := |message|, 8 * |message|;
    BitsAppend(message, Suffix(l));
    SuffixBits(l);
    JoinBits(Bits(message), ZeroCount(n), NumberBits(n, 64));
    LengthFits(n);
    NumberValue(n, 64);
  }

  lemma SuffixBits(l: nat)
    ensures Bits(Suffix(l)) == [true] + seq(ZeroCount(8 * l), _ => false) + NumberBits(8 * l, 64)
  {
    hide ToBytes, Bits, NumberBits, Zeros, LeavesRoom;
    var q, z := (55 - l) / BLOCK, (55 - l) % BLOCK;
    Numbers.DivModUnique(447 - 8 * l, 512, q, 8 * z + 7);
    BitsAppend(MARK + Zeros(z), ToBytes(8 * l, 8));
    BitsAppend(MARK, Zeros(z));
    OneByteBits();
    ZeroBytesBits(z);
    BytesNumber(8 * l, 8);
    JoinZeros(7, 8 * z);
  }

  lemma JoinZeros(i: nat, j: nat)
    ensures [true] + seq(i, _ => false) + seq(j, _ => false) == [true] + seq(j + i, _ => false)
  {
  }

  lemma JoinBits(m: seq<bool>, k: nat, tail: seq<bool>)
    ensures m + ([true] + seq(k, _ => false) + tail) == m + [true] + seq(k, _ => false) + tail
  {
  }

  lemma OneByteBits()
    ensures Bits(MARK) == [true] + seq(7, _ => false)
  {
    hide NumberBits;
    MarkBits();
    assert MARK[..0] == [];
    assert Bits(MARK) == Bits(MARK[..0]) + NumberBits(MARK[0], 8);
  }

  lemma ZeroBytesBits(z: nat)
    ensures Bits(Zeros(z)) == seq(8 * z, _ => false)
  {
    ZeroBits(z);
    assert Zeros(z) == seq<Byte>(z, _ => 0);
  }

  lemma LengthFits(n: nat)
    requires n < 8 * LENGTH_LIMIT
    ensures n < Numbers.Pow(2, 64)
  {
    Numbers.PowSquare(2, 32);
    Numbers.PowSquare(4, 16);
    Numbers.PowSquare(16, 8);
    Numbers.PowSquare(256, 4);
    Numbers.PowSquare(0x1_0000, 2);
    Numbers.PowSquare(0x1_0000_0000, 1);
  }

  // ---------- the hasher ----------

  predicate Digits(d: seq<int>) {
    |d| == 4 && forall i :: 0 <= i < 4 ==> 0 <= d[i] < DIGIT
  }

  function DigitsValue(d: seq<int>): int
    requires |d| == 4
  {
    d[0] + DIGIT * (d[1] + DIGIT * (d[2] + DIGIT * d[3]))
  }

  function Place(i: nat): int
    requires i <= 4
  {
    if i == 0 then 1 else DIGIT * Place(i - 1)
  }

  lemma DigitSet(d: seq<int>, i: nat, v: int)
    requires |d| == 4 && i < 4
    ensures DigitsValue(d[i := v]) == DigitsValue(d) + (v - d[i]) * Place(i)
  {
    assert Place(1) == 0x1_0000 && Place(2) == 0x1_0000_0000 && Place(3) == 0x1_0000_0000_0000;
    var p := Place(i);
    if i == 0 {
    } else if i == 1 {
    } else if i == 2 {
    } else {
    }
  }

  /** One digit of the carry chain. */
  lemma CarryDigit(d: seq<int>, i: nat, carry: nat)
    requires |d| == 4 && i < 4
    ensures var v := d[i] + carry;
      DigitsValue(d[i := v % DIGIT]) + v / DIGIT * Place(i + 1) == DigitsValue(d) + carry * Place(i)
  {
    hide DigitsValue;
    var v, p := d[i] + carry, Place(i);
    DigitSet(d, i, v % DIGIT);
    assert v == DIGIT * (v / DIGIT) + v % DIGIT;
    assert (v % DIGIT - d[i]) * p + v / DIGIT * (DIGIT * p) == carry * p by {
      Distribute(v % DIGIT, d[i], v / DIGIT, p);
    }
  }

  lemma Distribute(r: int, d: int, q: int, p: int)
    ensures (r - d) * p + q * (DIGIT * p) == (DIGIT * q + r - d) * p
  {
  }

  lemma PlaceEnds()
    ensures Place(0) == 1 && Place(4) == 0x1_0000_0000_0000_0000
  {
    assert Place(2) == 0x1_0000_0000;
  }

  lemma NoLostCarry(d: seq<int>, carry: nat, total: int)
    requires Digits(d) && total < Place(4)
    ensures DigitsValue(d) + carry * Place(4) == total ==> carry == 0
  {
    PlaceEnds();
    assert DigitsValue(d) >= 0;
  }

  /** Two bytes a digit, the last digit first. */
  function DigitBytes(d: seq<int>): (s: seq<Byte>)
    requires forall i :: 0 <= i < |d| ==> 0 <= d[i] < DIGIT
    ensures |s| == 2 * |d|
  {
    if d == [] then [] else DigitBytes(d[1..]) + [d[0] / 256, d[0] % 256]
  }

  lemma TwoBytes(q: nat, r: nat, n: nat)
    requires r < DIGIT
    ensures ToBytes(r + DIGIT * q, n + 2) == ToBytes(q, n) + [r / 256, r % 256]
  {
    var v := r + DIGIT * q;
    Numbers.DivModUnique(v, 256, 256 * q + r / 256, r % 256);
    Numbers.DivModUnique(v / 256, 256, q, r / 256);
    assert ToBytes(v, n + 2) == ToBytes(v / 256, n + 1) + [v % 256];
    assert ToBytes(v / 256, n + 1) == ToBytes(q, n) + [r / 256];
  }

  lemma DigitBytesValue(d: seq<int>)
    requires Digits(d)
    ensures DigitBytes(d) == ToBytes(DigitsValue(d), 8)
  {
    hide ToBytes;
    var q3 := d[3];
    var q2 := d[2] + DIGIT * q3;
    var q1 := d[1] + DIGIT * q2;
    TwoBytes(q1, d[0], 6);
    TwoBytes(q2, d[1], 4);
    TwoBytes(q3, d[2], 2);
    TwoBytes(0, d[3], 0);
    NoBytes();
    assert d[1..][1..] == d[2..] && d[2..][1..] == d[3..] && d[3..][1..] == [];
    assert DigitBytes(d[3..]) == [d[3] / 256, d[3] % 256];
    assert DigitBytes(d[2..]) == DigitBytes(d[3..]) + [d[2] / 256, d[2] % 256];
    assert DigitBytes(d[1..]) == DigitBytes(d[2..]) + [d[1] / 256, d[1] % 256];
  }

  lemma NoBytes()
    ensures ToBytes(0, 0) == []
  {
  }

  lemma SuffixIs(n: nat, r: nat)
    requires r == n % BLOCK
    ensures Suffix(n) == MARK + Zeros(if r > 55 then 119 - r else 55 - r) + ToBytes(8 * n, 8)
  {
    hide ToBytes, Zeros;
    if r > 55 {
      Numbers.DivModUnique(55 - n, BLOCK, -1 - n / BLOCK, 119 - r);
    } else {
      Numbers.DivModUnique(55 - n, BLOCK, 0 - n / BLOCK, 55 - r);
    }
  }

  /** The last block, or the last two, made from the rest of the message. */
  lemma LastBlock(message: seq<Byte>, start: seq<Byte>, rest: seq<Byte>)
    requires message == start + rest && |rest| == |message| % BLOCK && |rest| <= 55
    ensures Pad(message) == start + (rest + MARK + Zeros(55 - |rest|) + ToBytes(8 * |message|, 8))
  {
    hide ToBytes, Zeros, Suffix, Pad;
    var zeros, bits := Zeros(55 - |rest|), ToBytes(8 * |message|, 8);
    SuffixIs(|message|, |rest|);
    assert Suffix(|message|) == MARK + zeros + bits;
    PadSplit(message, start, rest, zeros, bits);
  }

  lemma PadSplit(message: seq<Byte>, start: seq<Byte>, rest: seq<Byte>, zeros: seq<Byte>, bits: seq<Byte>)
    requires message == start + rest && Suffix(|message|) == MARK + zeros + bits
    ensures Pad(message) == start + (rest + MARK + zeros + bits)
  {
    hide Suffix;
    Regroup(start, rest, MARK, zeros, bits);
  }

  lemma LastTwoBlocks(message: seq<Byte>, start: seq<Byte>, rest: seq<Byte>)
    requires message == start + rest && |rest| == |message| % BLOCK && |rest| > 55
    ensures Pad(message) == start + (rest + MARK + Zeros(63 - |rest|)) + (Zeros(56) + ToBytes(8 * |message|, 8))
  {
    hide ToBytes, Zeros, Suffix, Pad;
    var zeros, more, bits := Zeros(63 - |rest|), Zeros(56), ToBytes(8 * |message|, 8);
    SuffixIs(|message|, |rest|);
    ZerosJoin(63 - |rest|, 56);
    assert Suffix(|message|) == MARK + (zeros + more) + bits;
    PadSplitLong(message, start, rest, zeros, more, bits);
  }

  lemma PadSplitLong(message: seq<Byte>, start: seq<Byte>, rest: seq<Byte>, zeros: seq<Byte>, more: seq<Byte>,
      bits: seq<Byte>)
    requires message == start + rest && Suffix(|message|) == MARK + (zeros + more) + bits
    ensures Pad(message) == start + (rest + MARK + zeros) + (more + bits)
  {
    hide Suffix;
    RegroupLong(start, rest, MARK, zeros, more, bits);
  }

  lemma ZerosJoin(m: nat, n: nat)
    ensures Zeros(m + n) == Zeros(m) + Zeros(n)
  {
  }

  lemma Regroup(a: seq<Byte>, b: seq<Byte>, c: seq<Byte>, d: seq<Byte>, e: seq<Byte>)
    ensures a + b + (c + d + e) == a + (b + c + d + e)
  {
  }

  lemma RegroupLong(a: seq<Byte>, b: seq<Byte>, c: seq<Byte>, d: seq<Byte>, e: seq<Byte>, f: seq<Byte>)
    ensures a + b + (c + (d + e) + f) == a + (b + c + d) + (e + f)
  {
  }

  lemma NoDigits()
    ensures Digits([0, 0, 0, 0]) && DigitsValue([0, 0, 0, 0]) == 0
  {
  }

  lemma FoldNone(block: Compression, h: State)
    ensures Fold(block, h, []) == h
  {
  }

  lemma TailJoin(s: seq<Byte>, t: seq<Byte>, start: nat)
    requires start <= |s|
    ensures (s + t)[start..] == s[start..] + t && (s + t)[..start] == s[..start]
  {
  }

  lemma StartLength(n: nat, r: nat)
    requires r == n % BLOCK
    ensures n - r >= 0 && (n - r) % BLOCK == 0
  {
    Numbers.DivModUnique(n - r, BLOCK, n / BLOCK, 0);
  }

  lemma NextBlock(n: nat)
    requires n % BLOCK == 0
    ensures (n + BLOCK) % BLOCK == 0
  {
  }

  lemma SubTail(all: seq<Byte>, start: nat, i: nat, n: nat)
    requires start + i + n <= |all|
    ensures all[start..][i..i + n] == all[start + i..start + i + n] && all[start..][i..] == all[start + i..]
  {
  }

  class Hasher {
    const block: Compression
    const initial: State
    var buffer: seq<Byte>
    const digits: array<int>
    var h: State
    /** Everything processed so far. */
    ghost var message: seq<Byte>

    ghost predicate Valid()
      reads this, digits
    {
      && digits.Length == 4 && Digits(digits[..]) && DigitsValue(digits[..]) == |message|
      && |buffer| == |message| % BLOCK && buffer == message[|message| - |buffer|..]
      && h == Fold(block, initial, message[..|message| - |buffer|])
    }

    constructor (block: Compression, initial: State)
      ensures Valid() && message == [] && this.block == block && this.initial == initial && fresh(digits)
    {
      hide Fold, DigitsValue, Digits;
      this.block, this.initial, buffer, message := block, initial, [], [];
      digits := new int[4](_ => 0);
      h := initial;
      new;
      assert digits[..] == [0, 0, 0, 0] && message[..0] == [];
      NoDigits();
      FoldNone(block, initial);
    }

    /** The four base-65536 digits count exactly, below 2^64 bytes. */
    method AddToDataLength(n: nat)
      requires digits.Length == 4 && Digits(digits[..])
      requires DigitsValue(digits[..]) + n < 0x1_0000_0000_0000_0000
      modifies digits
      ensures Digits(digits[..]) && DigitsValue(digits[..]) == old(DigitsValue(digits[..])) + n
    {
      hide DigitsValue, Place;
      PlaceEnds();
      var carry := 0;
      digits[0] := digits[0] + n;
      var i := 0;
      assert digits[..] == old(digits[..])[0 := digits[0]];
      DigitSet(old(digits[..]), 0, digits[0]);
      while i < 4
        invariant 0 <= i <= 4 && carry >= 0 && digits[0] >= 0
        invariant forall j :: 0 <= j < 4 && (j != 0 || i > 0) ==> 0 <= digits[j] < DIGIT
        invariant DigitsValue(digits[..]) + carry * Place(i) == old(DigitsValue(digits[..])) + n
      {
        ghost var was, v := digits[..], digits[i] + carry;
        CarryDigit(was, i, carry);
        digits[i] := digits[i] + carry;
        if digits[i] >= 65536 {
          carry := digits[i] / 65536;
          digits[i] := digits[i] % 65536;
          assert digits[..] == was[i := v % DIGIT];
        } else {
          assert digits[..] == was[i := v % DIGIT];
          break;
        }
        i := i + 1;
      }
      NoLostCarry(digits[..], carry, old(DigitsValue(digits[..])) + n);
    }

    /** Any split of the message gives the same state. */
    method Process(s: seq<Byte>)
      requires Valid() && |message| + |s| < LENGTH_LIMIT
      modifies this`buffer, this`h, this`message, digits
      ensures Valid() && message == old(message) + s
    {
      hide DigitsValue, Digits, Fold;
      ghost var start, all, rest := |message| - |buffer|, message + s, buffer;
      TailJoin(message, s, start);
      StartLength(|message|, |rest|);
      assert all[start..] == rest + s;
      AddToDataLength(|s|);
      buffer := buffer + s;
      message := all;
      var i := CompressBlocks(all, start);
      RestLength(|all|, start + i);
      SubTail(all, start, i, 0);
      buffer := buffer[i..];
    }

    /** The loop over the whole blocks in the buffer. */
    method CompressBlocks(ghost all: seq<Byte>, ghost start: nat) returns (i: nat)
      requires start <= |all| && buffer == all[start..] && start % BLOCK == 0
      requires h == Fold(block, initial, all[..start])
      modifies this`h
      ensures i <= |buffer| < i + 64 && (start + i) % BLOCK == 0 && h == Fold(block, initial, all[..start + i])
    {
      hide Fold, Valid;
      i := 0;
      while i + 64 <= |buffer|
        invariant 0 <= i <= |buffer| && (start + i) % BLOCK == 0
        invariant h == Fold(block, initial, all[..start + i])
      {
        FoldNext(block, initial, all, start + i);
        NextBlock(start + i);
        SubTail(all, start, i, 64);
        h := block(h, buffer[i..i + 64]);
        i := i + 64;
      }
    }

    /** Multiplies the byte count by eight, digit by digit. */
    method BitLengthDigits() returns (bits: seq<int>)
      requires digits.Length == 4 && Digits(digits[..]) && 8 * DigitsValue(digits[..]) < 0x1_0000_0000_0000_0000
      ensures Digits(bits) && DigitsValue(bits) == 8 * DigitsValue(digits[..])
    {
      hide DigitsValue, Place;
      bits := digits[..];
      ghost var mixed, total := seq(4, i requires 0 <= i < 4 => 8 * bits[i]), 8 * DigitsValue(digits[..]);
      Scaled(digits[..], mixed);
      PlaceEnds();
      var carry := 0;
      for i := 0 to 4
        invariant |bits| == |mixed| == 4 && 0 <= carry < 8
        invariant forall j :: 0 <= j < i ==> bits[j] == mixed[j] && 0 <= bits[j] < DIGIT
        invariant forall j :: i <= j < 4 ==> 0 <= bits[j] < DIGIT && mixed[j] == 8 * bits[j]
        invariant DigitsValue(mixed) + carry * Place(i) == total
      {
        var before := bits[i];
        CarryDigit(mixed, i, carry);
        ShiftedDigit(before, carry);
        mixed := mixed[i := (8 * before + carry) % DIGIT];
        bits := bits[i := (8 * before + carry) % DIGIT];
        carry := before / 8192;
      }
      assert bits == mixed;
      NoLostCarry(bits, carry, total);
    }

    /** Writes the bit count over eight bytes of temp. */
    method WriteDataBitLength(temp: array<Byte>, at: nat)
      requires digits.Length == 4 && Digits(digits[..]) && 8 * DigitsValue(digits[..]) < 0x1_0000_0000_0000_0000
      requires at + 8 <= temp.Length && (temp as object) != digits
      modifies temp
      ensures temp[at..at + 8] == ToBytes(8 * DigitsValue(digits[..]), 8)
      ensures temp[..at] == old(temp[..at]) && temp[at + 8..] == old(temp[at + 8..])
    {
      hide DigitsValue, ToBytes;
      var bits := BitLengthDigits();
      DigitBytesValue(bits);
      var begin, k := at, 4;
      ghost var was := temp[..];
      while k > 0
        invariant 0 <= k <= 4 && begin == at + 2 * (4 - k)
        invariant forall j :: 0 <= j < temp.Length && !(at <= j < begin) ==> temp[j] == was[j]
        invariant temp[at..begin] == DigitBytes(bits[k..])
      {
        k := k - 1;
        temp[begin], temp[begin + 1] := bits[k] / 256, bits[k] % 256;
        begin := begin + 2;
        assert bits[k..][1..] == bits[k + 1..];
        assert temp[at..begin] == temp[at..begin - 2] + [temp[begin - 2], temp[begin - 1]];
      }
      assert bits[0..] == bits;
    }

    method Finish()
      requires Valid() && |message| < LENGTH_LIMIT
      modifies this`h
      ensures h == Digest(block, initial, message)
    {
      hide ToBytes, Digits, DigitsValue, Fold, Pad, Zeros;
      ghost var start, bits := message[..|message| - |buffer|], ToBytes(8 * |message|, 8);
      ghost var before := start;
      assert message == start + buffer;
      var temp, remains := new Byte[64](_ => 0), |buffer|;
      MarkEnd(temp);
      if remains > 55 {
        FillZeros(temp, remains + 1, 64);
        ghost var first := temp[..];
        assert first == buffer + MARK + Zeros(63 - remains);
        h := block(h, temp[..]);
        FoldOne(block, initial, start, first);
        before := start + first;
        FillZeros(temp, 0, 60);
        LastTwoBlocks(message, start, buffer);
        assert temp[..56] == Zeros(56);
      } else {
        FillZeros(temp, remains + 1, 60);
        LastBlock(message, start, buffer);
        assert temp[..56] == buffer + MARK + Zeros(55 - remains);
      }
      assert Pad(message) == before + (temp[..56] + bits) && |before| % BLOCK == 0;
      FoldOne(block, initial, before, temp[..56] + bits);
      assert digits[..] == old(digits[..]);
      CompressLast(temp);
    }

    /** What is left of the message, and the mark after it. */
    method MarkEnd(temp: array<Byte>)
      requires |buffer| < 64 == temp.Length
      modifies temp
      ensures temp[..|buffer| + 1] == buffer + MARK
    {
      forall i | 0 <= i < |buffer| {
        temp[i] := buffer[i];
      }
      temp[|buffer|] := 0x80;
    }

    static method FillZeros(temp: array<Byte>, from: nat, to: nat)
      requires from <= to <= temp.Length
      modifies temp
      ensures temp[..] == old(temp[..from]) + Zeros(to - from) + old(temp[to..])
    {
      forall i | from <= i < to {
        temp[i] := 0;
      }
    }

    /** The bit length goes to the end of the last block. */
    method CompressLast(temp: array<Byte>)
      requires temp.Length == 64 && (temp as object) != digits && digits.Length == 4 && Digits(digits[..])
      requires DigitsValue(digits[..]) < LENGTH_LIMIT
      modifies temp, this`h
      ensures h == block(old(h), old(temp[..56]) + ToBytes(8 * DigitsValue(digits[..]), 8))
    {
      hide ToBytes, Digits, DigitsValue;
      ghost var head := temp[..56];
      WriteDataBitLength(temp, 56);
      assert temp[..] == head + ToBytes(8 * DigitsValue(digits[..]), 8);
      h := block(h, temp[..]);
    }

    /** As many digest bytes as the output has room for. */
    method GetHashBytes(room: nat) returns (out: seq<Byte>)
      ensures out == StateBytes(h)[..if room < 32 then room else 32]
    {
      hide StateBytes, ShiftRadix;
      out := [];
      for w := 0 to 8
        invariant out == StateBytes(h)[..if room < 4 * w then room else 4 * w]
      {
        var i := 0;
        while i < 4 && |out| < room
          invariant 0 <= i <= 4 && (|out| < room ==> |out| == 4 * w + i)
          invariant out == StateBytes(h)[..if room < 4 * w + i then room else 4 * w + i]
        {
          StateBytesAt(h, w, i);
          out := out + [h[w] / ShiftRadix(i) % 256];
          i := i + 1;
        }
      }
    }
  }

  /** One buffer of input: full, or what is left. */
  method FillBuffer(input: seq<Byte>, first: nat, bufferSize: int) returns (buffer: seq<Byte>)
    requires bufferSize > 0 && first < |input|
    ensures buffer == input[first..if first + bufferSize <= |input| then first + bufferSize else |input|]
  {
    buffer := [];
    var i := 0;
    while i != bufferSize
      invariant 0 <= i <= bufferSize && first + i <= |input| && buffer == input[first..first + i]
    {
      if first + i == |input| {
        break;
      }
      buffer := buffer + [input[first + i]];
      i := i + 1;
    }
  }

  /** Reads the input through a buffer of the given size. */
  method HashChunked(block: Compression, initial: State, input: seq<Byte>, bufferSize: int, room: nat)
    returns (out: seq<Byte>)
    requires bufferSize > 0 && |input| < LENGTH_LIMIT
    ensures out == StateBytes(Digest(block, initial, input))[..if room < 32 then room else 32]
  {
    hide Hasher.Valid, Digest, StateBytes;
    var hasher := new Hasher(block, initial);
    var first := 0;
    while first != |input|
      invariant 0 <= first <= |input| && hasher.message == input[..first]
      invariant hasher.Valid() && fresh(hasher) && fresh(hasher.digits)
      invariant hasher.block == block && hasher.initial == initial
    {
      var buffer := FillBuffer(input, first, bufferSize);
      var size := |buffer|;
      assert input[..first + size] == input[..first] + buffer;
      hasher.Process(buffer);
      first := first + size;
    }
    assert input[..first] == input;
    hasher.Finish();
    out := hasher.GetHashBytes(room);
  }

  function ShiftRadix(i: nat): (r: nat)
    requires i < 4
    ensures r > 0
  {
    [0x100_0000, 0x1_0000, 0x100, 1][i]
  }

  lemma FourBytes(w: Word, i: nat)
    requires i < 4
    ensures ToBytes(w, 4)[i] == w / ShiftRadix(i) % 256
  {
    var a := w / 256;
    var b := a / 256;
    var c := b / 256;
    Numbers.DivModUnique(w, 0x1_0000, b, a % 256 * 256 + w % 256);
    Numbers.DivModUnique(w, 0x100_0000, c, b % 256 * 0x1_0000 + a % 256 * 256 + w % 256);
    assert ToBytes(w, 4) == ToBytes(a, 3) + [w % 256];
    assert ToBytes(a, 3) == ToBytes(b, 2) + [a % 256];
    assert ToBytes(b, 2) == ToBytes(c, 1) + [b % 256];
    assert ToBytes(c, 1) == ToBytes(c / 256, 0) + [c % 256];
  }

  lemma {:induction false} StateBytesAt(h: seq<Word>, w: nat, i: nat)
    requires w < |h| && i < 4
    ensures StateBytes(h)[4 * w + i] == h[w] / ShiftRadix(i) % 256
  {
    hide ToBytes;
    if w > 0 {
      StateBytesAt(h[1..], w - 1, i);
    } else {
      FourBytes(h[0], i);
    }
  }

  /** Shifting a digit by three and the carry by thirteen. */
  lemma ShiftedDigit(before: int, carry: int)
    requires 0 <= before < DIGIT && 0 <= carry < 8
    ensures (8 * before + carry) / DIGIT == before / 8192 < 8
  {
  }

  lemma Scaled(d: seq<int>, m: seq<int>)
    requires |d| == |m| == 4 && forall i :: 0 <= i < 4 ==> m[i] == 8 * d[i]
    ensures DigitsValue(m) == 8 * DigitsValue(d)
  {
  }
}
