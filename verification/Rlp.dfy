/** Recursive Length Prefix (Appendix B of the Ethereum Yellow Paper): the standard encoding, its unique
    decoding, and the encoder that appends to a byte list. */
module Rlp {
  import opened Bytes
  import Numbers

  datatype Item = Str(bytes: seq<Byte>) | List(items: seq<Item>)

  const LIMIT: nat := 0x1_0000_0000_0000_0000

  // ---------- the standard encoding ----------

  /** Big-endian bytes without leading zeros. */
  function Minimal(n: nat): seq<Byte> {
    if n == 0 then [] else Minimal(n / 256) + [n % 256]
  }

  lemma {:induction false} MinimalBytes(n: nat, k: nat)
    requires n < Numbers.Pow(256, k)
    ensures |Minimal(n)| <= k
  {
    if n > 0 {
      MinimalBytes(n / 256, k - 1);
    }
  }

  lemma MinimalEight(n: nat)
    requires n < LIMIT
    ensures |Minimal(n)| <= 8
  {
    PowEight();
    MinimalBytes(n, 8);
  }

  /** Minimal bytes hold the value, and start with no zero. */
  lemma {:induction false} MinimalValue(n: nat)
    ensures FromBytes(Minimal(n)) == n && (n > 0 ==> Minimal(n) != [] && Minimal(n)[0] != 0)
  {
    if n > 0 {
      MinimalValue(n / 256);
      assert Minimal(n)[..|Minimal(n)| - 1] == Minimal(n / 256);
    }
  }

  /** Length prefix of a string (base 0x80) or list (base 0xC0). */
  function Header(n: nat, base: int): (h: seq<Byte>)
    requires n < LIMIT && (base == 0x80 || base == 0xC0)
    ensures |h| >= 1 && base <= h[0] < base + 0x40
  {
    MinimalEight(n);
    if n < 56 then [base + n] else [base + 55 + |Minimal(n)|] + Minimal(n)
  }

  /** The encoding; what is 2^64 bytes or longer has none, shown as the empty sequence. */
  function Encode(x: Item): seq<Byte> {
    match x
    case Str(b) =>
      if |b| == 1 && b[0] < 0x80 then b else if |b| < LIMIT then Header(|b|, 0x80) + b else []
    case List(l) =>
      var payload := EncodeAll(l);
      if |payload| < LIMIT then Header(|payload|, 0xC0) + payload else []
  }

  function EncodeAll(l: seq<Item>): seq<Byte> {
    if l == [] then [] else Encode(l[0]) + EncodeAll(l[1..])
  }

  /** Everything in it has an encoding. */
  predicate Encodable(x: Item) {
    match x
    case Str(b) => |b| < LIMIT
    case List(l) => EncodableAll(l) && |EncodeAll(l)| < LIMIT
  }

  predicate EncodableAll(l: seq<Item>) {
    l == [] || (Encodable(l[0]) && EncodableAll(l[1..]))
  }

  lemma HeaderUnique(n: nat, b: int, m: nat, c: int, r: seq<Byte>, q: seq<Byte>)
    requires n < LIMIT && m < LIMIT && (b == 0x80 || b == 0xC0) && (c == 0x80 || c == 0xC0)
    requires Header(n, b) + r == Header(m, c) + q
    ensures n == m && b == c && r == q
  {
    var h, g := Header(n, b), Header(m, c);
    assert h[0] == (h + r)[0] && g[0] == (g + q)[0];
    MinimalEight(n);
    MinimalEight(m);
    MinimalValue(n);
    MinimalValue(m);
    assert |h| == |g|;
    assert (h + r)[..|h|] == h && (g + q)[..|h|] == g && (h + r)[|h|..] == r && (g + q)[|h|..] == q;
    assert n >= 56 ==> h[1..] == Minimal(n);
    assert m >= 56 ==> g[1..] == Minimal(m);
  }

  /** No encoding is the start of another: bytes decode in one way only. */
  lemma {:induction false} Unique(x: Item, y: Item, r: seq<Byte>, q: seq<Byte>)
    requires Encodable(x) && Encodable(y) && Encode(x) + r == Encode(y) + q
    ensures x == y && r == q
    decreases x
  {
    var e, f := Encode(x), Encode(y);
    assert e[0] == (e + r)[0] && f[0] == (f + q)[0];
    if e[0] < 0x80 {
      assert (e + r)[1..] == r && (f + q)[1..] == q;
    } else {
      var (n, b, p) := Parts(x);
      var (m, c, s) := Parts(y);
      Assoc(x, r);
      Assoc(y, q);
      HeaderUnique(n, b, m, c, p + r, s + q);
      assert (p + r)[..n] == p && (s + q)[..n] == s && (p + r)[n..] == r && (s + q)[n..] == q;
      if x.List? {
        UniqueAll(x.items, y.items);
      }
    }
  }

  /** Length, base and payload of an item that has a header. */
  function Parts(x: Item): (nat, int, seq<Byte>) {
    match x
    case Str(b) => (|b|, 0x80, b)
    case List(l) => (|EncodeAll(l)|, 0xC0, EncodeAll(l))
  }

  lemma Assoc(x: Item, r: seq<Byte>)
    requires Encodable(x) && Encode(x) != [] && Encode(x)[0] >= 0x80
    ensures var (n, b, p) := Parts(x); n < LIMIT && Encode(x) + r == Header(n, b) + (p + r)
  {
    var (n, b, p) := Parts(x);
    assert Encode(x) == Header(n, b) + p;
  }

  lemma {:induction false} UniqueAll(l: seq<Item>, m: seq<Item>)
    requires EncodableAll(l) && EncodableAll(m) && EncodeAll(l) == EncodeAll(m)
    ensures l == m
    decreases l
  {
    if l == [] || m == [] {
      NonEmpty(l);
      NonEmpty(m);
    } else {
      Unique(l[0], m[0], EncodeAll(l[1..]), EncodeAll(m[1..]));
      UniqueAll(l[1..], m[1..]);
      assert l == [l[0]] + l[1..] && m == [m[0]] + m[1..];
    }
  }

  lemma NonEmpty(l: seq<Item>)
    requires EncodableAll(l)
    ensures l != [] ==> EncodeAll(l) != []
  {
  }

  // ---------- what the encoder writes ----------

  /** Byte i of a 32-bit length, lowest first. */
  function LengthByte(n: nat, i: nat): Byte
    requires i < 4
  {
    if i == 0 then n % 256
    else if i == 1 then n / 0x100 % 256
    else if i == 2 then n / 0x1_0000 % 256
    else n / 0x100_0000 % 256
  }

  function LengthBytes(n: nat): (s: seq<Byte>)
    ensures |s| == 4
  {
    [LengthByte(n, 0), LengthByte(n, 1), LengthByte(n, 2), LengthByte(n, 3)]
  }

  /** Where the search down from the highest byte meets a zero, or -1. */
  function StopAt(n: nat, i: int): (z: int)
    requires -1 <= i <= 3
    ensures -1 <= z <= i
  {
    if i < 0 || LengthByte(n, i) == 0 then i else StopAt(n, i - 1)
  }

  /** The prefix encodeLength writes. */
  function WrittenLength(n: nat, base: int): seq<Byte>
    requires n < 0x8000_0000 && (base == 0x80 || base == 0xC0)
  {
    if n < 56 then [base + n] else
      var stop := StopAt(n, 3);
      [base + 55 + 3 - stop] + LengthBytes(n)[stop + 1..]
  }

  /** Appendix B wants the whole length, highest byte first. */
  predicate FourBytePalindrome(n: nat) {
    && n >= 0x100_0000 && LengthByte(n, 1) != 0
    && LengthByte(n, 0) == LengthByte(n, 3) && LengthByte(n, 1) == LengthByte(n, 2)
  }

  lemma LengthDigits(n: nat)
    requires n < 0x8000_0000
    ensures LengthByte(n, 0) == n % 256 && LengthByte(n, 1) == n / 256 % 256 && LengthByte(n, 2) == n / 256 / 256 % 256
    ensures LengthByte(n, 3) == n / 256 / 256 / 256
  {
    var a := n / 256;
    var b := a / 256;
    var c := b / 256;
    Numbers.DivModUnique(n, 0x1_0000, b, a % 256 * 256 + n % 256);
    Numbers.DivModUnique(n, 0x100_0000, c, b % 256 * 0x1_0000 + a % 256 * 256 + n % 256);
  }

  lemma ShortMinimal(n: nat)
    requires 56 <= n < 0x8000_0000
    ensures n < 0x100_0000 ==> LengthByte(n, 3) == 0 && 1 <= |Minimal(n)|
    ensures n >= 0x100_0000 ==>
      && LengthByte(n, 3) != 0
      && Minimal(n) == [LengthByte(n, 3), LengthByte(n, 2), LengthByte(n, 1), LengthByte(n, 0)]
  {
    hide LengthByte;
    LengthDigits(n);
    var a := n / 256;
    var b := a / 256;
    var c := b / 256;
    assert Minimal(n) == Minimal(a) + [n % 256];
    if n >= 0x100_0000 {
      assert Minimal(a) == Minimal(b) + [a % 256];
      assert Minimal(b) == Minimal(c) + [b % 256];
      assert Minimal(c) == Minimal(0) + [c];
    }
  }

  lemma FourLengthBytes(n: nat, base: int)
    requires 0x100_0000 <= n < 0x8000_0000 && (base == 0x80 || base == 0xC0)
    ensures Header(n, base) == [base + 59, LengthByte(n, 3), LengthByte(n, 2), LengthByte(n, 1), LengthByte(n, 0)]
    ensures |WrittenLength(n, base)| == 4 - StopAt(n, 3)
    ensures StopAt(n, 3) == -1 ==>
      WrittenLength(n, base) == [base + 59, LengthByte(n, 0), LengthByte(n, 1), LengthByte(n, 2), LengthByte(n, 3)]
  {
    hide LengthByte;
    ShortMinimal(n);
  }

  /** The search reaches the end exactly when no byte is zero. */
  lemma StopsNowhere(n: nat)
    ensures StopAt(n, 3) == -1 <==> forall i :: 0 <= i < 4 ==> LengthByte(n, i) != 0
  {
    hide LengthByte, StopAt;
    StopStep(n, 3);
    StopStep(n, 2);
    StopStep(n, 1);
    StopStep(n, 0);
    StopStep(n, -1);
  }

  /** The prefix written for 56 bytes or more is the standard one only when its four length bytes read the same
      both ways and none is zero. */
  lemma WrittenLengthRight(n: nat, base: int)
    requires n < 0x8000_0000 && (base == 0x80 || base == 0xC0)
    ensures WrittenLength(n, base) == Header(n, base) <==> n < 56 || FourBytePalindrome(n)
    ensures 56 <= n < 0x100_0000 ==> WrittenLength(n, base) == [base + 55]
  {
    hide LengthByte, StopAt;
    StopStep(n, 3);
    if n >= 0x100_0000 {
      hide WrittenLength, Header;
      ShortMinimal(n);
      StopsNowhere(n);
      FourLengthBytes(n, base);
    } else if n >= 56 {
      ShortMinimal(n);
    }
  }

  /** What encode writes for a byte string. */
  function WrittenString(s: seq<Byte>): seq<Byte>
    requires |s| < 0x8000_0000
  {
    if |s| == 1 && s[0] < 0x80 then s else WrittenLength(|s|, 0x80) + s
  }

  /** Strings of up to 55 bytes are encoded as Appendix B says; longer ones hardly ever. */
  lemma WrittenStringRight(s: seq<Byte>)
    requires |s| < 0x8000_0000
    ensures WrittenString(s) == Encode(Str(s)) <==> |s| < 56 || FourBytePalindrome(|s|)
  {
    WrittenLengthRight(|s|, 0x80);
    if WrittenString(s) == Encode(Str(s)) && |s| >= 56 {
      var w, h := WrittenLength(|s|, 0x80), Header(|s|, 0x80);
      assert |w| == |w + s| - |s| == |h + s| - |s| == |h|;
      assert w == (w + s)[..|w|] && h == (h + s)[..|w|];
    }
  }

  /** One byte below 0x80 is written as it is and is its own encoding; every other string starts with 0x80 or more. */
  lemma SingleBytes(s: seq<Byte>)
    requires |s| < 0x8000_0000
    ensures var w, e := WrittenString(s), Encode(Str(s));
      if |s| == 1 && s[0] < 128 then w == s == e else w != [] && w[0] >= 128 && e != [] && e[0] >= 128
  {
    hide Header, WrittenLength;
    if !(|s| == 1 && s[0] < 128) {
      FirstWritten(|s|, 0x80);
      assert WrittenString(s) == WrittenLength(|s|, 0x80) + s;
      assert Encode(Str(s)) == Header(|s|, 0x80) + s;
    }
  }

  lemma FirstWritten(n: nat, base: int)
    requires n < 0x8000_0000 && (base == 0x80 || base == 0xC0)
    ensures WrittenLength(n, base) != [] && WrittenLength(n, base)[0] >= base
  {
    hide LengthByte;
  }

  /** Reading a standard prefix: up to 55 the length is in the first byte, above the base; else the first byte says how
      many bytes hold it, most significant first and with no zero in front. */
  lemma HeaderReads(n: nat, base: int)
    requires n < LIMIT && (base == 0x80 || base == 0xC0)
    ensures var h := Header(n, base);
      if h[0] <= base + 55 then |h| == 1 && n == h[0] - base
      else |h| == 1 + (h[0] - base - 55) && FromBytes(h[1..]) == n && n > 55 && h[1] != 0
  {
    MinimalEight(n);
    MinimalValue(n);
    if n >= 56 {
      assert Header(n, base)[1..] == Minimal(n);
    }
  }

  /** Where each byte of encodeLength's prefix comes from: after the first, the bytes of the length above its highest
      zero byte, least significant first. */
  lemma WrittenLengthBytes(n: nat, base: int)
    requires 56 <= n < 0x8000_0000 && (base == 0x80 || base == 0xC0)
    ensures var w := WrittenLength(n, base);
      var k, tail := |w| - 1, w[1..];
      && 0 <= k <= 4 && w[0] == base + 55 + k
      && (forall i :: 0 <= i < k ==> tail[i] == LengthByte(n, 4 - k + i) && tail[i] != 0)
      && (k < 4 ==> LengthByte(n, 3 - k) == 0)
  {
    hide LengthByte, StopAt;
    StopZero(n, 3);
    var stop := StopAt(n, 3);
    var w := WrittenLength(n, base);
    assert w[1..] == LengthBytes(n)[stop + 1..];
    var tail := w[1..];
    forall i | 0 <= i < 3 - stop
      ensures tail[i] == LengthByte(n, stop + 1 + i) && tail[i] != 0
    {
      assert tail[i] == LengthBytes(n)[stop + 1 + i];
    }
  }

  lemma LengthValue(n: nat)
    requires n < 0x8000_0000
    ensures LengthByte(n, 0) + 0x100 * LengthByte(n, 1) + 0x1_0000 * LengthByte(n, 2) + 0x100_0000 * LengthByte(n, 3)
      == n
  {
    hide LengthByte;
    LengthDigits(n);
  }

  lemma {:induction false} StopZero(n: nat, i: int)
    requires -1 <= i <= 3
    ensures var z := StopAt(n, i);
      (z >= 0 ==> LengthByte(n, z) == 0) && forall j :: z < j <= i ==> LengthByte(n, j) != 0
    decreases i + 1
  {
    hide LengthByte;
    if i >= 0 && LengthByte(n, i) != 0 {
      StopZero(n, i - 1);
    }
  }

  // ---------- bit and byte counts ----------

  function CountBits(n: nat): nat {
    if n == 0 then 0 else 1 + CountBits(n / 2)
  }

  lemma EightBits(n: nat)
    ensures n >= 256 ==> CountBits(n) == 8 + CountBits(n / 256)
    ensures 0 < n < 256 ==> 1 <= CountBits(n) <= 8
  {
    hide CountBits;
    assert n / 4 / 4 == n / 16 && n / 16 / 4 == n / 64 && n / 64 / 4 == n / 256;
    PositiveBits(n);
    TwoBits(n);
    TwoBits(n / 4);
    TwoBits(n / 16);
    TwoBits(n / 64);
  }

  lemma PositiveBits(n: nat)
    ensures n > 0 <==> CountBits(n) > 0
  {
  }

  lemma TwoBits(n: nat)
    ensures n >= 4 ==> CountBits(n) == 2 + CountBits(n / 4)
    ensures n < 4 ==> CountBits(n) <= 2
  {
    assert n / 2 / 2 == n / 4;
    if n < 4 {
      assert CountBits(n / 2) <= 1 + CountBits(n / 4);
    }
  }

  /** A bit count rounded up to bytes is the number of minimal bytes. */
  lemma {:induction false} BitsBytes(n: nat)
    ensures (CountBits(n) + 7) / 8 == |Minimal(n)|
  {
    EightBits(n);
    if n >= 256 {
      BitsBytes(n / 256);
    }
  }

  /** Bytes a list prefix takes. */
  function LengthOfLength(n: nat): (k: nat)
    requires n < 0x8000_0000
    ensures 1 <= k <= 5
    ensures k == if n < 56 then 1 else 1 + |Minimal(n)|
  {
    BitsBytes(n);
    if n >= 56 then ShortMinimal(n); MinimalFour(n); (CountBits(n) + 15) / 8 else 1
  }

  lemma MinimalFour(n: nat)
    requires n < 0x8000_0000
    ensures |Minimal(n)| <= 4
  {
    Numbers.PowSquare(256, 2);
    Numbers.PowSquare(0x1_0000, 1);
    MinimalBytes(n, 4);
  }

  // ---------- little-endian storage ----------

  function LittleEndian(v: nat, n: nat): (s: seq<Byte>)
    ensures |s| == n
    decreases n
  {
    if n == 0 then [] else [v % 256] + LittleEndian(v / 256, n - 1)
  }

  function Reversed<T>(s: seq<T>): (r: seq<T>)
    ensures |r| == |s| && forall i :: 0 <= i < |s| ==> r[i] == s[|s| - 1 - i]
  {
    if s == [] then [] else Reversed(s[1..]) + [s[0]]
  }

  lemma {:induction false} LittleMinimal(v: nat, n: nat)
    requires |Minimal(v)| <= n
    ensures Reversed(LittleEndian(v, n)[..|Minimal(v)|]) == Minimal(v)
    decreases n
  {
    if v > 0 {
      var k := |Minimal(v)|;
      assert LittleEndian(v, n)[..k] == [v % 256] + LittleEndian(v / 256, n - 1)[..k - 1];
      LittleMinimal(v / 256, n - 1);
    }
  }

  /** The prefix encodeListStartAtOffset writes: the length lowest byte first. */
  function WrittenListHeader(n: nat): (h: seq<Byte>)
    requires n < 0x8000_0000
    ensures |h| == LengthOfLength(n)
  {
    if n < 56 then [0xC0 + n] else [0xC0 + 55 + LengthOfLength(n) - 1] + LittleEndian(n, LengthOfLength(n) - 1)
  }

  predicate Palindrome(s: seq<Byte>) {
    forall i :: 0 <= i < |s| ==> s[i] == s[|s| - 1 - i]
  }

  lemma ReversedPalindrome(little: seq<Byte>, m: seq<Byte>)
    requires Reversed(little) == m
    ensures little == m <==> Palindrome(m)
  {
    var k := |m|;
    assert forall i :: 0 <= i < k ==> little[i] == m[k - 1 - i];
    if Palindrome(m) {
      assert forall i :: 0 <= i < k ==> little[i] == m[i];
    }
  }

  /** It is standard exactly for lengths whose bytes read the same both ways, so for all below 256. */
  lemma WrittenListHeaderRight(n: nat)
    requires n < 0x8000_0000
    ensures WrittenListHeader(n) == Header(n, 0xC0) <==> n < 56 || Palindrome(Minimal(n))
    ensures n < 256 ==> WrittenListHeader(n) == Header(n, 0xC0)
  {
    if n >= 56 {
      hide Reversed, Palindrome;
      var k := |Minimal(n)|;
      var little := LittleEndian(n, k);
      LittleMinimal(n, k);
      assert little[..k] == little;
      ReversedPalindrome(little, Minimal(n));
      assert WrittenListHeader(n)[1..] == little && Header(n, 0xC0)[1..] == Minimal(n);
      if n < 256 {
        OneByte(n);
      }
    }
  }

  /** The list prefix from 56 on: how many bytes hold the length, then those bytes, least significant first. */
  lemma ListHeaderReads(n: nat)
    requires n < 0x8000_0000
    ensures var h := WrittenListHeader(n);
      if n <= 55 then h == [0xC0 + n]
      else h[0] == 0xF7 + (|h| - 1) && FromBytes(Reversed(h[1..])) == n && h[|h| - 1] != 0
  {
    hide Reversed;
    if n > 55 {
      var k := |Minimal(n)|;
      var little := LittleEndian(n, k);
      LittleMinimal(n, k);
      MinimalValue(n);
      assert little[..k] == little;
      var h := WrittenListHeader(n);
      assert h[1..] == little;
      assert Reversed(little)[0] == little[k - 1] == h[1..][k - 1];
    }
  }

  lemma OneByte(n: nat)
    requires 0 < n < 256
    ensures Minimal(n) == [n] && Palindrome(Minimal(n))
  {
    assert Minimal(n) == Minimal(0) + [n];
  }

  // ---------- the encoder ----------

  /** The loop of encodeLength: bytes from the highest down to the first zero. */
  method NonzeroTop(n: nat) returns (i: int, buffer: seq<Byte>)
    requires n < 0x8000_0000
    ensures i == StopAt(n, 3) && |buffer| == 4
    ensures forall j :: i < j < 4 ==> buffer[j] == LengthByte(n, j)
  {
    hide LengthByte, StopAt;
    buffer := [0, 0, 0, 0];
    i := 3;
    while i >= 0
      invariant -1 <= i <= 3 && StopAt(n, i) == StopAt(n, 3) && |buffer| == 4
      invariant forall j :: i < j < 4 ==> buffer[j] == LengthByte(n, j)
    {
      StopStep(n, i);
      buffer := buffer[i := LengthByte(n, i)];
      if buffer[i] == 0 {
        break;
      }
      i := i - 1;
    }
    StopStep(n, i);
  }

  lemma StopStep(n: nat, i: int)
    requires -1 <= i <= 3
    ensures StopAt(n, i) == if i < 0 || LengthByte(n, i) == 0 then i else StopAt(n, i - 1)
  {
  }

  lemma TopBytes(n: nat, i: int, buffer: seq<Byte>)
    requires n < 0x8000_0000 && -1 <= i <= 3 && |buffer| == 4
    requires forall j :: i < j < 4 ==> buffer[j] == LengthByte(n, j)
    ensures buffer[i + 1..] == LengthBytes(n)[i + 1..]
  {
    hide LengthByte;
    var all := LengthBytes(n);
    assert forall j :: i < j < 4 ==> buffer[j] == all[j];
  }

  lemma LengthForms(n: nat, base: int)
    requires n < 0x8000_0000 && (base == 0x80 || base == 0xC0)
    ensures WrittenLength(n, base) == if n < 56 then [base + n] else
      [base + 55 + 3 - StopAt(n, 3)] + LengthBytes(n)[StopAt(n, 3) + 1..]
  {
  }

  lemma ListForms(n: nat, i: nat)
    requires n < 0x8000_0000
    ensures n < 56 ==> WrittenListHeader(n) == [0xC0 + n]
    ensures n >= 56 ==> WrittenListHeader(n)[0] == 0xC0 + 55 + LengthOfLength(n) - 1
    ensures n >= 56 && i + 1 < LengthOfLength(n) ==> WrittenListHeader(n)[i + 1] == LengthByte(n, i)
  {
    if n >= 56 && i + 1 < LengthOfLength(n) {
      LittleByte(n, LengthOfLength(n) - 1, i);
    }
  }

  class Encoder {
    var dst: seq<Byte>

    constructor (dst: seq<Byte>)
      ensures this.dst == dst
    {
      this.dst := dst;
    }

    method EncodeLength(n: int, offset: int)
      requires 0 <= n < 0x8000_0000 && (offset == 0x80 || offset == 0xC0)
      modifies this
      ensures dst == old(dst) + WrittenLength(n, offset)
    {
      hide WrittenLength, LengthBytes, StopAt;
      LengthForms(n, offset);
      if n < 56 {
        dst := dst + [n + offset];
      } else {
        var i, buffer := NonzeroTop(n);
        TopBytes(n, i, buffer);
        var preLenByte: Byte := offset + 55 + 3 - i;
        var tail: seq<Byte> := buffer[i + 1..];
        ghost var start := dst;
        dst := dst + [preLenByte];
        dst := dst + tail;
        assert dst == start + ([preLenByte] + tail);
      }
    }

    method EncodeString(s: seq<Byte>)
      requires |s| < 0x8000_0000
      modifies this
      ensures dst == old(dst) + WrittenString(s)
    {
      hide WrittenLength;
      ghost var start := dst;
      if |s| == 1 && s[0] < 0x80 {
        dst := dst + [s[0]];
        assert s == [s[0]];
      } else {
        EncodeLength(|s|, 0x80);
        dst := dst + s;
        assert dst == start + (WrittenLength(|s|, 0x80) + s);
      }
    }

    method EncodeReversed(s: seq<Byte>)
      requires |s| < 0x8000_0000
      modifies this
      ensures dst == old(dst) + WrittenString(Reversed(s))
    {
      hide WrittenLength;
      if |s| == 1 && s[0] < 0x80 {
        assert Reversed(s) == s;
        dst := dst + [s[0]];
      } else {
        EncodeLength(|s|, 0x80);
        ghost var start := dst;
        var p := |s| - 1;
        while p >= 0
          invariant -1 <= p < |s| && dst == start + Reversed(s)[..|s| - 1 - p]
        {
          dst := dst + [s[p]];
          p := p - 1;
        }
      }
    }

    /** A 64-bit integer, through an eight-byte buffer. */
    method EncodeNumber(number: nat)
      requires number < LIMIT
      modifies this
      ensures dst == old(dst) + Encode(Str(Minimal(number)))
    {
      var buffer := new Byte[8](_ => 0);
      var i, rest := 7, number;
      PowEight();
      while i >= 0 && rest != 0
        invariant -1 <= i <= 7 && 0 <= rest < Numbers.Pow(256, i + 1) && dst == old(dst)
        invariant Minimal(number) == Minimal(rest) + buffer[i + 1..]
      {
        ghost var was := buffer[i + 1..];
        buffer[i] := rest % 256;
        assert buffer[i..] == [rest % 256] + was;
        rest := rest / 256;
        i := i - 1;
      }
      assert buffer[i + 1..] == Minimal(number);
      WrittenStringRight(buffer[i + 1..]);
      EncodeString(buffer[i + 1..]);
    }

    /** A 256-bit integer, stored lowest byte first. */
    method EncodeWide(number: nat)
      requires |Minimal(number)| <= 32
      modifies this
      ensures dst == old(dst) + Encode(Str(Minimal(number)))
    {
      hide Encode, WrittenString, CountBits, LittleEndian, Minimal;
      var nBytes := (CountBits(number) + 7) / 8;
      BitsBytes(number);
      LittleMinimal(number, 32);
      WrittenStringRight(Minimal(number));
      EncodeReversed(LittleEndian(number, 32)[..nBytes]);
    }

    /** Writes the prefix of everything from listStartOffset on into the gap before it. */
    method EncodeListStartAtOffset(listStartOffset: nat) returns (lengthStartOffset: int)
      requires listStartOffset <= |dst| && |dst| - listStartOffset < 0x8000_0000
      requires listStartOffset >= 5
      modifies this
      ensures lengthStartOffset == listStartOffset - LengthOfLength(|old(dst)| - listStartOffset)
      ensures dst == old(dst)[..lengthStartOffset] + WrittenListHeader(|old(dst)| - listStartOffset)
        + old(dst)[listStartOffset..]
    {
      hide WrittenListHeader, LengthByte, LengthOfLength;
      var listLengthBytes := |dst| - listStartOffset;
      ListForms(listLengthBytes, 0);
      var nLenBytes := LengthOfLength(listLengthBytes);
      lengthStartOffset := listStartOffset - nLenBytes;
      var wrIdx := lengthStartOffset;
      if listLengthBytes < 56 {
        dst := dst[wrIdx := listLengthBytes + 0xC0];
      } else {
        dst := dst[wrIdx := 0xC0 + 55 + nLenBytes - 1];
        wrIdx := wrIdx + 1;
        var i := 0;
        while wrIdx < listStartOffset
          invariant wrIdx == lengthStartOffset + 1 + i <= listStartOffset && |dst| == |old(dst)| && i >= 0
          invariant dst[..lengthStartOffset] == old(dst)[..lengthStartOffset]
          invariant dst[lengthStartOffset..wrIdx] == WrittenListHeader(listLengthBytes)[..i + 1]
          invariant dst[listStartOffset..] == old(dst)[listStartOffset..]
        {
          ListForms(listLengthBytes, i);
          ghost var was := dst;
          dst := dst[wrIdx := LengthByte(listLengthBytes, i)];
          wrIdx := wrIdx + 1;
          assert dst[lengthStartOffset..wrIdx] == was[lengthStartOffset..wrIdx - 1] + [LengthByte(listLengthBytes, i)];
          i := i + 1;
        }
      }
      assert dst[lengthStartOffset..listStartOffset] == WrittenListHeader(listLengthBytes);
      ThreeParts(dst, lengthStartOffset, listStartOffset);
    }
  }

  lemma ThreeParts(s: seq<Byte>, i: nat, j: nat)
    requires i <= j <= |s|
    ensures s == s[..i] + s[i..j] + s[j..]
  {
  }

  lemma LittleByte(n: nat, k: nat, i: nat)
    requires n < 0x8000_0000 && i < k <= 4
    ensures LittleEndian(n, k)[i] == LengthByte(n, i)
  {
    LengthDigits(n);
    var a := n / 256;
    assert LittleEndian(n, k) == [n % 256] + LittleEndian(a, k - 1);
    if k >= 2 {
      assert LittleEndian(a, k - 1) == [a % 256] + LittleEndian(a / 256, k - 2);
    }
    if k >= 3 {
      assert LittleEndian(a / 256, k - 2) == [a / 256 % 256] + LittleEndian(a / 256 / 256, k - 3);
    }
  }
}
